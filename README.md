# QBank Generator backend — a Dafny model

The QBank Generator backend is a small Flask service that asks a language model for
multiple-choice questions for two medical exams, NEET PG and USMLE. This project models
the deterministic logic in `app.py` and proves its properties:

- **Bloom's-level quotas** (`Distribution`). Each generation prompt states how many questions
  to write per Bloom's level. NEET PG uses levels 1..5 and USMLE uses levels 3..5. The count is
  split evenly, and the remainder goes one question at a time to the lowest levels. Both
  dictionaries are instances of one even split, `EvenSplit(n, k)`. The proofs cover every
  integer count, including negative ones.
- **Fence stripping** (`Extraction`). The model's reply is cut out of a "```json" fence, or
  else a bare "```" fence, with Python's `str.split` semantics. It is then stripped of
  surrounding whitespace (`Text.Strip`) and handed to the JSON decoder.
- **`/api/generate`** (`Generate`). First an ordered validation cascade. Then each topic is
  generated in order, and the per-topic lists are concatenated. The first topic that fails
  ends the request. The language-model call and `json.loads` are function parameters. The
  client is `llm(call, prompt)`, the reply to the handler's `call`-th request. So a topic
  listed twice gets two independent replies, and either may fail.
- **Catalogue lookups** (`Catalogue`). Subjects are returned sorted. Topics come from the
  first subject with the requested name, sorted. Chapters come from the first matching topic
  of the first matching subject. The catalogue is passed in as a value.

The Python string built-ins these rely on are modelled on `seq<char>` in `Text` and
`Sorting`: `in`, `split`, `strip`, the `<=` order on `str` and `sorted`.

One detail of the fence stripping follows the code exactly. The reply is cut at the second
"```json" before it is cut at "```". So backticks that run into a second "```json" stay in
the result: `"```json[]`````json"` gives `"[]``"`. `UnfencedJson` gives the exact result in
every case. Let `rest` be the text after the opening fence. The result ends at the first
"```" in `rest`, or at the end of `rest` when there is none. The exception is a "```json"
that starts up to two characters before the end of that first "```". Then the cut comes at
that "```json".

The distribution in this backend never rejects a negative count. Only the handler's 5..50
check keeps such counts out. The model follows the code here.

## Model

| member | source | states |
|---|---|---|
| `Distribution.EvenSplit` | app.py:43-52 | k buckets. Counts never increase along the buckets, and any two differ by at most one. Bucket i gets the extra unit exactly when i < n % k, and no count is negative for n >= 0 |
| `Distribution.EvenSplitSum` | app.py:43-52 | the buckets of an even split add up to exactly n, for every integer n |
| `Distribution.EvenSplitPrefixSum` | app.py:43-52 | the first j buckets hold j shares plus one extra unit for each of them below the remainder |
| `Distribution.NeetDistribution` | app.py:43-52 | the NEET PG dictionary has keys 1..5, and level L holds bucket L-1 of the even split over 5 |
| `Distribution.UsmleDistribution` | app.py:96-103 | the USMLE dictionary has keys 3..5, and level L holds bucket L-3 of the even split over 3 |
| `Distribution.NeetDistributionSum` | app.py:43-52 | the five NEET PG level counts add up to `num_questions` |
| `Distribution.UsmleDistributionSum` | app.py:96-103 | the three USMLE level counts add up to `num_questions` |
| `Distribution.NeetDistributionShape` | app.py:46-52 | level L gets `per_level + 1` exactly when L <= remainder. Counts never increase from level 1 to 5, differ by at most one, and are non-negative for a non-negative request |
| `Distribution.UsmleDistributionShape` | app.py:96-103 | the counts are balanced, never increase from level 3 to 5, and are non-negative for a non-negative request. Level 5 is always `num_questions // 3` |
| `Distribution.NeetSeventeen` | app.py:43-52 | 17 NEET PG questions split as 4, 4, 3, 3, 3 |
| `Text.FindInPrefix` | app.py:223 | searching a prefix finds the text's first occurrence when it fits inside the prefix, and nothing otherwise |
| `Text.Find` | app.py:222-225 | the result is an occurrence of the pattern with none before it, or none at all when the pattern does not occur |
| `Text.ContainsIff` | app.py:222-224 | `pat in s` holds exactly when the pattern occurs at some index |
| `Text.Split` | app.py:223-225 | `str.split(sep)` yields at least one piece. The pieces are fixed by the lemmas below: `SplitFirstPiece`, `SplitSecondPiece`, `SplitPiecesFree`, `SplitJoin` |
| `Text.SplitFirstPiece` | app.py:223-225 | `split(sep)[0]` is a prefix of the text that holds no separator. It is the whole text exactly when the separator is absent, and is otherwise followed by the separator |
| `Text.SplitSecondPiece` | app.py:222-225 | `split(sep)[1]` exists exactly when `sep in s`, and it is the first piece of the text after the first separator |
| `Text.SplitPiecesFree` | app.py:223-225 | no piece of a split contains the separator |
| `Text.SplitJoin` | app.py:223-225 | joining the pieces of a split with the separator gives back the original text |
| `Text.Strip` | app.py:227 | the result of `strip()` neither starts nor ends with whitespace |
| `Text.StripKeepsRun` | app.py:227 | `strip()` keeps one contiguous run of the text, and everything it drops on either side is whitespace |
| `Text.StrLe` | app.py:151-171 | the `<=` order on `str` that `sorted` uses: lexicographic by code point, a proper prefix first. The four lemmas below make it a total order |
| `Text.StrLeReflexive` | app.py:151-171 | every string is `<=` itself |
| `Text.StrLeTotal` | app.py:151-171 | of any two strings, one is `<=` the other |
| `Text.StrLeTransitive` | app.py:151-171 | `<=` on strings is transitive |
| `Text.StrLeAntisymmetric` | app.py:151-171 | two strings each `<=` the other are equal |
| `Sorting.SortStrings` | app.py:151 | `sorted` returns the same strings, each as often, in ascending code-point order |
| `Sorting.SortedUnique` | app.py:151 | two sorted arrangements of the same strings are equal, so the sorted list is determined |
| `Extraction.Unfenced` | app.py:221-225 | whatever the reply, the text handed on contains no "```" |
| `Extraction.StripFences` | app.py:219-225 | the step-by-step reassignment of the reply text gives the fence-stripped text, which has no "```" |
| `Extraction.UnfencedWithoutFence` | app.py:222-225 | a reply without any fence passes through unchanged |
| `Extraction.UnfencedJson` | app.py:222-223 | with "```json" first at p and `rest` after it: all of `rest` when it holds no "```". Otherwise `rest` up to its first "```", or up to its first "```json" when that starts within two characters before the end of that "```" |
| `Extraction.UnfencedBare` | app.py:224-225 | with only bare fences, the result is exactly the text between the first "```" and the next one, or to the end |
| `Extraction.UnfencedTypicalReply` | app.py:222-223 | "```json\n[]\n```" yields "\n[]\n" |
| `Extraction.UnfencedStopsAtSecondJsonFence` | app.py:223 | the cut at a second "```json" comes first, so "```json[]`````json" yields "[]``" |
| `Catalogue.FirstIndex` | app.py:164-167 | the index found holds the name and no earlier index does. There is none exactly when the name is absent |
| `Catalogue.GetSubjects` | app.py:147-156 | the course's subject names, sorted and each as often as listed. Nothing for an unknown course |
| `Catalogue.TopicsOf` | app.py:159-173 | the topic names of the first subject with the requested name, sorted. Nothing when no subject matches |
| `Catalogue.ChaptersOf` | app.py:176-196 | the chapters `get_chapters` reports. Nothing for an unknown course or a subject the course does not list (the full first-match behaviour is `ChaptersFromFirstMatches`) |
| `Catalogue.GetTopics` | app.py:159-173 | the loop with `break` returns exactly those topics |
| `Catalogue.GetChapters` | app.py:176-196 | the nested loops with `break` return the chapters of the first matching topic of the first matching subject, or nothing |
| `Catalogue.ChaptersFromFirstMatches` | app.py:179-196 | if the first subject with the name has the topic, the chapters are those of its first such topic. If it lacks the topic, the result is empty, whatever later subjects hold |
| `Catalogue.UnknownSubjectYieldsNothing` | app.py:159-196 | a subject that no entry of the course lists yields no topics and no chapters |
| `Catalogue.ChaptersStopAtFirstSubject` | app.py:181-187 | a second "Anatomy" that holds the topic is never reached, because of the outer `break` |
| `Generate.BuildPrompt` | app.py:199-207 | there is a prompt exactly for 'NEET PG' and 'USMLE'. It asks for the requested count. Its level quotas are that course's distribution dictionary, with that course's levels, adding up to the count |
| `Generate.PromptQuotasBalanced` | app.py:39-103 | every prompt's quotas are the "equal Bloom's level distribution": no two levels differ by more than one, a lower level never gets fewer than a higher one, none is negative for a non-negative count |
| `Generate.TopicOutcome` | app.py:199-232 | what `generate_for_topic` returns or raises. It fails with 'Invalid course' exactly for a course other than 'NEET PG' and 'USMLE' |
| `Generate.TopicOutcomeCases` | app.py:209-232 | for a supported course: a client failure exactly when the client raised on this call, a decoding error exactly when the cleaned reply does not decode, 'not a list' exactly when it decodes to something else, and success exactly when it decodes to a list, which is the result |
| `Generate.GenerateForTopic` | app.py:199-232 | fails with 'Invalid course' exactly for an unknown course. Otherwise it fails when the client raises, when decoding fails or when the reply is not a list. On success it returns the list decoded from the unfenced, stripped reply to its request |
| `Generate.GenerateAll` | app.py:259-265 | the topic loop as a value: the first failing topic's error, or the questions of all topics in order. Its meaning is the four lemmas below |
| `Generate.GenerateAllConcatenates` | app.py:260-265 | when every topic succeeds, the questions are the per-topic lists concatenated in topic order |
| `Generate.GenerateAllFirstFailure` | app.py:259-265 | when topic k is the first to fail, the request fails with topic k's error |
| `Generate.GenerateAllExtendsFailure` | app.py:263-265 | a failure among the first k topics is the failure of the whole list |
| `Generate.GenerateAllAvoidsError` | app.py:263-265 | an error that no topic produces is never the result |
| `Generate.KnownCourseNeverInvalid` | app.py:206-207 | for 'NEET PG' or 'USMLE' no topic, and so no request, fails with 'Invalid course' |
| `Generate.RequestedCount` | app.py:247 | `num_questions`, 10 when the request leaves it out |
| `Generate.Validate` | app.py:249-257 | the cascade in order. First a missing course or subject or no topics, then a count outside 5..50, then an unknown course. A request passes exactly when all three hold |
| `Generate.GenerateTopics` | app.py:259-265 | the loop that extends the list topic by topic gives the in-order aggregate, stopping at the first failure |
| `Generate.GenerateQuestions` | app.py:236-277 | a rejected request gets its rejection. An accepted one gets the questions with `count` equal to their number and `topics_count` equal to the number of topics. Otherwise a decoding failure or the other error. 'Invalid course' never comes back |

## Left out

- The Flask app, routes, `request.json` and `jsonify`. HTTP status codes are not modelled: `Response` names the outcomes instead (rejected request, decode failure, other error).
- The `ANTHROPIC_API_KEY` check (app.py:239-241). It reads the process environment.
- The language-model call (app.py:210-216) and `json.loads` (app.py:227). They are foreign calls, so they are the parameters `llm` and `parse`. A reply with an empty `content` list counts as a client failure.
- Loading the catalogue and example files at import time (app.py:18-34). This is disk I/O, so the catalogue is a parameter. NEET PG and USMLE records share one shape despite their different key names.
- The prompt prose, the embedded examples and the `chapters` argument of the prompt builders. The builders would add a chapter line (app.py:56, 107), but `generate_for_topic` never passes chapters (app.py:203, 205). A prompt is a record of the course, subject, topic, count and level quotas.
- The error message texts built from `str(e)`.
- Fractional `num_questions`. `Request.numQuestions` is an integer. A JSON count such as 7.5 passes the 5..50 check, and then Python's float `//` and `%` give levels 2.0, 2.0, 2.0, 1.0, 1.0. Those add up to 8.0, so the exact-sum property of the distribution does not hold for such counts.
- Request fields of unexpected JSON types. `Request.numQuestions` is None only when the key is absent, which gives the default 10.
  - A `num_questions` that is not a number is not modelled. This includes JSON `null`: `data.get('num_questions', 10)` returns None for it, not 10.
  - Such a count is first compared at the 5..50 check (app.py:253). A request that fails the missing-field check (app.py:250-251) is rejected before that, with no error. Otherwise the comparison raises a TypeError inside the validation block, outside the `try` (app.py:259).
  - Non-string courses and non-list topics are not modelled either.
  - A field is "given" when it is present and not the empty string.
- `index`, `download_questions` (a pass-through) and `run.py` (a launcher).
- Chapter lists are modelled as lists of strings. The source returns whatever JSON the file holds.
