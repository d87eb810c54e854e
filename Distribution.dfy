/**
 * The Bloom's-level quotas written into the generation prompts: a question
 * count is divided evenly across the levels, and the remainder is handed out
 * one unit at a time to the lowest levels. NEET PG uses levels 1..5, USMLE
 * levels 3..5. Python's `//` and `%` by a positive divisor agree with Dafny's
 * `/` and `%`, so every integer count is covered, negative ones included.
 */
module Distribution {

  /** The sum of a list of counts. */
  function Sum(s: seq<int>): int {
    if s == [] then 0 else Sum(s[..|s| - 1]) + s[|s| - 1]
  }

  /** `n` split over `k` buckets in order: every bucket gets `n / k`, and the
      first `n % k` buckets get one more. */
  function EvenSplit(n: int, k: nat): (r: seq<int>)
    requires k > 0
    ensures |r| == k
    ensures forall i, j :: 0 <= i <= j < k ==> r[j] <= r[i] <= r[j] + 1
    ensures forall i :: 0 <= i < k ==> (r[i] == n / k + 1 <==> i < n % k)
    ensures forall i :: 0 <= i < k ==> (r[i] == n / k <==> n % k <= i)
    ensures n >= 0 ==> forall i :: 0 <= i < k ==> r[i] >= 0
  {
    var share, remainder := n / k, n % k;
    assert n >= 0 ==> share >= 0 by {
      assert n == k * share + remainder && 0 <= remainder < k;
    }
    seq(k, i requires 0 <= i < k => share + (if i < remainder then 1 else 0))
  }

  /** The first `j` buckets of an even split hold `j` full shares and one
      extra unit for each of them that lies below the remainder. */
  lemma {:induction false} EvenSplitPrefixSum(n: int, k: nat, j: nat)
    requires k > 0 && j <= k
    ensures Sum(EvenSplit(n, k)[..j]) == j * (n / k) + (if j < n % k then j else n % k)
  {
    var r := EvenSplit(n, k);
    var share, remainder := n / k, n % k;
    if j > 0 {
      EvenSplitPrefixSum(n, k, j - 1);
      assert r[..j][..j - 1] == r[..j - 1];
      assert Sum(r[..j]) == Sum(r[..j - 1]) + r[j - 1];
      assert r[j - 1] == share + (if j - 1 < remainder then 1 else 0);
      assert j * share == (j - 1) * share + share;
    }
  }

  /** An even split hands out exactly `n`, for every integer `n`. */
  lemma EvenSplitSum(n: int, k: nat)
    requires k > 0
    ensures Sum(EvenSplit(n, k)) == n
  {
    EvenSplitPrefixSum(n, k, k);
    assert EvenSplit(n, k)[..k] == EvenSplit(n, k);
  }

  /** The dictionary built for a NEET PG prompt, levels 1 to 5. */
  function NeetDistribution(numQuestions: int): (d: map<int, int>)
    ensures d.Keys == {1, 2, 3, 4, 5}
    ensures forall level :: level in d ==> d[level] == EvenSplit(numQuestions, 5)[level - 1]
  {
    var perLevel := numQuestions / 5;
    var remainder := numQuestions % 5;
    map[
      1 := perLevel + (if remainder > 0 then 1 else 0),
      2 := perLevel + (if remainder > 1 then 1 else 0),
      3 := perLevel + (if remainder > 2 then 1 else 0),
      4 := perLevel + (if remainder > 3 then 1 else 0),
      5 := perLevel + (if remainder > 4 then 1 else 0)
    ]
  }

  /** The dictionary built for a USMLE prompt, levels 3 to 5. */
  function UsmleDistribution(numQuestions: int): (d: map<int, int>)
    ensures d.Keys == {3, 4, 5}
    ensures forall level :: level in d ==> d[level] == EvenSplit(numQuestions, 3)[level - 3]
  {
    var perLevel := numQuestions / 3;
    var remainder := numQuestions % 3;
    map[
      3 := perLevel + (if remainder > 0 then 1 else 0),
      4 := perLevel + (if remainder > 1 then 1 else 0),
      5 := perLevel + (if remainder > 2 then 1 else 0)
    ]
  }

  /** The NEET PG level counts add up to the requested number of questions. */
  lemma NeetDistributionSum(numQuestions: int)
    ensures var d := NeetDistribution(numQuestions);
      d[1] + d[2] + d[3] + d[4] + d[5] == numQuestions
  {
    var r := EvenSplit(numQuestions, 5);
    EvenSplitSum(numQuestions, 5);
    assert r == r[..4] + [r[4]];
    assert r[..4] == r[..3] + [r[3]];
    assert r[..3] == r[..2] + [r[2]];
    assert r[..2] == r[..1] + [r[1]];
    assert r[..1] == [] + [r[0]];
  }

  /** The USMLE level counts add up to the requested number of questions. */
  lemma UsmleDistributionSum(numQuestions: int)
    ensures var d := UsmleDistribution(numQuestions);
      d[3] + d[4] + d[5] == numQuestions
  {
    var r := EvenSplit(numQuestions, 3);
    EvenSplitSum(numQuestions, 3);
    assert r == r[..2] + [r[2]];
    assert r[..2] == r[..1] + [r[1]];
    assert r[..1] == [] + [r[0]];
  }

  /** A NEET PG level gets the extra question exactly when it is at most the
      remainder, the counts never increase from level 1 to level 5, no two
      differ by more than one, and none is negative for a non-negative
      request. */
  lemma NeetDistributionShape(numQuestions: int)
    ensures var d := NeetDistribution(numQuestions);
      forall level :: 1 <= level <= 5 ==>
        d[level] == numQuestions / 5 + (if level <= numQuestions % 5 then 1 else 0)
    ensures var d := NeetDistribution(numQuestions);
      forall lo, hi :: 1 <= lo <= hi <= 5 ==> d[hi] <= d[lo] <= d[hi] + 1
    ensures var d := NeetDistribution(numQuestions);
      numQuestions >= 0 ==> forall level :: 1 <= level <= 5 ==> d[level] >= 0
  {
  }

  /** The USMLE counts are balanced, non-increasing from level 3 to level 5
      and non-negative for a non-negative request; level 5 always gets exactly
      `numQuestions // 3`, because a remainder modulo 3 never exceeds 2. */
  lemma UsmleDistributionShape(numQuestions: int)
    ensures var d := UsmleDistribution(numQuestions);
      forall lo, hi :: 3 <= lo <= hi <= 5 ==> d[hi] <= d[lo] <= d[hi] + 1
    ensures var d := UsmleDistribution(numQuestions);
      numQuestions >= 0 ==> forall level :: 3 <= level <= 5 ==> d[level] >= 0
    ensures UsmleDistribution(numQuestions)[5] == numQuestions / 3
  {
  }

  /** Seventeen NEET PG questions are split 4, 4, 3, 3, 3. */
  lemma NeetSeventeen()
    ensures NeetDistribution(17) == map[1 := 4, 2 := 4, 3 := 3, 4 := 3, 5 := 3]
  {
  }
}
