/**
 * The Python string built-ins the backend leans on, on `seq<char>`:
 * substring membership (`pat in s`), `str.split(sep)` with a non-empty
 * separator, `str.strip()` with no argument, and the ordering `<=` on `str`.
 */
module Text {
  import opened Wrappers

  /** `pat` occurs in `s` starting at index `i`. */
  predicate OccursAt(s: string, pat: string, i: nat) {
    i + |pat| <= |s| && s[i..i + |pat|] == pat
  }

  /** The first index at or after `from` where `pat` occurs. */
  function FindFrom(s: string, pat: string, from: nat): (r: Option<nat>)
    requires from <= |s|
    ensures r.Some? ==> from <= r.value && OccursAt(s, pat, r.value)
    ensures r.Some? ==> forall j :: from <= j < r.value ==> !OccursAt(s, pat, j)
    ensures r.None? ==> forall j: nat :: from <= j ==> !OccursAt(s, pat, j)
    decreases |s| - from
  {
    if from + |pat| > |s| then None
    else if OccursAt(s, pat, from) then Some(from)
    else FindFrom(s, pat, from + 1)
  }

  /** The first index where `pat` occurs. */
  function Find(s: string, pat: string): (r: Option<nat>)
    ensures r.Some? ==> OccursAt(s, pat, r.value)
    ensures r.Some? ==> forall j :: 0 <= j < r.value ==> !OccursAt(s, pat, j)
    ensures r.None? ==> forall j: nat :: !OccursAt(s, pat, j)
  {
    FindFrom(s, pat, 0)
  }

  /** Python's `pat in s`. */
  predicate Contains(s: string, pat: string) {
    Find(s, pat).Some?
  }

  /** `pat in s` holds exactly when `pat` occurs somewhere in `s`. */
  lemma ContainsIff(s: string, pat: string)
    ensures Contains(s, pat) <==> exists i: nat :: OccursAt(s, pat, i)
  {
  }

  /** Searching a prefix `s[..m]` finds the first occurrence in `s` when it
      fits inside the prefix, and nothing otherwise. */
  lemma FindInPrefix(s: string, pat: string, m: nat)
    requires m <= |s|
    ensures match Find(s, pat)
            case None => Find(s[..m], pat) == None
            case Some(f) => Find(s[..m], pat) == if f + |pat| <= m then Some(f) else None
  {
    var t := s[..m];
    match Find(t, pat)
    case None =>
      if Find(s, pat).Some? {
        var f := Find(s, pat).value;
        if f + |pat| <= m {
          assert t[f..f + |pat|] == s[f..f + |pat|];
          assert OccursAt(t, pat, f);
        }
      }
    case Some(g) =>
      assert t[g..g + |pat|] == s[g..g + |pat|];
      assert OccursAt(s, pat, g);
      var f := Find(s, pat).value;
      assert f <= g;
      assert t[f..f + |pat|] == s[f..f + |pat|];
      assert OccursAt(t, pat, f);
  }

  /** Python's `s.split(sep)` for a non-empty `sep`: the pieces between
      successive non-overlapping occurrences, scanning left to right. */
  function Split(s: string, sep: string): (r: seq<string>)
    requires |sep| > 0
    ensures |r| >= 1
    decreases |s|
  {
    match Find(s, sep)
    case None => [s]
    case Some(p) => [s[..p]] + Split(s[p + |sep|..], sep)
  }

  /** One step of the split: the text before the first separator, then the
      pieces of what follows it. */
  lemma SplitStep(s: string, sep: string, p: nat)
    requires |sep| > 0
    requires Find(s, sep) == Some(p)
    ensures p + |sep| <= |s|
    ensures Split(s, sep) == [s[..p]] + Split(s[p + |sep|..], sep)
  {
  }

  /** The text before the first occurrence of `sep` holds no `sep`. */
  lemma BeforeFirstIsFree(s: string, sep: string, p: nat)
    requires |sep| > 0
    requires Find(s, sep) == Some(p)
    ensures p <= |s| && !Contains(s[..p], sep)
  {
    var head := s[..p];
    if Contains(head, sep) {
      var j := Find(head, sep).value;
      assert s[j..j + |sep|] == head[j..j + |sep|];
      assert OccursAt(s, sep, j) && j < p;
      assert false;
    }
  }

  /** The first piece is a prefix of the text that holds no separator; it is
      the whole text exactly when the separator does not occur, and is
      otherwise followed by the separator. */
  lemma SplitFirstPiece(s: string, sep: string)
    requires |sep| > 0
    ensures var h := Split(s, sep)[0];
      |h| <= |s| && h == s[..|h|] && !Contains(h, sep)
      && (h == s <==> !Contains(s, sep))
      && (h != s ==> OccursAt(s, sep, |h|))
  {
    match Find(s, sep)
    case None =>
    case Some(p) =>
      SplitStep(s, sep, p);
      BeforeFirstIsFree(s, sep, p);
  }

  /** There is a second piece exactly when the separator occurs, and it is
      the first piece of what follows the first separator. */
  lemma SplitSecondPiece(s: string, sep: string)
    requires |sep| > 0
    ensures |Split(s, sep)| >= 2 <==> Contains(s, sep)
    ensures Contains(s, sep) ==>
      var p := Find(s, sep).value;
      p + |sep| <= |s| && Split(s, sep)[1] == Split(s[p + |sep|..], sep)[0]
  {
    match Find(s, sep)
    case None =>
    case Some(p) =>
      SplitStep(s, sep, p);
  }

  /** No piece of a split holds the separator. */
  lemma {:induction false} SplitPiecesFree(s: string, sep: string)
    requires |sep| > 0
    ensures forall k :: 0 <= k < |Split(s, sep)| ==> !Contains(Split(s, sep)[k], sep)
    decreases |s|
  {
    match Find(s, sep)
    case None =>
    case Some(p) =>
      SplitStep(s, sep, p);
      BeforeFirstIsFree(s, sep, p);
      SplitPiecesFree(s[p + |sep|..], sep);
  }

  /** Python's `sep.join(pieces)`. */
  function Join(pieces: seq<string>, sep: string): string {
    if |pieces| == 0 then []
    else if |pieces| == 1 then pieces[0]
    else pieces[0] + sep + Join(pieces[1..], sep)
  }

  /** Splitting loses nothing: joining the pieces back with the separator
      gives the original text. */
  lemma {:induction false} SplitJoin(s: string, sep: string)
    requires |sep| > 0
    ensures Join(Split(s, sep), sep) == s
    decreases |s|
  {
    match Find(s, sep)
    case None =>
    case Some(p) =>
      var rest := s[p + |sep|..];
      SplitStep(s, sep, p);
      SplitJoin(rest, sep);
      assert s == s[..p] + sep + rest;
  }

  /** Python's `str.isspace()` for one character: the C0 separators
      U+0009..U+000D and U+001C..U+001F, the space, NEL, no-break space and
      the Unicode space separators, line and paragraph separators. */
  predicate IsSpace(c: char) {
    ('\t' <= c <= '\r') || ('\U{1C}' <= c <= ' ')
    || c == '\U{85}' || c == '\U{A0}' || c == '\U{1680}'
    || ('\U{2000}' <= c <= '\U{200A}')
    || c == '\U{2028}' || c == '\U{2029}' || c == '\U{202F}'
    || c == '\U{205F}' || c == '\U{3000}'
  }

  /** `s` with its leading whitespace removed. */
  function TrimStart(s: string): (r: string)
    ensures |r| <= |s| && r == s[|s| - |r|..]
    ensures r == [] || !IsSpace(r[0])
    ensures forall i :: 0 <= i < |s| - |r| ==> IsSpace(s[i])
  {
    if s != [] && IsSpace(s[0]) then TrimStart(s[1..]) else s
  }

  /** `s` with its trailing whitespace removed. */
  function TrimEnd(s: string): (r: string)
    ensures |r| <= |s| && r == s[..|r|]
    ensures r == [] || !IsSpace(r[|r| - 1])
    ensures forall i :: |r| <= i < |s| ==> IsSpace(s[i])
  {
    if s != [] && IsSpace(s[|s| - 1]) then TrimEnd(s[..|s| - 1]) else s
  }

  /** Python's `s.strip()`: neither end of the result is whitespace. */
  function Strip(s: string): (r: string)
    ensures r == [] || (!IsSpace(r[0]) && !IsSpace(r[|r| - 1]))
  {
    TrimEnd(TrimStart(s))
  }

  /** `strip()` keeps one contiguous run of `s`, the one starting after the
      leading whitespace, and every character it drops on either side is
      whitespace. */
  lemma StripKeepsRun(s: string)
    ensures var a, r := |s| - |TrimStart(s)|, Strip(s);
      a + |r| <= |s| && r == s[a..a + |r|]
      && (forall i :: 0 <= i < a ==> IsSpace(s[i]))
      && (forall i :: a + |r| <= i < |s| ==> IsSpace(s[i]))
  {
    var t := TrimStart(s);
    var a := |s| - |t|;
    var r := TrimEnd(t);
    SliceOfSuffix(s, a, |r|);
    TrailingSpaceCarries(s, t, a, |r|);
  }

  lemma SliceOfSuffix(s: string, a: nat, m: nat)
    requires a + m <= |s|
    ensures s[a..][..m] == s[a..a + m]
  {
  }

  /** Whitespace at the tail of the suffix `t` of `s` is whitespace of `s`. */
  lemma TrailingSpaceCarries(s: string, t: string, a: nat, m: nat)
    requires a + |t| == |s| && t == s[a..] && m <= |t|
    requires forall i :: m <= i < |t| ==> IsSpace(t[i])
    ensures forall i :: a + m <= i < |s| ==> IsSpace(s[i])
  {
    forall i | a + m <= i < |s| ensures IsSpace(s[i]) {
      assert s[i] == t[i - a];
    }
  }

  /** Python's `a <= b` on `str`: lexicographic order by code point, where a
      proper prefix comes first. */
  predicate StrLe(a: string, b: string)
    decreases |a|
  {
    a == [] || (b != [] && (a[0] < b[0] || (a[0] == b[0] && StrLe(a[1..], b[1..]))))
  }

  lemma {:induction false} StrLeReflexive(a: string)
    ensures StrLe(a, a)
    decreases |a|
  {
    if a != [] {
      StrLeReflexive(a[1..]);
    }
  }

  lemma {:induction false} StrLeTotal(a: string, b: string)
    ensures StrLe(a, b) || StrLe(b, a)
    decreases |a|
  {
    if a != [] && b != [] && a[0] == b[0] {
      StrLeTotal(a[1..], b[1..]);
    }
  }

  lemma {:induction false} StrLeTransitive(a: string, b: string, c: string)
    requires StrLe(a, b) && StrLe(b, c)
    ensures StrLe(a, c)
    decreases |a|
  {
    if a != [] && a[0] == b[0] && b[0] == c[0] {
      StrLeTransitive(a[1..], b[1..], c[1..]);
    }
  }

  lemma {:induction false} StrLeAntisymmetric(a: string, b: string)
    requires StrLe(a, b) && StrLe(b, a)
    ensures a == b
    decreases |a|
  {
    if a != [] {
      StrLeAntisymmetric(a[1..], b[1..]);
      assert a == [a[0]] + a[1..] && b == [b[0]] + b[1..];
    }
  }
}
