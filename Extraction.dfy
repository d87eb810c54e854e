/**
 * Pulling the JSON out of the model's reply (app.py, `generate_for_topic`):
 * when the reply carries a "```json" fence, keep what follows its first
 * occurrence up to the next "```"; otherwise, when it carries a bare "```"
 * fence, keep what lies between the first and the second "```" (or runs to
 * the end); otherwise keep the reply as it is. Both cases are written in the
 * source as `text.split(open)[1].split("```")[0]`, and are modelled that way.
 */
module Extraction {
  import opened Wrappers
  import opened Text

  const Fence: string := "```"
  const JsonFence: string := "```json"

  /** "```json" begins with "```", so where the former occurs the latter
      does. */
  lemma JsonFenceStartsWithFence(s: string, i: nat)
    requires OccursAt(s, JsonFence, i)
    ensures OccursAt(s, Fence, i)
  {
    assert s[i..i + |Fence|] == s[i..i + |JsonFence|][..|Fence|];
  }

  /** `text.split(open)[1].split("```")[0]`, for a text that holds `open`. */
  function CutAfter(text: string, open: string): (r: string)
    requires |open| > 0 && Contains(text, open)
    ensures !Contains(r, Fence)
  {
    SplitSecondPiece(text, open);
    var second := Split(text, open)[1];
    SplitFirstPiece(second, Fence);
    Split(second, Fence)[0]
  }

  /** What the reply becomes before it is handed to the JSON parser. Whatever
      the reply, no "```" is left in it. */
  function Unfenced(reply: string): (r: string)
    ensures !Contains(r, Fence)
  {
    if Contains(reply, JsonFence) then CutAfter(reply, JsonFence)
    else if Contains(reply, Fence) then CutAfter(reply, Fence)
    else reply
  }

  /** The fence stripping as the source performs it, by reassigning the
      reply text. */
  method StripFences(reply: string) returns (text: string)
    ensures text == Unfenced(reply)
    ensures !Contains(text, Fence)
  {
    text := reply;
    if Contains(text, JsonFence) {
      SplitSecondPiece(text, JsonFence);
      text := Split(text, JsonFence)[1];
      text := Split(text, Fence)[0];
    } else if Contains(text, Fence) {
      SplitSecondPiece(text, Fence);
      text := Split(text, Fence)[1];
      text := Split(text, Fence)[0];
    }
  }

  /** A reply without any fence passes through unchanged. */
  lemma UnfencedWithoutFence(reply: string)
    requires !Contains(reply, Fence)
    ensures Unfenced(reply) == reply
  {
    if Contains(reply, JsonFence) {
      JsonFenceStartsWithFence(reply, Find(reply, JsonFence).value);
      assert false;
    }
  }

  /** With a "```json" fence first at `p`, let `rest` be the text after it.
      The result is `rest` when it holds no "```"; otherwise it is `rest` up
      to its first "```", unless a "```json" starts within the two
      characters before that fence's end, in which case the cut comes
      earlier, at that "```json". */
  lemma UnfencedJson(reply: string, p: nat)
    requires Find(reply, JsonFence) == Some(p)
    ensures p + |JsonFence| <= |reply|
    ensures var rest, r := reply[p + |JsonFence|..], Unfenced(reply);
      match Find(rest, Fence)
      case None => r == rest
      case Some(f) =>
        match Find(rest, JsonFence)
        case None => r == rest[..f]
        case Some(q) => r == if f + |Fence| <= q then rest[..f] else rest[..q]
  {
    var rest := reply[p + |JsonFence|..];
    SplitSecondPiece(reply, JsonFence);
    var segment := Split(rest, JsonFence)[0];
    assert Unfenced(reply) == Split(segment, Fence)[0];
    match Find(rest, JsonFence)
    case None =>
      assert segment == rest;
      if Find(rest, Fence).Some? {
        SplitStep(rest, Fence, Find(rest, Fence).value);
      }
    case Some(q) =>
      SplitStep(rest, JsonFence, q);
      assert segment == rest[..q];
      JsonFenceStartsWithFence(rest, q);
      FindInPrefix(rest, Fence, q);
      var f := Find(rest, Fence).value;
      if f + |Fence| <= q {
        SplitStep(segment, Fence, f);
        assert segment[..f] == rest[..f];
      }
  }

  /** With only bare fences, the first at `p`, the result is exactly the text
      between that fence and the next one after it, or to the end when there
      is no other. */
  lemma UnfencedBare(reply: string, p: nat)
    requires !Contains(reply, JsonFence)
    requires Find(reply, Fence) == Some(p)
    ensures p + |Fence| <= |reply|
    ensures var rest := reply[p + |Fence|..];
      Unfenced(reply) == match Find(rest, Fence)
                         case None => rest
                         case Some(q) => rest[..q]
  {
    var rest := reply[p + |Fence|..];
    SplitSecondPiece(reply, Fence);
    var piece := Split(rest, Fence)[0];
    SplitFirstPiece(rest, Fence);
    SplitFirstPiece(piece, Fence);
    assert Split(piece, Fence)[0] == piece;
    match Find(rest, Fence)
    case None =>
    case Some(q) =>
      SplitStep(rest, Fence, q);
  }

  /** The usual reply shape: the array between a "```json" line and a
      closing fence. */
  lemma UnfencedTypicalReply()
    ensures Unfenced("```json\n[]\n```") == "\n[]\n"
  {
    var reply := "```json\n[]\n```";
    var rest := "\n[]\n```";
    assert OccursAt(reply, JsonFence, 0);
    assert Find(reply, JsonFence) == Some(0);
    assert reply[7..] == rest;
    SplitSecondPiece(reply, JsonFence);
    TypicalReplyBody(rest);
  }

  lemma TypicalReplyBody(rest: string)
    requires rest == "\n[]\n```"
    ensures Split(Split(rest, JsonFence)[0], Fence)[0] == "\n[]\n"
  {
    assert rest[0..7][0] != JsonFence[0];
    assert FindFrom(rest, JsonFence, 1) == None;
    assert Split(rest, JsonFence) == [rest];
    assert rest[0..3][0] != '`' && rest[1..4][1] != '`';
    assert rest[2..5][0] != '`' && rest[3..6][0] != '`';
    assert OccursAt(rest, Fence, 4);
    assert FindFrom(rest, Fence, 4) == Some(4);
    assert FindFrom(rest, Fence, 0) == Some(4);
    SplitStep(rest, Fence, 4);
  }

  /** The cut at the next "```json" comes first, so backticks that run into
      a second "```json" stay in the result: here two stray backticks are
      kept, where cutting at the first "```" after the opening fence would
      give "[]". */
  lemma UnfencedStopsAtSecondJsonFence()
    ensures Unfenced("```json[]`````json") == "[]``"
  {
    var reply := "```json[]`````json";
    var rest := "[]`````json";
    assert OccursAt(reply, JsonFence, 0);
    assert Find(reply, JsonFence) == Some(0);
    assert reply[7..] == rest;
    SplitSecondPiece(reply, JsonFence);
    SecondJsonFenceAtFour(rest);
    assert Split(rest, JsonFence)[0] == "[]``";
    StrayBackticksHoldNoFence();
  }

  lemma SecondJsonFenceAtFour(rest: string)
    requires rest == "[]`````json"
    ensures Find(rest, JsonFence) == Some(4)
    ensures Split(rest, JsonFence)[0] == rest[..4]
  {
    assert rest[0..7][0] != JsonFence[0] && rest[1..8][0] != JsonFence[0];
    assert rest[2..9][3] != JsonFence[3] && rest[3..10][3] != JsonFence[3];
    assert OccursAt(rest, JsonFence, 4);
    assert FindFrom(rest, JsonFence, 4) == Some(4);
    assert FindFrom(rest, JsonFence, 0) == Some(4);
    SplitStep(rest, JsonFence, 4);
  }

  lemma StrayBackticksHoldNoFence()
    ensures Split("[]``", Fence) == ["[]``"]
  {
    var segment := "[]``";
    assert segment[0..3][0] != '`' && segment[1..4][0] != '`';
    assert FindFrom(segment, Fence, 0) == None;
  }
}
