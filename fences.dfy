/** Clean-up of a summarisation response before it is parsed as JSON: when
    the stripped response starts with a Markdown code fence, every opening
    fence (three backticks at a line start, an optional `json` and the
    whitespace after them) and every closing fence (whitespace, then three
    backticks at a line end) is deleted from the stripped text. The
    substitution is modelled as a left-to-right scan that deletes each match
    and copies every other character. */
module Fences {
  import opened Text

  const Fence: string := "```"

  predicate FenceAt(s: string, p: nat) {
    p + 3 <= |s| && s[p] == '`' && s[p + 1] == '`' && s[p + 2] == '`'
  }

  /** `^` in multi-line mode. */
  predicate LineStart(s: string, p: nat)
    requires p <= |s|
  {
    p == 0 || s[p - 1] == '\n'
  }

  /** `$` in multi-line mode. */
  predicate LineEnd(s: string, p: nat)
    requires p <= |s|
  {
    p == |s| || s[p] == '\n'
  }

  /** The length of an opening fence at `p`, or 0: three backticks at a line
      start, then `json` when it is there, then all the whitespace that
      follows. */
  function OpenLen(s: string, p: nat): (n: nat)
    requires p <= |s|
    ensures p + n <= |s|
  {
    if LineStart(s, p) && FenceAt(s, p) then
      var q := if p + 7 <= |s| && s[p + 3..p + 7] == "json" then p + 7 else p + 3;
      SpaceRunEnd(s, q) - p
    else 0
  }

  /** The length of a closing fence at `p`, or 0: the whitespace run from
      `p`, then three backticks that end a line. A shorter whitespace run
      never helps, since a backtick is not whitespace. */
  function CloseLen(s: string, p: nat): (n: nat)
    requires p <= |s|
    ensures p + n <= |s|
  {
    var m := SpaceRunEnd(s, p);
    if FenceAt(s, m) && LineEnd(s, m + 3) then m + 3 - p else 0
  }

  /** The length of the match at `p` (the opening alternative is tried
      first), or 0. */
  function FenceMatchLen(s: string, p: nat): (n: nat)
    requires p <= |s|
    ensures p + n <= |s|
  {
    var o := OpenLen(s, p);
    if o > 0 then o else CloseLen(s, p)
  }

  /** The substitution's output for the text from `p` on. */
  function SubFrom(s: string, p: nat): (r: string)
    requires p <= |s|
    ensures |r| <= |s| - p
    decreases |s| - p
  {
    if p == |s| then []
    else
      var n := FenceMatchLen(s, p);
      if n > 0 then SubFrom(s, p + n) else [s[p]] + SubFrom(s, p + 1)
  }

  /** The string handed to the JSON parser. */
  function CleanResponse(raw: string): (r: string)
    ensures !StartsWith(Trim(raw), Fence) ==> r == raw
    ensures |r| <= |raw|
  {
    var t := Trim(raw);
    if StartsWith(t, Fence) then SubFrom(t, 0) else raw
  }

  lemma ConsSlice<T>(s: seq<T>, p: nat, q: nat, rest: seq<T>)
    requires p < q <= |s|
    ensures [s[p]] + (s[p + 1..q] + rest) == s[p..q] + rest
  {
    assert s[p..q] == [s[p]] + s[p + 1..q];
  }

  /** A stretch with no match anywhere is copied unchanged. */
  lemma {:induction false} CopyRun(s: string, p: nat, q: nat)
    requires p <= q <= |s|
    requires forall j :: p <= j < q ==> FenceMatchLen(s, j) == 0
    ensures SubFrom(s, p) == s[p..q] + SubFrom(s, q)
    decreases q - p
  {
    if p < q {
      CopyRun(s, p + 1, q);
      ConsSlice(s, p, q, SubFrom(s, q));
    }
  }

  /** The fenced response, before stripping its surroundings. */
  function Fenced(tag: string, ws1: string, body: string, ws2: string): string {
    Fence + tag + ws1 + body + ws2 + Fence
  }

  /** What a well-formed fenced body looks like: it is not empty, neither
      starts nor ends with whitespace, holds no backtick, and does not start
      with `json` when nothing separates it from a bare opening fence. */
  predicate FenceParts(tag: string, ws1: string, body: string, ws2: string) {
    (tag == "" || tag == "json") && AllSpace(ws1) && AllSpace(ws2) &&
    body != [] && !IsSpace(body[0]) && !IsSpace(body[|body| - 1]) &&
    (forall k :: 0 <= k < |body| ==> body[k] != '`') &&
    (tag == "" && ws1 == [] ==> !StartsWith(body, "json"))
  }

  /** Where each part of a fenced response sits. */
  lemma FencedLayout(tag: string, ws1: string, body: string, ws2: string)
    ensures var t := Fenced(tag, ws1, body, ws2);
      var a := 3 + |tag| + |ws1|;
      var b := a + |body|;
      |t| == b + |ws2| + 3 &&
      t[0] == '`' && t[1] == '`' && t[2] == '`' &&
      (forall k :: 0 <= k < |tag| ==> t[3 + k] == tag[k]) &&
      (forall k :: 0 <= k < |ws1| ==> t[3 + |tag| + k] == ws1[k]) &&
      (forall k :: 0 <= k < |body| ==> t[a + k] == body[k]) &&
      (forall k :: 0 <= k < |ws2| ==> t[b + k] == ws2[k]) &&
      t[b + |ws2|] == '`' && t[b + |ws2| + 1] == '`' && t[b + |ws2| + 2] == '`'
  {
  }

  /** Behind a bare opening fence the text does not read `json`. */
  lemma BareFenceNoJson(ws1: string, body: string, ws2: string)
    requires FenceParts("", ws1, body, ws2)
    ensures var t := Fenced("", ws1, body, ws2);
      !(7 <= |t| && t[3..7] == "json")
  {
    var t := Fenced("", ws1, body, ws2);
    if 7 <= |t| {
      if ws1 != [] {
        assert t[3] == ws1[0];
        assert t[3..7][0] != 'j';
      } else {
        assert forall k :: 0 <= k < |body| ==> t[3 + k] == body[k];
        if |body| >= 4 {
          assert t[3..7] == body[..4];
        } else {
          var c := t[3 + |body|];
          assert c == (if ws2 != [] then ws2[0] else '`');
          assert t[3..7][|body|] == c;
        }
      }
    }
  }

  /** The opening fence of a fenced response reaches up to its body. */
  lemma OpenFence(tag: string, ws1: string, body: string, ws2: string)
    requires FenceParts(tag, ws1, body, ws2)
    ensures OpenLen(Fenced(tag, ws1, body, ws2), 0) == 3 + |tag| + |ws1|
  {
    var t := Fenced(tag, ws1, body, ws2);
    var a := 3 + |tag| + |ws1|;
    FencedLayout(tag, ws1, body, ws2);
    var q := if 7 <= |t| && t[3..7] == "json" then 7 else 3;
    assert q == 3 + |tag| by {
      if tag == "json" {
        assert t[3..7] == "json";
      } else {
        BareFenceNoJson(ws1, body, ws2);
      }
    }
    assert !IsSpace(t[a]);
    SpaceRunEndAt(t, q, a);
  }

  /** Inside the body nothing matches. */
  lemma NoMatchInBody(tag: string, ws1: string, body: string, ws2: string, p: nat)
    requires FenceParts(tag, ws1, body, ws2)
    requires 3 + |tag| + |ws1| <= p < 3 + |tag| + |ws1| + |body|
    ensures FenceMatchLen(Fenced(tag, ws1, body, ws2), p) == 0
  {
    var t := Fenced(tag, ws1, body, ws2);
    var a := 3 + |tag| + |ws1|;
    var b := a + |body|;
    assert forall k :: 0 <= k < |body| ==> t[a + k] == body[k];
    assert !IsSpace(t[b - 1]);
    var m := SpaceRunEnd(t, p);
    assert m < b;
    assert t[m] != '`';
  }

  /** At the end of the body the closing fence matches and reaches the end. */
  lemma CloseFence(tag: string, ws1: string, body: string, ws2: string)
    requires FenceParts(tag, ws1, body, ws2)
    ensures var b := 3 + |tag| + |ws1| + |body|;
      FenceMatchLen(Fenced(tag, ws1, body, ws2), b) == |ws2| + 3
  {
    var t := Fenced(tag, ws1, body, ws2);
    var a := 3 + |tag| + |ws1|;
    var b := a + |body|;
    assert forall k :: 0 <= k < |body| ==> t[a + k] == body[k];
    assert forall k :: 0 <= k < |ws2| ==> t[b + k] == ws2[k];
    assert t[b - 1] == body[|body| - 1];
    assert t[b + |ws2|] == '`';
    SpaceRunEndAt(t, b, b + |ws2|);
  }

  /** Stripping a fenced response gives back its body. */
  lemma StripFencedBody(tag: string, ws1: string, body: string, ws2: string)
    requires FenceParts(tag, ws1, body, ws2)
    ensures SubFrom(Fenced(tag, ws1, body, ws2), 0) == body
  {
    var t := Fenced(tag, ws1, body, ws2);
    var a := 3 + |tag| + |ws1|;
    var b := a + |body|;
    assert t[a..b] == body by {
      var x := Fence + tag + ws1;
      Assoc(x + body, ws2, Fence);
      MiddleSlice(x, body, ws2 + Fence);
    }
    forall j | a <= j < b
      ensures FenceMatchLen(t, j) == 0
    {
      NoMatchInBody(tag, ws1, body, ws2, j);
    }
    assert FenceMatchLen(t, 0) == a by {
      OpenFence(tag, ws1, body, ws2);
    }
    assert FenceMatchLen(t, b) == |ws2| + 3 by {
      CloseFence(tag, ws1, body, ws2);
    }
    assert |t| == b + |ws2| + 3;
    StripBetween(t, a, b);
  }

  /** A text whose opening match ends at `a`, with no match from `a` up to
      `b` and a match from `b` to its end, is stripped to the text between. */
  lemma StripBetween(s: string, a: nat, b: nat)
    requires 0 < a <= b < |s|
    requires FenceMatchLen(s, 0) == a
    requires forall j :: a <= j < b ==> FenceMatchLen(s, j) == 0
    requires b + FenceMatchLen(s, b) == |s| && FenceMatchLen(s, b) > 0
    ensures SubFrom(s, 0) == s[a..b]
  {
    CopyRun(s, a, b);
    FinalMatch(s, b);
    assert s[a..b] + [] == s[a..b];
  }

  /** A match that reaches the end of the text leaves nothing behind. */
  lemma FinalMatch(s: string, p: nat)
    requires p < |s| && FenceMatchLen(s, p) > 0 && p + FenceMatchLen(s, p) == |s|
    ensures SubFrom(s, p) == []
  {
  }

  /** The middle part of a three-part concatenation. */
  lemma MiddleSlice<T>(x: seq<T>, y: seq<T>, z: seq<T>)
    ensures (x + y + z)[|x|..|x| + |y|] == y
  {
  }

  /** A response that is a fenced body, whatever whitespace surrounds it,
      cleans to the body. */
  lemma CleanFenced(lead: string, tag: string, ws1: string, body: string, ws2: string, trail: string)
    requires AllSpace(lead) && AllSpace(trail)
    requires FenceParts(tag, ws1, body, ws2)
    ensures CleanResponse(lead + Fenced(tag, ws1, body, ws2) + trail) == body
  {
    var t := Fenced(tag, ws1, body, ws2);
    assert t[0] == '`' && t[|t| - 1] == '`';
    TrimOf(lead, t, trail);
    assert StartsWith(t, Fence);
    StripFencedBody(tag, ws1, body, ws2);
  }

  /** Cleaning a fenced response twice is cleaning it once. */
  lemma CleanFencedIdempotent(lead: string, tag: string, ws1: string, body: string, ws2: string, trail: string)
    requires AllSpace(lead) && AllSpace(trail)
    requires FenceParts(tag, ws1, body, ws2)
    ensures var once := CleanResponse(lead + Fenced(tag, ws1, body, ws2) + trail);
      CleanResponse(once) == once
  {
    CleanFenced(lead, tag, ws1, body, ws2, trail);
    CleanPlain(body);
  }

  /** A text that starts with neither whitespace nor a backtick and does not
      end with whitespace is left as it is. */
  lemma CleanPlain(x: string)
    requires x != [] && !IsSpace(x[0]) && !IsSpace(x[|x| - 1]) && x[0] != '`'
    ensures CleanResponse(x) == x
  {
    TrimOf([], x, []);
    assert [] + x + [] == x;
  }

  lemma CleanExample()
    ensures CleanResponse(" " + Fenced("json", "\n", "{\"a\": 1}", "\n") + "\n") == "{\"a\": 1}"
  {
    var body := "{\"a\": 1}";
    assert body[0] == '{';
    CleanFenced(" ", "json", "\n", body, "\n", "\n");
  }
}
