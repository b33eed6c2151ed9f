/** Evidence extraction for a chat answer: every non-overlapping occurrence
    of a tag shaped `[[P<digits>_<digits>]]`, left to right, joined with
    ", ", or a fixed phrase when the answer cites nothing. The pattern is
    matched by a hand-written scanner rather than a regular-expression
    engine. */
module Evidence {
  import opened Text
  import opened Extraction

  const Fallback: string := "Based on document context"

  /** The characters a tag is made of. */
  predicate TagChar(c: char) {
    c == '[' || c == ']' || c == 'P' || c == '_' || IsDigit(c)
  }

  predicate DigitsIn(t: string, lo: nat, hi: nat)
    requires lo <= hi <= |t|
  {
    forall k :: lo <= k < hi ==> IsDigit(t[k])
  }

  /** `t` is `[[P`, one or more digits, `_` at position `u`, one or more
      digits, `]]`. */
  predicate TagShape(t: string, u: nat) {
    3 < u && u + 3 < |t| &&
    t[0] == '[' && t[1] == '[' && t[2] == 'P' &&
    DigitsIn(t, 3, u) && t[u] == '_' && DigitsIn(t, u + 1, |t| - 2) &&
    t[|t| - 2] == ']' && t[|t| - 1] == ']'
  }

  ghost predicate WellFormedTag(t: string) {
    exists u :: TagShape(t, u)
  }

  /** The end of the run of digits that starts at `i`. */
  function DigitRunEnd(s: string, i: nat): (r: nat)
    requires i <= |s|
    ensures i <= r <= |s|
    ensures DigitsIn(s, i, r)
    ensures r < |s| ==> !IsDigit(s[r])
    decreases |s| - i
  {
    if i < |s| && IsDigit(s[i]) then DigitRunEnd(s, i + 1) else i
  }

  lemma {:induction false} DigitRunEndAt(s: string, i: nat, n: nat)
    requires i <= n <= |s|
    requires DigitsIn(s, i, n)
    requires n < |s| ==> !IsDigit(s[n])
    ensures DigitRunEnd(s, i) == n
    decreases n - i
  {
    if i < n {
      DigitRunEndAt(s, i + 1, n);
    }
  }

  /** The length of the tag that `t` starts with, or 0 when it starts with
      none. The digit runs are greedy, which loses nothing: a digit can
      never stand where the pattern wants `_` or `]`. */
  function MatchLen(t: string): (n: nat)
    ensures n <= |t|
    ensures n > 0 ==> WellFormedTag(t[..n])
  {
    if 3 <= |t| && t[0] == '[' && t[1] == '[' && t[2] == 'P' then
      var u := DigitRunEnd(t, 3);
      if 3 < u < |t| && t[u] == '_' then
        var v := DigitRunEnd(t, u + 1);
        if u + 1 < v && v + 2 <= |t| && t[v] == ']' && t[v + 1] == ']' then
          assert TagShape(t[..v + 2], u);
          v + 2
        else 0
      else 0
    else 0
  }

  /** Python's `re.findall` for the tag pattern. */
  function Scan(t: string): (r: seq<string>)
    ensures forall k :: 0 <= k < |r| ==> WellFormedTag(r[k])
    decreases |t|
  {
    if t == [] then []
    else
      var n := MatchLen(t);
      if n > 0 then [t[..n]] + Scan(t[n..]) else Scan(t[1..])
  }

  /** Python's `", ".join`. */
  function Join(ts: seq<string>): string {
    if ts == [] then ""
    else if |ts| == 1 then ts[0]
    else ts[0] + (", " + Join(ts[1..]))
  }

  /** The evidence string reported with an answer. It cites exactly the
      tags the answer cites, in the same order, and is the fixed phrase
      exactly when the answer cites nothing. */
  function EvidenceOf(answer: string): (r: string)
    ensures Scan(r) == Scan(answer)
    ensures r == Fallback <==> Scan(answer) == []
  {
    var found := Scan(answer);
    FallbackHasNoTag();
    if found == [] then Fallback
    else
      ScanJoin(found);
      Join(found)
  }

  // ---------------------------------------------------------------------
  // Recognition

  /** A well-formed tag is matched whole, whatever follows it. */
  lemma WellFormedMatch(t: string, w: string)
    requires WellFormedTag(t)
    ensures MatchLen(t + w) == |t|
  {
    var u: nat :| TagShape(t, u);
    var s := t + w;
    assert forall k :: 0 <= k < |t| ==> s[k] == t[k];
    DigitRunEndAt(s, 3, u);
    DigitRunEndAt(s, u + 1, |t| - 2);
  }

  /** Scanning a text that starts with a well-formed tag reports that tag
      and goes on after it. */
  lemma ScanTagPrefix(t: string, w: string)
    requires WellFormedTag(t)
    ensures Scan(t + w) == [t] + Scan(w)
  {
    WellFormedMatch(t, w);
    assert (t + w)[..|t|] == t;
    assert (t + w)[|t|..] == w;
  }

  /** Every tag minted by the extractor has the scanned shape. */
  lemma MintedTagWellFormed(page: nat, index: nat)
    ensures WellFormedTag(Tag(page, index))
  {
    var t := Tag(page, index);
    var p, i := Dec(page), Dec(index);
    var u := 3 + |p|;
    assert t == "[[P" + p + "_" + i + "]]";
    assert forall k :: 3 <= k < u ==> t[k] == p[k - 3];
    assert forall k :: u + 1 <= k < |t| - 2 ==> t[k] == i[k - u - 1];
    assert TagShape(t, u);
  }

  /** Every tag minted by the extractor is found by the scanner, alone. */
  lemma MintedTagRecognised(page: nat, index: nat)
    ensures Scan(Tag(page, index)) == [Tag(page, index)]
  {
    MintedTagWellFormed(page, index);
    ScanTagPrefix(Tag(page, index), []);
    assert Tag(page, index) + [] == Tag(page, index);
  }

  // ---------------------------------------------------------------------
  // Locality: a character that cannot occur in a tag separates matches

  /** A match never reaches past a character that cannot occur in a tag. */
  lemma MatchLocal(a: string, b: string)
    requires b != [] ==> !TagChar(b[0])
    ensures MatchLen(a + b) == MatchLen(a)
  {
    if b == [] {
      assert a + b == a;
    } else {
      var s := a + b;
      assert forall k :: 0 <= k < |a| ==> s[k] == a[k];
      assert s[|a|] == b[0];
      if 3 <= |a| && a[0] == '[' && a[1] == '[' && a[2] == 'P' {
        var u := DigitRunEnd(a, 3);
        DigitRunEndAt(s, 3, u);
        if 3 < u < |a| && a[u] == '_' {
          var v := DigitRunEnd(a, u + 1);
          DigitRunEndAt(s, u + 1, v);
        }
      }
    }
  }

  /** Scanning splits before a character that cannot occur in a tag. */
  lemma {:induction false} ScanAppend(a: string, b: string)
    requires b != [] ==> !TagChar(b[0])
    ensures Scan(a + b) == Scan(a) + Scan(b)
    decreases |a|
  {
    if a == [] {
      assert a + b == b;
    } else {
      MatchLocal(a, b);
      var n := MatchLen(a);
      if n > 0 {
        AppendSlice(a, b, n);
        ScanAppend(a[n..], b);
      } else {
        AppendSlice(a, b, 1);
        ScanAppend(a[1..], b);
      }
    }
  }

  /** Scanning splits after a character that cannot occur in a tag. */
  lemma ScanAppendAfter(a: string, b: string)
    requires a != [] && !TagChar(a[|a| - 1])
    ensures Scan(a + b) == Scan(a) + Scan(b)
  {
    var n := |a| - 1;
    var a0, c := a[..n], [a[n]];
    assert a == a0 + c;
    assert a + b == a0 + (c + b);
    ScanAppend(a0, c + b);
    ScanSkip(c, b);
    assert Scan(a + b) == Scan(a0) + Scan(b);
    ScanAppend(a0, c);
    assert c + [] == c;
    ScanSkip(c, []);
    var head := Scan(a0);
    assert head + [] == head;
    assert Scan(a) == head;
  }

  /** Characters that cannot occur in a tag are skipped over. */
  lemma {:induction false} ScanSkip(a: string, b: string)
    requires forall k :: 0 <= k < |a| ==> !TagChar(a[k])
    ensures Scan(a + b) == Scan(b)
    decreases |a|
  {
    if a == [] {
      assert a + b == b;
    } else {
      assert (a + b)[1..] == a[1..] + b;
      ScanSkip(a[1..], b);
    }
  }

  // ---------------------------------------------------------------------
  // What the scanner finds: every tag in the text, and nothing else

  /** After its second character a tag holds no `[`. */
  lemma TagNoInnerBracket(t: string)
    requires WellFormedTag(t)
    ensures forall k :: 2 <= k < |t| ==> t[k] != '['
  {
    var u :| TagShape(t, u);
  }

  /** A match that starts before a `[[` ends before it. */
  lemma MatchStopsAtBrackets(a: string, c: string)
    requires a != [] && |c| >= 2 && c[0] == '[' && c[1] == '['
    ensures MatchLen(a + c) <= |a|
  {
    var s := a + c;
    var n := MatchLen(s);
    if |a| == 1 {
      assert s[2] == '[';
    } else if n > 0 {
      TagNoInnerBracket(s[..n]);
      assert s[|a|] == '[';
    }
  }

  predicate EndsWith<T(==)>(x: seq<T>, y: seq<T>) {
    |y| <= |x| && x[|x| - |y|..] == y
  }

  lemma EndsWithCons<T>(h: seq<T>, x: seq<T>, y: seq<T>)
    requires EndsWith(x, y)
    ensures EndsWith(h + x, y)
  {
    assert (h + x)[|h + x| - |y|..] == x[|x| - |y|..];
  }

  /** The scan of a text reaches every `[[` in it at the position where it
      stands: whatever comes before, the scan of the rest from there on ends
      the scan of the whole. */
  lemma {:induction false} ScanReaches(a: string, c: string)
    requires |c| >= 2 && c[0] == '[' && c[1] == '['
    ensures EndsWith(Scan(a + c), Scan(c))
    decreases |a|
  {
    if a == [] {
      assert a + c == c;
    } else {
      var s := a + c;
      MatchStopsAtBrackets(a, c);
      var n := MatchLen(s);
      var m := if n > 0 then n else 1;
      AppendSlice(a, c, m);
      ScanReaches(a[m..], c);
      var head := if n > 0 then [s[..n]] else [];
      assert Scan(s) == head + Scan(a[m..] + c);
      EndsWithCons(head, Scan(a[m..] + c), Scan(c));
    }
  }

  /** Every well-formed tag in a text is found, whatever surrounds it, and
      the scan goes on right after it. */
  lemma ScanFindsEvery(a: string, x: string, b: string)
    requires WellFormedTag(x)
    ensures EndsWith(Scan(a + x + b), [x] + Scan(b))
    ensures x in Scan(a + x + b)
  {
    var c := x + b;
    var u :| TagShape(x, u);
    assert c[0] == '[' && c[1] == '[';
    ScanReaches(a, c);
    ScanTagPrefix(x, b);
    assert a + x + b == a + c;
    var r := Scan(a + c);
    assert r[|r| - |Scan(c)|] == x;
  }

  /** `ps` places each string of `r` in `t`, left to right and without
      overlap. */
  predicate Occurrences(t: string, r: seq<string>, ps: seq<nat>) {
    |ps| == |r| &&
    (forall k :: 0 <= k < |r| ==> ps[k] + |r[k]| <= |t| && t[ps[k]..ps[k] + |r[k]|] == r[k]) &&
    (forall k :: 0 < k < |r| ==> ps[k - 1] + |r[k - 1]| <= ps[k])
  }

  function Shift(ps: seq<nat>, d: nat): seq<nat> {
    seq(|ps|, k requires 0 <= k < |ps| => ps[k] + d)
  }

  /** Occurrences in a suffix are occurrences in the whole text, moved on by
      the suffix's start. */
  lemma OccurrencesShift(t: string, m: nat, r: seq<string>, ps: seq<nat>)
    requires m <= |t| && Occurrences(t[m..], r, ps)
    ensures Occurrences(t, r, Shift(ps, m))
    ensures forall k :: 0 <= k < |ps| ==> m <= Shift(ps, m)[k]
  {
    var qs := Shift(ps, m);
    forall k | 0 <= k < |r|
      ensures qs[k] + |r[k]| <= |t| && t[qs[k]..qs[k] + |r[k]|] == r[k]
    {
      assert t[m..][ps[k]..ps[k] + |r[k]|] == t[qs[k]..qs[k] + |r[k]|];
    }
  }

  /** A match at the start, followed by occurrences after it. */
  lemma OccurrencesCons(t: string, n: nat, r: seq<string>, qs: seq<nat>)
    requires 0 < n <= |t| && Occurrences(t, r, qs)
    requires forall k :: 0 <= k < |qs| ==> n <= qs[k]
    ensures Occurrences(t, [t[..n]] + r, [0] + qs)
  {
    var r', qs' := [t[..n]] + r, [0] + qs;
    forall k | 0 < k < |r'|
      ensures qs'[k - 1] + |r'[k - 1]| <= qs'[k]
    {
      assert r'[k] == r[k - 1] && qs'[k] == qs[k - 1];
    }
  }

  /** Everything the scanner finds occurs in the text, in the order found
      and without overlap. */
  lemma {:induction false} ScanOccurrences(t: string)
    ensures exists ps :: Occurrences(t, Scan(t), ps)
    decreases |t|
  {
    if t == [] {
      var none: seq<nat> := [];
      assert Occurrences(t, Scan(t), none);
    } else {
      var n := MatchLen(t);
      var m := if n > 0 then n else 1;
      ScanOccurrences(t[m..]);
      var ps :| Occurrences(t[m..], Scan(t[m..]), ps);
      OccurrencesShift(t, m, Scan(t[m..]), ps);
      if n > 0 {
        OccurrencesCons(t, n, Scan(t[n..]), Shift(ps, n));
        assert Occurrences(t, Scan(t), [0] + Shift(ps, n));
      } else {
        assert Occurrences(t, Scan(t), Shift(ps, m));
      }
    }
  }

  /** A text without `[` contains no tag. */
  lemma {:induction false} ScanNoBracket(t: string)
    requires forall k :: 0 <= k < |t| ==> t[k] != '['
    ensures Scan(t) == []
    decreases |t|
  {
    if t != [] {
      ScanNoBracket(t[1..]);
    }
  }

  // ---------------------------------------------------------------------
  // Evidence strings

  /** Joining tags and scanning the result gives the tags back. */
  lemma {:induction false} ScanJoin(ts: seq<string>)
    requires forall k :: 0 <= k < |ts| ==> WellFormedTag(ts[k])
    ensures Scan(Join(ts)) == ts
  {
    if |ts| == 1 {
      ScanTagPrefix(ts[0], []);
      assert ts[0] + [] == ts[0];
    } else if |ts| > 1 {
      var rest := Join(ts[1..]);
      assert Join(ts) == ts[0] + (", " + rest);
      assert Scan(", " + rest) == ts[1..] by {
        ScanSkip(", ", rest);
        ScanJoin(ts[1..]);
      }
      assert Scan(ts[0] + (", " + rest)) == [ts[0]] + ts[1..] by {
        ScanTagPrefix(ts[0], ", " + rest);
      }
      assert [ts[0]] + ts[1..] == ts;
    }
  }

  lemma FallbackHasNoTag()
    ensures Scan(Fallback) == []
  {
    ScanNoBracket(Fallback);
  }

  // ---------------------------------------------------------------------
  // The tagged text

  /** The tags of a list of segments, in order. */
  function TagsOf(ss: seq<Segment>): (r: seq<string>)
    ensures |r| == |ss|
    ensures forall k :: 0 <= k < |ss| ==> r[k] == TagOf(ss[k])
  {
    if ss == [] then [] else TagsOf(ss[..|ss| - 1]) + [TagOf(ss[|ss| - 1])]
  }

  /** The part of a line after its tag scans as the segment's text. */
  lemma ScanLineRest(text: string)
    ensures Scan(" " + text + "\n\n") == Scan(text)
  {
    assert " " + text + "\n\n" == " " + (text + "\n\n");
    ScanSkip(" ", text + "\n\n");
    ScanAppend(text, "\n\n");
    ScanNoBracket("\n\n");
  }

  /** One line of tagged text scans as its tag when its text cites nothing. */
  lemma ScanLine(s: Segment)
    requires Scan(s.text) == []
    ensures Scan(Line(s)) == [TagOf(s)]
  {
    var t := TagOf(s);
    var w := " " + s.text + "\n\n";
    assert Line(s) == t + w;
    MintedTagWellFormed(s.page, s.index);
    ScanTagPrefix(t, w);
    ScanLineRest(s.text);
  }

  /** A non-empty tagged text ends with a line break. */
  lemma RenderEnd(ss: seq<Segment>)
    requires ss != []
    ensures Render(ss) != [] && Render(ss)[|Render(ss)| - 1] == '\n'
  {
    var n := |ss| - 1;
    var l := Line(ss[n]);
    assert Render(ss) == Render(ss[..n]) + l;
    assert l[|l| - 1] == '\n';
  }

  /** Scanning a tagged text whose segments cite nothing themselves finds
      exactly the segments' tags, in order. */
  lemma {:induction false} ScanTaggedText(ss: seq<Segment>)
    requires forall k :: 0 <= k < |ss| ==> Scan(ss[k].text) == []
    ensures Scan(Render(ss)) == TagsOf(ss)
  {
    if ss != [] {
      var n := |ss| - 1;
      var prev := Render(ss[..n]);
      assert Render(ss) == prev + Line(ss[n]);
      ScanTaggedText(ss[..n]);
      ScanLine(ss[n]);
      if n == 0 {
        assert prev + Line(ss[n]) == Line(ss[n]);
      } else {
        RenderEnd(ss[..n]);
        ScanAppendAfter(prev, Line(ss[n]));
      }
    }
  }

  predicate NoTagChars(s: string) {
    forall k :: 0 <= k < |s| ==> !TagChar(s[k])
  }

  lemma Regroup<T>(a: seq<T>, b: seq<T>, c: seq<T>, d: seq<T>, e: seq<T>)
    ensures a + b + c + d + e == a + (b + (c + (d + e)))
  {
  }

  /** Two tags in running text, with no tag characters around them, are
      found in order. */
  lemma ScanTwoTags(pre: string, x: string, mid: string, y: string, post: string)
    requires NoTagChars(pre) && NoTagChars(mid) && NoTagChars(post)
    requires WellFormedTag(x) && WellFormedTag(y)
    ensures Scan(pre + x + mid + y + post) == [x, y]
  {
    assert Scan(y + post) == [y] by {
      assert post + [] == post;
      ScanSkip(post, []);
      ScanTagPrefix(y, post);
    }
    var tail := mid + (y + post);
    assert Scan(tail) == [y] by {
      ScanSkip(mid, y + post);
    }
    assert Scan(x + tail) == [x, y] by {
      ScanTagPrefix(x, tail);
    }
    assert Scan(pre + (x + tail)) == [x, y] by {
      ScanSkip(pre, x + tail);
    }
    Regroup(pre, x, mid, y, post);
  }

  lemma ScanExample()
    ensures Scan("See [[P1_0]] and [[P2_5]].") == ["[[P1_0]]", "[[P2_5]]"]
  {
    assert "See [[P1_0]] and [[P2_5]]." == "See " + "[[P1_0]]" + " and " + "[[P2_5]]" + ".";
    assert TagShape("[[P1_0]]", 4);
    assert TagShape("[[P2_5]]", 4);
    ScanTwoTags("See ", "[[P1_0]]", " and ", "[[P2_5]]", ".");
  }

  lemma EvidenceExample(answer: string)
    requires answer == "See [[P1_0]] and [[P2_5]]."
    ensures EvidenceOf(answer) == "[[P1_0]]" + ", " + "[[P2_5]]"
  {
    ScanExample();
    assert Scan(answer) == ["[[P1_0]]", "[[P2_5]]"];
    JoinPair("[[P1_0]]", "[[P2_5]]");
  }

  lemma JoinPair(x: string, y: string)
    ensures Join([x, y]) == x + ", " + y
  {
    assert [x, y][1..] == [y];
  }

  lemma FallbackExample()
    ensures EvidenceOf("No tags here") == Fallback
  {
    ScanNoBracket("No tags here");
  }
}
