/** Block tagging (`extract_and_tag_pdf` in app.py). The PDF parser's output
    is taken as given: a document is a sequence of pages, a page the sequence
    of layout blocks the parser reports for it, in its order. Every text block
    whose stripped text is non-empty becomes a segment `[[P<page>_<i>]] text`
    of the tagged text and an entry `tag -> text` of the source map, where
    `<page>` is 1-based and `<i>` is the block's position in the page's
    unfiltered block list. */
module Extraction {
  import opened Text

  /** One layout block: its block type (0 is text; images and drawings
      have other types) and its raw text. */
  datatype Block = Block(kind: int, text: string)

  type Page = seq<Block>

  /** A kept block: 1-based page number, position in the unfiltered block
      list of its page, and stripped text. */
  datatype Segment = Segment(page: nat, index: nat, text: string)

  /** The identifier minted for block `index` of page `page`. */
  function Tag(page: nat, index: nat): string {
    "[[P" + Dec(page) + "_" + Dec(index) + "]]"
  }

  function TagOf(s: Segment): string {
    Tag(s.page, s.index)
  }

  /** Two blocks share a tag only if they share page and index. */
  lemma TagInjective(p1: nat, i1: nat, p2: nat, i2: nat)
    requires Tag(p1, i1) == Tag(p2, i2)
    ensures p1 == p2 && i1 == i2
  {
    var x1, y1, x2, y2 := Dec(p1), Dec(i1), Dec(p2), Dec(i2);
    TagPartsEqual(x1, y1, x2, y2);
  }

  /** The digits of a tag are determined by the tag: its page digits end at
      the first `_`, its index digits at the closing brackets. */
  lemma TagPartsEqual(x1: string, y1: string, x2: string, y2: string)
    requires AllDigits(x1) && AllDigits(x2)
    requires "[[P" + x1 + "_" + y1 + "]]" == "[[P" + x2 + "_" + y2 + "]]"
    ensures x1 == x2 && y1 == y2
  {
    var t := "[[P" + x1 + "_" + y1 + "]]";
    assert forall k :: 0 <= k < |x1| ==> t[3 + k] == x1[k];
    assert forall k :: 0 <= k < |x2| ==> t[3 + k] == x2[k];
    assert t[3 + |x1|] == '_' && t[3 + |x2|] == '_';
    if |x1| < |x2| {
      assert false;
    } else if |x2| < |x1| {
      assert false;
    }
    assert x1 == t[3..3 + |x1|] == x2;
    assert |y1| == |t| - 6 - |x1| == |y2|;
    assert y1 == t[4 + |x1|..4 + |x1| + |y1|] == y2;
  }

  /** A block is kept iff it is a text block whose stripped text is non-empty. */
  predicate Kept(b: Block) {
    b.kind == 0 && Trim(b.text) != ""
  }

  /** Segments appear in page-then-block order. */
  predicate Before(a: Segment, b: Segment) {
    a.page < b.page || (a.page == b.page && a.index < b.index)
  }

  predicate Ordered(ss: seq<Segment>) {
    forall j, k :: 0 <= j < k < |ss| ==> Before(ss[j], ss[k])
  }

  /** The segment a kept block yields. */
  function SegmentOf(pageNum: nat, index: nat, b: Block): Segment {
    Segment(pageNum, index, Trim(b.text))
  }

  /** The segments of one page (1-based number `pageNum`), in block order. */
  function PageSegments(pageNum: nat, blocks: Page): seq<Segment> {
    if blocks == [] then []
    else
      var n := |blocks| - 1;
      PageSegments(pageNum, blocks[..n])
        + (if Kept(blocks[n]) then [SegmentOf(pageNum, n, blocks[n])] else [])
  }

  /** Each segment of a page comes from a kept block of that page, and the
      segments follow the block order. */
  lemma {:induction false} PageSegmentsSound(pageNum: nat, blocks: Page)
    ensures forall k :: 0 <= k < |PageSegments(pageNum, blocks)| ==>
      var s := PageSegments(pageNum, blocks)[k];
      s.page == pageNum && s.index < |blocks| && Kept(blocks[s.index]) &&
      s == SegmentOf(pageNum, s.index, blocks[s.index])
    ensures forall j, k :: 0 <= j < k < |PageSegments(pageNum, blocks)| ==>
      PageSegments(pageNum, blocks)[j].index < PageSegments(pageNum, blocks)[k].index
  {
    if blocks != [] {
      var n := |blocks| - 1;
      PageSegmentsSound(pageNum, blocks[..n]);
      var before := PageSegments(pageNum, blocks[..n]);
      forall k | 0 <= k < |before|
        ensures blocks[..n][before[k].index] == blocks[before[k].index]
      {
      }
    }
  }

  /** The segments of a whole document, page after page. */
  function Segments(pages: seq<Page>): seq<Segment> {
    if pages == [] then []
    else Segments(pages[..|pages| - 1]) + PageSegments(|pages|, pages[|pages| - 1])
  }

  /** Every segment comes from a kept block and carries its 1-based page,
      its unfiltered index and its stripped text. */
  predicate FromKeptBlock(pages: seq<Page>, s: Segment) {
    1 <= s.page <= |pages| && s.index < |pages[s.page - 1]| &&
    Kept(pages[s.page - 1][s.index]) &&
    s == SegmentOf(s.page, s.index, pages[s.page - 1][s.index])
  }

  /** Every segment of a document comes from a kept block and carries its
      1-based page, its unfiltered index and its stripped text. */
  lemma {:induction false} SegmentsSound(pages: seq<Page>)
    ensures forall k :: 0 <= k < |Segments(pages)| ==> FromKeptBlock(pages, Segments(pages)[k])
  {
    if pages != [] {
      var n := |pages| - 1;
      var before := Segments(pages[..n]);
      var last := PageSegments(n + 1, pages[n]);
      assert Segments(pages) == before + last;
      SegmentsSound(pages[..n]);
      PageSegmentsSound(n + 1, pages[n]);
      forall k | 0 <= k < |before| + |last|
        ensures FromKeptBlock(pages, (before + last)[k])
      {
        if k < |before| {
          assert FromKeptBlock(pages[..n], before[k]);
          assert pages[..n][before[k].page - 1] == pages[before[k].page - 1];
        } else {
          assert (before + last)[k] == last[k - |before|];
        }
      }
    }
  }

  /** Segments appear in page-then-block order. */
  lemma {:induction false} SegmentsOrdered(pages: seq<Page>)
    ensures Ordered(Segments(pages))
    ensures forall k :: 0 <= k < |Segments(pages)| ==> Segments(pages)[k].page <= |pages|
  {
    if pages != [] {
      var n := |pages| - 1;
      var before := Segments(pages[..n]);
      var last := PageSegments(n + 1, pages[n]);
      var r := before + last;
      assert Segments(pages) == r;
      SegmentsOrdered(pages[..n]);
      PageSegmentsSound(n + 1, pages[n]);
      forall j, k | 0 <= j < k < |r|
        ensures Before(r[j], r[k])
      {
        if k < |before| {
          assert Before(before[j], before[k]);
        } else if j < |before| {
          assert r[j].page <= n && r[k] == last[k - |before|];
        } else {
          assert r[j] == last[j - |before|] && r[k] == last[k - |before|];
        }
      }
      forall k | 0 <= k < |r|
        ensures r[k].page <= |pages|
      {
        if k >= |before| {
          assert r[k] == last[k - |before|];
        }
      }
    }
  }

  /** Every kept block yields a segment (the converse of Segments' contract). */
  lemma {:induction false} SegmentsComplete(pages: seq<Page>, p: nat, i: nat)
    requires p < |pages| && i < |pages[p]| && Kept(pages[p][i])
    ensures SegmentOf(p + 1, i, pages[p][i]) in Segments(pages)
  {
    var n := |pages| - 1;
    assert Segments(pages) == Segments(pages[..n]) + PageSegments(n + 1, pages[n]);
    if p < n {
      assert pages[..n][p] == pages[p];
      SegmentsComplete(pages[..n], p, i);
    } else {
      PageSegmentsComplete(n + 1, pages[n], i);
    }
  }

  lemma {:induction false} PageSegmentsComplete(pageNum: nat, blocks: Page, i: nat)
    requires i < |blocks| && Kept(blocks[i])
    ensures SegmentOf(pageNum, i, blocks[i]) in PageSegments(pageNum, blocks)
  {
    var n := |blocks| - 1;
    if i < n {
      assert blocks[..n][i] == blocks[i];
      PageSegmentsComplete(pageNum, blocks[..n], i);
    }
  }

  /** A block yields a segment exactly when it is kept: kind 0 and a
      non-empty stripped text. Skipped blocks still occupy their index. */
  lemma SegmentIffKept(pages: seq<Page>, p: nat, i: nat, text: string)
    requires p < |pages| && i < |pages[p]|
    ensures Segment(p + 1, i, text) in Segments(pages)
        <==> Kept(pages[p][i]) && text == Trim(pages[p][i].text)
  {
    if Kept(pages[p][i]) {
      SegmentsComplete(pages, p, i);
    }
    SegmentsSound(pages);
    if Segment(p + 1, i, text) in Segments(pages) {
      var k :| 0 <= k < |Segments(pages)| && Segments(pages)[k] == Segment(p + 1, i, text);
      assert FromKeptBlock(pages, Segments(pages)[k]);
    }
  }

  // ---------------------------------------------------------------------
  // The two outputs

  /** One segment of the tagged text: `tag + " " + text + "\n\n"`. */
  function Line(s: Segment): string {
    TagOf(s) + " " + s.text + "\n\n"
  }

  /** The tagged text for a list of segments, in their order. */
  function Render(ss: seq<Segment>): string {
    if ss == [] then "" else Render(ss[..|ss| - 1]) + Line(ss[|ss| - 1])
  }

  /** The entries written into the source map, in writing order. */
  function Entries(ss: seq<Segment>): (r: seq<(string, string)>)
    ensures |r| == |ss|
    ensures forall k :: 0 <= k < |ss| ==> r[k] == (TagOf(ss[k]), ss[k].text)
  {
    if ss == [] then [] else Entries(ss[..|ss| - 1]) + [(TagOf(ss[|ss| - 1]), ss[|ss| - 1].text)]
  }

  /** The dictionary obtained by writing each `key -> value` pair in turn
      into an empty one. */
  function Assign<K, V>(pairs: seq<(K, V)>): map<K, V> {
    if pairs == [] then map[] else Assign(pairs[..|pairs| - 1])[pairs[|pairs| - 1].0 := pairs[|pairs| - 1].1]
  }

  /** The source map built by writing `tag -> text` for each segment in turn. */
  function SourceMap(ss: seq<Segment>): map<string, string> {
    Assign(Entries(ss))
  }

  predicate DistinctKeys<K(==), V>(pairs: seq<(K, V)>) {
    forall j, k :: 0 <= j < k < |pairs| ==> pairs[j].0 != pairs[k].0
  }

  /** The keys of the dictionary are exactly the keys written. */
  lemma {:induction false} AssignKeys<K, V>(pairs: seq<(K, V)>)
    ensures Assign(pairs).Keys == set k | 0 <= k < |pairs| :: pairs[k].0
  {
    if pairs != [] {
      var n := |pairs| - 1;
      var prev := pairs[..n];
      AssignKeys(prev);
      var before := set k | 0 <= k < n :: prev[k].0;
      var after := set k | 0 <= k < |pairs| :: pairs[k].0;
      assert Assign(pairs).Keys == before + {pairs[n].0};
      forall x | x in before
        ensures x in after
      {
        var k :| 0 <= k < n && prev[k].0 == x;
        assert pairs[k].0 == x;
      }
      forall x | x in after
        ensures x in before + {pairs[n].0}
      {
        var k :| 0 <= k < |pairs| && pairs[k].0 == x;
        if k < n {
          assert prev[k].0 == x;
        }
      }
    }
  }

  /** Writing pairs with distinct keys never overwrites: the dictionary has
      one entry per pair and maps each key to its own value. */
  lemma {:induction false} AssignDistinct<K, V>(pairs: seq<(K, V)>)
    requires DistinctKeys(pairs)
    ensures |Assign(pairs)| == |pairs|
    ensures forall k :: 0 <= k < |pairs| ==> pairs[k].0 in Assign(pairs) && Assign(pairs)[pairs[k].0] == pairs[k].1
  {
    if pairs != [] {
      var n := |pairs| - 1;
      var prev := pairs[..n];
      assert DistinctKeys(prev);
      AssignDistinct(prev);
      assert Assign(pairs) == Assign(prev)[pairs[n].0 := pairs[n].1];
      assert pairs[n].0 !in Assign(prev) by {
        AssignKeys(prev);
      }
      forall k | 0 <= k < |pairs|
        ensures pairs[k].0 in Assign(pairs) && Assign(pairs)[pairs[k].0] == pairs[k].1
      {
        if k < n {
          assert prev[k] == pairs[k];
        }
      }
    }
  }

  /** The tagged text of a concatenation is the concatenation of the tagged
      texts. */
  lemma {:induction false} RenderAppend(a: seq<Segment>, b: seq<Segment>)
    ensures Render(a + b) == Render(a) + Render(b)
    decreases |b|
  {
    if b == [] {
      assert a + b == a;
    } else {
      RenderAppend(a, b[..|b| - 1]);
      RenderAppendStep(a, b);
    }
  }

  lemma RenderAppendStep(a: seq<Segment>, b: seq<Segment>)
    requires b != []
    requires Render(a + b[..|b| - 1]) == Render(a) + Render(b[..|b| - 1])
    ensures Render(a + b) == Render(a) + Render(b)
  {
    var n := |b| - 1;
    var init := a + b[..n];
    AppendSnoc(a, b);
    var ra, rb, l := Render(a), Render(b[..n]), Line(b[n]);
    assert Render(a + b) == Render(init) + l by {
      RenderSnoc(init, b[n]);
    }
    assert Render(b) == rb + l;
    Assoc(ra, rb, l);
  }

  predicate DistinctTags(ss: seq<Segment>) {
    forall j, k :: 0 <= j < k < |ss| ==> TagOf(ss[j]) != TagOf(ss[k])
  }

  /** No two segments of a document share a tag. */
  lemma TagsDistinct(pages: seq<Page>)
    ensures DistinctTags(Segments(pages))
  {
    var ss := Segments(pages);
    SegmentsOrdered(pages);
    forall j, k | 0 <= j < k < |ss|
      ensures TagOf(ss[j]) != TagOf(ss[k])
    {
      assert Before(ss[j], ss[k]);
      if TagOf(ss[j]) == TagOf(ss[k]) {
        TagInjective(ss[j].page, ss[j].index, ss[k].page, ss[k].index);
      }
    }
  }

  /** The keys written for a list of segments are their tags. */
  lemma EntryKeys(ss: seq<Segment>)
    ensures (set k | 0 <= k < |Entries(ss)| :: Entries(ss)[k].0) == set k | 0 <= k < |ss| :: TagOf(ss[k])
  {
    var es := Entries(ss);
    forall k | 0 <= k < |ss|
      ensures es[k].0 == TagOf(ss[k])
    {
    }
  }

  /** Segments with distinct tags give a source map with one entry per
      segment, keyed by exactly their tags, each mapped to its text. */
  lemma SourceMapDistinct(ss: seq<Segment>)
    requires DistinctTags(ss)
    ensures |SourceMap(ss)| == |ss|
    ensures SourceMap(ss).Keys == set k | 0 <= k < |ss| :: TagOf(ss[k])
    ensures forall k :: 0 <= k < |ss| ==> TagOf(ss[k]) in SourceMap(ss) && SourceMap(ss)[TagOf(ss[k])] == ss[k].text
  {
    var es := Entries(ss);
    assert DistinctKeys(es) by {
      forall j, k | 0 <= j < k < |es|
        ensures es[j].0 != es[k].0
      {
        assert es[j].0 == TagOf(ss[j]) && es[k].0 == TagOf(ss[k]);
      }
    }
    AssignDistinct(es);
    AssignKeys(es);
    EntryKeys(ss);
    forall k | 0 <= k < |ss|
      ensures TagOf(ss[k]) in SourceMap(ss) && SourceMap(ss)[TagOf(ss[k])] == ss[k].text
    {
      assert es[k] == (TagOf(ss[k]), ss[k].text);
    }
  }

  /** Each key of the source map of segments with distinct tags is the tag
      of one of them and maps to its text. */
  lemma SourceMapKeyIsSegment(ss: seq<Segment>, t: string)
    requires DistinctTags(ss) && t in SourceMap(ss)
    ensures exists j :: 0 <= j < |ss| && TagOf(ss[j]) == t && SourceMap(ss)[t] == ss[j].text
  {
    SourceMapDistinct(ss);
    assert t in SourceMap(ss).Keys;
    var j :| 0 <= j < |ss| && TagOf(ss[j]) == t;
    assert SourceMap(ss)[TagOf(ss[j])] == ss[j].text;
  }

  /** The document's source map: no write overwrites an earlier one, so it
      has one entry per segment of the tagged text, its keys are exactly the
      segments' tags, and each tag maps to its segment's stripped text. */
  lemma DocumentSourceMap(pages: seq<Page>)
    ensures var ss := Segments(pages);
      |SourceMap(ss)| == |ss| &&
      SourceMap(ss).Keys == (set k | 0 <= k < |ss| :: TagOf(ss[k])) &&
      (forall k :: 0 <= k < |ss| ==> TagOf(ss[k]) in SourceMap(ss) && SourceMap(ss)[TagOf(ss[k])] == ss[k].text)
  {
    TagsDistinct(pages);
    SourceMapDistinct(Segments(pages));
  }

  lemma RenderSnoc(ss: seq<Segment>, s: Segment)
    ensures Render(ss + [s]) == Render(ss) + Line(s)
  {
    assert (ss + [s])[..|ss|] == ss;
  }

  lemma SourceMapSnoc(ss: seq<Segment>, s: Segment)
    ensures SourceMap(ss + [s]) == SourceMap(ss)[TagOf(s) := s.text]
  {
    assert (ss + [s])[..|ss|] == ss;
    var es := Entries(ss);
    assert Entries(ss + [s]) == es + [(TagOf(s), s.text)];
    assert (es + [(TagOf(s), s.text)])[..|es|] == es;
  }

  lemma SplitAt<T>(xs: seq<T>, k: nat)
    requires k < |xs|
    ensures xs == xs[..k] + [xs[k]] + xs[k + 1..]
  {
    assert xs[..k + 1] == xs[..k] + [xs[k]];
    assert xs == xs[..k + 1] + xs[k + 1..];
  }

  /** The tagged text splits around any one of its segments. */
  lemma RenderAt(ss: seq<Segment>, k: nat)
    requires k < |ss|
    ensures Render(ss) == Render(ss[..k]) + Line(ss[k]) + Render(ss[k + 1..])
  {
    SplitAt(ss, k);
    RenderAppend(ss[..k] + [ss[k]], ss[k + 1..]);
    RenderSnoc(ss[..k], ss[k]);
  }

  /** Round trip: each tag in the tagged text is followed by a space and the
      text the source map gives for that tag. */
  lemma TaggedTextRoundTrip(pages: seq<Page>, k: nat)
    requires k < |Segments(pages)|
    ensures var ss := Segments(pages);
      TagOf(ss[k]) in SourceMap(ss) &&
      Render(ss) == Render(ss[..k]) + (TagOf(ss[k]) + " " + SourceMap(ss)[TagOf(ss[k])] + "\n\n")
                    + Render(ss[k + 1..])
  {
    var ss := Segments(pages);
    assert TagOf(ss[k]) in SourceMap(ss) && SourceMap(ss)[TagOf(ss[k])] == ss[k].text by {
      DocumentSourceMap(pages);
    }
    RenderAt(ss, k);
  }

  // ---------------------------------------------------------------------
  // The extraction loop

  lemma PrefixStep<T>(xs: seq<T>, i: nat)
    requires i < |xs|
    ensures xs[..i + 1] == xs[..i] + [xs[i]]
    ensures xs[..i + 1][..i] == xs[..i]
  {
  }

  /** One more page: the document's segments grow by that page's segments. */
  lemma SegmentsStep(pages: seq<Page>, n: nat)
    requires n < |pages|
    ensures Segments(pages[..n + 1]) == Segments(pages[..n]) + PageSegments(n + 1, pages[n])
  {
    PrefixStep(pages, n);
  }

  /** One more block: the page's segments grow by at most that block's segment. */
  lemma PageSegmentsStep(done: seq<Segment>, pageNum: nat, blocks: Page, i: nat)
    requires i < |blocks|
    ensures done + PageSegments(pageNum, blocks[..i + 1])
         == done + PageSegments(pageNum, blocks[..i])
            + (if Kept(blocks[i]) then [SegmentOf(pageNum, i, blocks[i])] else [])
  {
    PrefixStep(blocks, i);
  }

  /** A kept block adds its segment: its line to the tagged text and its
      entry to the source map. */
  lemma KeptStep(segs: seq<Segment>, done: seq<Segment>, pageNum: nat, blocks: Page, i: nat)
    requires i < |blocks| && Kept(blocks[i])
    requires segs == done + PageSegments(pageNum, blocks[..i])
    ensures var seg := SegmentOf(pageNum, i, blocks[i]);
      done + PageSegments(pageNum, blocks[..i + 1]) == segs + [seg] &&
      Render(segs + [seg]) == Render(segs) + (Tag(pageNum, i) + " " + Trim(blocks[i].text) + "\n\n") &&
      SourceMap(segs + [seg]) == SourceMap(segs)[Tag(pageNum, i) := Trim(blocks[i].text)]
  {
    var seg := SegmentOf(pageNum, i, blocks[i]);
    PageSegmentsStep(done, pageNum, blocks, i);
    RenderSnoc(segs, seg);
    SourceMapSnoc(segs, seg);
  }

  /** A skipped block adds nothing. */
  lemma SkippedStep(done: seq<Segment>, pageNum: nat, blocks: Page, i: nat)
    requires i < |blocks| && !Kept(blocks[i])
    ensures done + PageSegments(pageNum, blocks[..i + 1]) == done + PageSegments(pageNum, blocks[..i])
  {
    PageSegmentsStep(done, pageNum, blocks, i);
  }

  /** Walks the pages and their blocks, appending each kept block's segment
      to the tagged text and writing its tag into the source map. */
  method ExtractAndTag(pages: seq<Page>) returns (taggedText: string, sourceMap: map<string, string>)
    ensures taggedText == Render(Segments(pages))
    ensures sourceMap == SourceMap(Segments(pages))
  {
    taggedText := "";
    sourceMap := map[];
    ghost var segs: seq<Segment> := [];
    var pageIndex := 0;
    while pageIndex < |pages|
      invariant 0 <= pageIndex <= |pages|
      invariant segs == Segments(pages[..pageIndex])
      invariant taggedText == Render(segs) && sourceMap == SourceMap(segs)
    {
      var pageNum := pageIndex + 1;
      var blocks := pages[pageIndex];
      ghost var done := segs;
      var i := 0;
      assert blocks[..i] == [];
      assert segs == done + PageSegments(pageNum, blocks[..i]);
      while i < |blocks|
        invariant 0 <= i <= |blocks|
        invariant segs == done + PageSegments(pageNum, blocks[..i])
        invariant taggedText == Render(segs) && sourceMap == SourceMap(segs)
      {
        if blocks[i].kind == 0 {
          var text := Trim(blocks[i].text);
          if text != "" {
            var tag := Tag(pageNum, i);
            KeptStep(segs, done, pageNum, blocks, i);
            sourceMap := sourceMap[tag := text];
            taggedText := taggedText + (tag + " " + text + "\n\n");
            segs := segs + [SegmentOf(pageNum, i, blocks[i])];
          } else {
            SkippedStep(done, pageNum, blocks, i);
          }
        } else {
          SkippedStep(done, pageNum, blocks, i);
        }
        i := i + 1;
      }
      SegmentsStep(pages, pageIndex);
      assert blocks[..i] == blocks;
      pageIndex := pageIndex + 1;
    }
    assert pages[..pageIndex] == pages;
  }

  /** A page whose only block is kept yields that block's segment. */
  lemma SingleBlockPage(pageNum: nat, b: Block)
    requires Kept(b)
    ensures PageSegments(pageNum, [b]) == [SegmentOf(pageNum, 0, b)]
  {
    assert [b][..0] == [];
  }

  /** A two-page document's segments are its pages' segments, numbered 1
      and 2. */
  lemma TwoPages(p0: Page, p1: Page)
    ensures Segments([p0, p1]) == PageSegments(1, p0) + PageSegments(2, p1)
  {
    assert [p0, p1][..1] == [p0];
    assert [p0][..0] == [];
    assert Segments([p0]) == [] + PageSegments(1, p0);
  }

  /** Two segments render as their two lines. */
  lemma RenderPair(s1: Segment, s2: Segment)
    ensures Render([s1, s2]) == Line(s1) + Line(s2)
  {
    assert [s1, s2][..1] == [s1];
    assert [s1][..0] == [];
    assert Render([s1]) == "" + Line(s1);
  }

  lemma TwoPageSegments()
    ensures Segments([[Block(0, "Alpha.")], [Block(0, "Beta.")]])
         == [Segment(1, 0, "Alpha."), Segment(2, 0, "Beta.")]
  {
    var a, b := Block(0, "Alpha."), Block(0, "Beta.");
    TrimOf([], a.text, []);
    assert [] + a.text + [] == a.text;
    TrimOf([], b.text, []);
    assert [] + b.text + [] == b.text;
    SingleBlockPage(1, a);
    SingleBlockPage(2, b);
    TwoPages([a], [b]);
  }

  lemma TwoPageTags()
    ensures Tag(1, 0) == "[[P1_0]]" && Tag(2, 0) == "[[P2_0]]"
  {
    assert Dec(0) == "0" && Dec(1) == "1" && Dec(2) == "2";
  }

  lemma TwoPageLines()
    ensures Line(Segment(1, 0, "Alpha.")) == "[[P1_0]] Alpha.\n\n"
    ensures Line(Segment(2, 0, "Beta.")) == "[[P2_0]] Beta.\n\n"
  {
    TwoPageTags();
  }

  /** The worked example of a two-page document with one text block per
      page: the tagged text. */
  lemma TwoPageText()
    ensures Render(Segments([[Block(0, "Alpha.")], [Block(0, "Beta.")]]))
         == "[[P1_0]] Alpha.\n\n" + "[[P2_0]] Beta.\n\n"
  {
    var alpha, beta := Segment(1, 0, "Alpha."), Segment(2, 0, "Beta.");
    TwoPageSegments();
    TwoPageLines();
    RenderPair(alpha, beta);
  }

  /** The same document's source map. */
  lemma TwoPageSourceMap()
    ensures SourceMap(Segments([[Block(0, "Alpha.")], [Block(0, "Beta.")]]))
         == map["[[P1_0]]" := "Alpha.", "[[P2_0]]" := "Beta."]
  {
    var alpha, beta := Segment(1, 0, "Alpha."), Segment(2, 0, "Beta.");
    TwoPageSegments();
    TwoPageTags();
    assert [alpha, beta] == [alpha] + [beta] && [alpha] == [] + [alpha];
    SourceMapSnoc([alpha], beta);
    SourceMapSnoc([], alpha);
  }

  /** A page of two skipped blocks and then a kept one yields only the kept
      block's segment, with index 2. */
  lemma SkipSkipKeep(pageNum: nat, b0: Block, b1: Block, b2: Block)
    requires !Kept(b0) && !Kept(b1) && Kept(b2)
    ensures PageSegments(pageNum, [b0, b1, b2]) == [SegmentOf(pageNum, 2, b2)]
  {
    var blocks := [b0, b1, b2];
    assert blocks[..2] == [b0, b1] && [b0, b1][..1] == [b0] && [b0][..0] == [];
    assert PageSegments(pageNum, [b0]) == [];
    assert PageSegments(pageNum, [b0, b1]) == [];
  }

  /** A one-page document's segments are its page's segments. */
  lemma OnePage(p: Page)
    ensures Segments([p]) == PageSegments(1, p)
  {
    assert [p][..0] == [];
    assert Segments([p]) == [] + PageSegments(1, p);
  }

  /** Skipped blocks still consume an index: on a page holding an image, a
      blank text block and a text block, the text block is tagged `_2`. */
  lemma UnfilteredIndexExample()
    ensures Segments([[Block(1, "figure"), Block(0, " \n"), Block(0, " Gamma ")]])
         == [Segment(1, 2, "Gamma")]
  {
    var b0, b1, b2 := Block(1, "figure"), Block(0, " \n"), Block(0, " Gamma ");
    TrimOf(" ", "Gamma", " ");
    assert " " + "Gamma" + " " == b2.text;
    TrimAllSpace(b1.text);
    SkipSkipKeep(1, b0, b1, b2);
    OnePage([b0, b1, b2]);
  }
}
