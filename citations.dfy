/** Citation resolution in the dashboard: a key point cites source tags, the
    ones that are keys of the source map are shown with the text they name,
    the others are dropped, and a point citing nothing shows "NO SOURCE". */
module Citations {
  import opened Text
  import opened Extraction

  /** The cited ids that the source map knows, in citation order. */
  function ValidSources(ids: seq<string>, sourceMap: map<string, string>): (r: seq<string>)
    ensures |r| <= |ids|
    ensures forall x :: x in r <==> x in ids && x in sourceMap
  {
    if ids == [] then []
    else
      var last := ids[|ids| - 1];
      assert forall x :: x in ids <==> x in ids[..|ids| - 1] || x == last;
      ValidSources(ids[..|ids| - 1], sourceMap) + (if last in sourceMap then [last] else [])
  }

  /** Filtering keeps the citation order: it distributes over concatenation. */
  lemma {:induction false} ValidSourcesAppend(a: seq<string>, b: seq<string>, sourceMap: map<string, string>)
    ensures ValidSources(a + b, sourceMap) == ValidSources(a, sourceMap) + ValidSources(b, sourceMap)
    decreases |b|
  {
    if b == [] {
      assert a + b == a;
    } else {
      ValidSourcesAppend(a, b[..|b| - 1], sourceMap);
      ValidSourcesAppendStep(a, b, sourceMap);
    }
  }

  lemma ValidSourcesAppendStep(a: seq<string>, b: seq<string>, sourceMap: map<string, string>)
    requires b != []
    requires ValidSources(a + b[..|b| - 1], sourceMap)
          == ValidSources(a, sourceMap) + ValidSources(b[..|b| - 1], sourceMap)
    ensures ValidSources(a + b, sourceMap) == ValidSources(a, sourceMap) + ValidSources(b, sourceMap)
  {
    var n := |b| - 1;
    AppendSnoc(a, b);
    var last := b[n];
    assert (a + b)[|a + b| - 1] == last;
    var extra := if last in sourceMap then [last] else [];
    var va, vb := ValidSources(a, sourceMap), ValidSources(b[..n], sourceMap);
    assert ValidSources(a + b, sourceMap) == va + vb + extra;
    assert ValidSources(b, sourceMap) == vb + extra;
    Assoc(va, vb, extra);
  }

  /** Each id is kept as often as it is cited when the map knows it, and
      never otherwise. */
  lemma {:induction false} ValidSourcesCount(ids: seq<string>, sourceMap: map<string, string>, x: string)
    ensures multiset(ValidSources(ids, sourceMap))[x] == if x in sourceMap then multiset(ids)[x] else 0
  {
    if ids != [] {
      var n := |ids| - 1;
      assert ids == ids[..n] + [ids[n]];
      ValidSourcesCount(ids[..n], sourceMap, x);
    }
  }

  /** When every cited id is known, nothing is dropped. */
  lemma {:induction false} ValidSourcesAllKnown(ids: seq<string>, sourceMap: map<string, string>)
    requires forall k :: 0 <= k < |ids| ==> ids[k] in sourceMap
    ensures ValidSources(ids, sourceMap) == ids
  {
    if ids != [] {
      var n := |ids| - 1;
      ValidSourcesAllKnown(ids[..n], sourceMap);
      assert ValidSources(ids, sourceMap) == ids[..n] + [ids[n]];
      LastSplit(ids);
    }
  }

  /** Filtering a second time changes nothing. */
  lemma ValidSourcesIdempotent(ids: seq<string>, sourceMap: map<string, string>)
    ensures ValidSources(ValidSources(ids, sourceMap), sourceMap) == ValidSources(ids, sourceMap)
  {
    var r := ValidSources(ids, sourceMap);
    assert forall k :: 0 <= k < |r| ==> r[k] in r;
    ValidSourcesAllKnown(r, sourceMap);
  }

  /** What a key point's source control shows. */
  datatype SourceView =
    | NoSource
    | Intercept(refs: seq<(string, string)>)

  /** "NO SOURCE" for a point citing nothing; otherwise every known cited id
      with the text it names, in citation order. */
  function SourceViewOf(ids: seq<string>, sourceMap: map<string, string>): (v: SourceView)
    ensures v.NoSource? <==> ids == []
    ensures v.Intercept? ==>
      var valid := ValidSources(ids, sourceMap);
      |v.refs| == |valid| &&
      forall k :: 0 <= k < |valid| ==> v.refs[k].0 == valid[k] && v.refs[k].1 == sourceMap[valid[k]]
  {
    if ids == [] then NoSource
    else
      var valid := ValidSources(ids, sourceMap);
      Intercept(seq(|valid|, k requires 0 <= k < |valid| => (valid[k], sourceMap[valid[k]])))
  }

  /** Every key of a document's source map is the tag of a kept block and
      maps to that block's stripped text. */
  lemma SourceEntryIsBlock(pages: seq<Page>, t: string)
    requires t in SourceMap(Segments(pages))
    ensures exists p, i ::
      0 <= p < |pages| && 0 <= i < |pages[p]| && Kept(pages[p][i]) &&
      t == Tag(p + 1, i) && SourceMap(Segments(pages))[t] == Trim(pages[p][i].text)
  {
    var ss := Segments(pages);
    TagsDistinct(pages);
    SourceMapKeyIsSegment(ss, t);
    var j :| 0 <= j < |ss| && TagOf(ss[j]) == t && SourceMap(ss)[t] == ss[j].text;
    SegmentsSound(pages);
    KeptWitness(pages, ss[j]);
  }

  /** A segment from a kept block names its page and index. */
  lemma KeptWitness(pages: seq<Page>, s: Segment)
    requires FromKeptBlock(pages, s)
    ensures exists p, i ::
      0 <= p < |pages| && 0 <= i < |pages[p]| && Kept(pages[p][i]) &&
      TagOf(s) == Tag(p + 1, i) && s.text == Trim(pages[p][i].text)
  {
    var p, i := s.page - 1, s.index;
    assert TagOf(s) == Tag(p + 1, i) && s.text == Trim(pages[p][i].text);
  }

  /** Against a document's own source map, every reference shown is the tag
      of a kept block and its text is that block's stripped text. */
  lemma ShownRefsAreBlocks(pages: seq<Page>, ids: seq<string>, k: nat)
    requires SourceViewOf(ids, SourceMap(Segments(pages))).Intercept?
    requires k < |SourceViewOf(ids, SourceMap(Segments(pages))).refs|
    ensures var ref := SourceViewOf(ids, SourceMap(Segments(pages))).refs[k];
      exists p, i :: 0 <= p < |pages| && 0 <= i < |pages[p]| &&
        Kept(pages[p][i]) && ref == (Tag(p + 1, i), Trim(pages[p][i].text))
  {
    var m := SourceMap(Segments(pages));
    var ref := SourceViewOf(ids, m).refs[k];
    var valid := ValidSources(ids, m);
    assert valid[k] in valid;
    assert ref.0 in m && ref.1 == m[ref.0];
    SourceEntryIsBlock(pages, ref.0);
  }

  lemma ViewExample()
    ensures SourceViewOf([], map["[[P1_0]]" := "Alpha."]) == NoSource
    ensures SourceViewOf(["[[P9_9]]", "[[P1_0]]"], map["[[P1_0]]" := "Alpha."])
         == Intercept([("[[P1_0]]", "Alpha.")])
    ensures SourceViewOf(["[[P9_9]]"], map["[[P1_0]]" := "Alpha."]) == Intercept([])
  {
    var m := map["[[P1_0]]" := "Alpha."];
    assert "[[P9_9]]" != "[[P1_0]]" by { assert "[[P9_9]]"[3] != "[[P1_0]]"[3]; }
    assert ["[[P9_9]]", "[[P1_0]]"][..1] == ["[[P9_9]]"];
    assert ValidSources(["[[P9_9]]"], m) == [];
    assert ValidSources(["[[P9_9]]", "[[P1_0]]"], m) == ["[[P1_0]]"];
  }
}
