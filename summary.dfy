/** The dashboard's reading of a structured summary: the risk count over
    all key points and the choice of the meta-analysis object. A key point's
    absent `risk_type` is the empty string and a section's absent
    `key_points` the empty list, as the lookups' defaults make them. */
module Summary {
  import opened Text

  datatype KeyPoint = KeyPoint(
    statement: string,
    sourceIds: seq<string>,
    riskType: string,
    details: string,
    rationale: string)

  datatype Section = Section(title: string, keyPoints: seq<KeyPoint>)

  const JsonMetaKey: string := "json_meta_analysis"
  const MetaKey: string := "meta_analysis"

  /** A risk type counts when, lower-cased, it contains one of the five
      keywords. */
  predicate IsRisky(riskType: string) {
    var r := Lower(riskType);
    Contains(r, "high") || Contains(r, "critical") || Contains(r, "operational") ||
    Contains(r, "financial") || Contains(r, "legal")
  }

  /** Whether a risk type counts does not depend on the case of its
      letters: lower-casing it first changes nothing. */
  lemma IsRiskyIgnoresCase(riskType: string)
    ensures IsRisky(Lower(riskType)) <==> IsRisky(riskType)
  {
    assert Lower(Lower(riskType)) == Lower(riskType);
  }

  /** The number of risky points in a list of key points. */
  function RiskyPoints(ps: seq<KeyPoint>): nat {
    if ps == [] then 0
    else RiskyPoints(ps[..|ps| - 1]) + (if IsRisky(ps[|ps| - 1].riskType) then 1 else 0)
  }

  /** The number of risky points over all sections. */
  function RiskyInSections(ss: seq<Section>): nat {
    if ss == [] then 0
    else RiskyInSections(ss[..|ss| - 1]) + RiskyPoints(ss[|ss| - 1].keyPoints)
  }

  /** The dashboard's nested loop over sections and their key points. */
  method RiskCount(sections: seq<Section>) returns (count: nat)
    ensures count == RiskyInSections(sections)
  {
    count := 0;
    var s := 0;
    while s < |sections|
      invariant 0 <= s <= |sections|
      invariant count == RiskyInSections(sections[..s])
    {
      var points := sections[s].keyPoints;
      var p := 0;
      while p < |points|
        invariant 0 <= p <= |points|
        invariant count == RiskyInSections(sections[..s]) + RiskyPoints(points[..p])
      {
        if IsRisky(points[p].riskType) {
          count := count + 1;
        }
        assert points[..p + 1][..p] == points[..p];
        p := p + 1;
      }
      assert points[..p] == points;
      assert sections[..s + 1][..s] == sections[..s];
      s := s + 1;
    }
    assert sections[..s] == sections;
  }

  // ---------------------------------------------------------------------
  // What the count means

  /** All key points, section after section. */
  function AllPoints(ss: seq<Section>): seq<KeyPoint> {
    if ss == [] then [] else AllPoints(ss[..|ss| - 1]) + ss[|ss| - 1].keyPoints
  }

  /** Counting is additive over a split of the points. */
  lemma {:induction false} RiskyPointsAppend(a: seq<KeyPoint>, b: seq<KeyPoint>)
    ensures RiskyPoints(a + b) == RiskyPoints(a) + RiskyPoints(b)
    decreases |b|
  {
    if b == [] {
      assert a + b == a;
    } else {
      var n := |b| - 1;
      AppendSnoc(a, b);
      RiskyPointsAppend(a, b[..n]);
    }
  }

  /** The per-section count is the count over all points together. */
  lemma {:induction false} RiskyInSectionsFlat(ss: seq<Section>)
    ensures RiskyInSections(ss) == RiskyPoints(AllPoints(ss))
  {
    if ss != [] {
      var n := |ss| - 1;
      RiskyInSectionsFlat(ss[..n]);
      RiskyPointsAppend(AllPoints(ss[..n]), ss[n].keyPoints);
    }
  }

  /** The positions of the risky points. */
  function RiskyIndices(ps: seq<KeyPoint>): set<nat> {
    set k: nat | k < |ps| && IsRisky(ps[k].riskType)
  }

  /** The count is the number of risky positions. */
  lemma {:induction false} RiskyPointsCard(ps: seq<KeyPoint>)
    ensures RiskyPoints(ps) == |RiskyIndices(ps)|
  {
    if ps != [] {
      RiskyPointsCard(ps[..|ps| - 1]);
      RiskyIndicesSnoc(ps);
    }
  }

  /** The risky positions of a list are those of its initial part, plus the
      last position when the last point is risky. */
  lemma RiskyIndicesSnoc(ps: seq<KeyPoint>)
    requires ps != []
    ensures var n := |ps| - 1;
      n !in RiskyIndices(ps[..n]) &&
      RiskyIndices(ps) == RiskyIndices(ps[..n]) + (if IsRisky(ps[n].riskType) then {n} else {})
  {
    var n := |ps| - 1;
    var init := ps[..n];
    forall k: nat
      ensures k in RiskyIndices(ps) <==> k in RiskyIndices(init) + (if IsRisky(ps[n].riskType) then {n} else {})
    {
      if k < n {
        assert ps[k] == init[k];
      }
    }
  }

  /** The dashboard's risk count is the number of risky key points over all
      sections, and it is zero exactly when no key point is risky. */
  lemma RiskCountMeaning(ss: seq<Section>)
    ensures RiskyInSections(ss) == |RiskyIndices(AllPoints(ss))|
    ensures RiskyInSections(ss) == 0 <==>
      forall k :: 0 <= k < |AllPoints(ss)| ==> !IsRisky(AllPoints(ss)[k].riskType)
  {
    var ps := AllPoints(ss);
    RiskyInSectionsFlat(ss);
    RiskyPointsCard(ps);
    if RiskyInSections(ss) == 0 {
      forall k | 0 <= k < |ps|
        ensures !IsRisky(ps[k].riskType)
      {
        assert k !in RiskyIndices(ps);
      }
    } else {
      var k :| k in RiskyIndices(ps);
      assert IsRisky(ps[k].riskType);
    }
  }

  /** A string lower-cases to `t` when each of its characters lower-cases
      to the character of `t` at the same position. */
  lemma LowerIs(s: string, t: string)
    requires |s| == |t| && forall k :: 0 <= k < |s| ==> LowerChar(s[k]) == t[k]
    ensures Lower(s) == t
  {
  }

  lemma ContainsSelf(s: string)
    ensures Contains(s, s)
  {
    assert StartsWith(s[0..], s);
  }

  lemma FinancialIsRisky()
    ensures IsRisky("Financial")
  {
    LowerIs("Financial", "financial");
    ContainsSelf("financial");
  }

  /** A keyword whose first letter does not occur is not contained. */
  lemma AbsentInitial(s: string, sub: string)
    requires sub != [] && forall k :: 0 <= k < |s| ==> s[k] != sub[0]
    ensures !Contains(s, sub)
  {
    forall i | 0 <= i <= |s|
      ensures !StartsWith(s[i..], sub)
    {
      if i < |s| && |sub| <= |s| - i {
        assert s[i..][..|sub|][0] == s[i];
      }
    }
  }

  lemma NoneIsNotRisky()
    ensures !IsRisky("None")
  {
    var r := Lower("None");
    LowerIs("None", "none");
    AbsentInitial(r, "high");
    AbsentInitial(r, "critical");
    AbsentInitial(r, "financial");
    AbsentInitial(r, "legal");
  }

  /** A medium risk is not counted. */
  lemma MediumIsNotRisky()
    ensures !IsRisky("Medium")
  {
    var r := Lower("Medium");
    LowerIs("Medium", "medium");
    AbsentInitial(r, "high");
    AbsentInitial(r, "critical");
    AbsentInitial(r, "financial");
    AbsentInitial(r, "legal");
    AbsentInitial(r, "operational");
  }

  // ---------------------------------------------------------------------
  // Meta-analysis fallback

  /** The response's `json_meta_analysis` when present, else its
      `meta_analysis`, else the empty object. */
  function MetaAnalysisOf<V>(response: map<string, V>, empty: V): (r: V)
    ensures JsonMetaKey in response ==> r == response[JsonMetaKey]
    ensures JsonMetaKey !in response && MetaKey in response ==> r == response[MetaKey]
    ensures JsonMetaKey !in response && MetaKey !in response ==> r == empty
  {
    if JsonMetaKey in response then response[JsonMetaKey]
    else if MetaKey in response then response[MetaKey]
    else empty
  }
}
