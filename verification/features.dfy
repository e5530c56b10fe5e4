/** Step 2: the feature selection and the extraction of features and audience
    segments from an uploaded specification document. */
module Features {
  import opened Wrappers
  import opened Sorting
  import opened Selection
  import opened Labels
  import opened Campaign

  /** Selection invariant of the feature step. */
  ghost predicate FeatureInv(s: State) {
    SelectionInv(s.featureList, s.features, FeatureId)
  }

  /** A click on a feature tag: toggle it by id, then redisplay the selected
      features sorted by key followed by the unselected ones sorted by key. */
  function ClickFeature(s: State, f: Feature): (r: State)
    ensures r.(features := s.features, featureList := s.featureList) == s
    ensures HasId(r.features, f.id, FeatureId) <==> !HasId(s.features, f.id, FeatureId)
    ensures forall id :: id != f.id ==> (HasId(r.features, id, FeatureId) <==> HasId(s.features, id, FeatureId))
    ensures forall x :: x in r.features <==>
      (x in s.features && x.id != f.id) || (x == f && !HasId(s.features, f.id, FeatureId))
    ensures !HasId(s.features, f.id, FeatureId) ==> r.features == s.features + [f]
  {
    var sel := ToggleById(s.features, f, FeatureId);
    s.(features := sel, featureList := Reorder(s.featureList, sel, FeatureId, FeatureLe))
  }

  /** Deselecting a feature deletes it from the selection and keeps the other
      selected features in their click order, which is the order the request
      sends them in. */
  lemma ClickFeatureRemovesOne(s: State, f: Feature, k: int)
    requires UniqueIds(s.features, FeatureId) && 0 <= k < |s.features| && s.features[k].id == f.id
    ensures ClickFeature(s, f).features == s.features[..k] + s.features[k + 1..]
  {
    ToggleRemovesOne(s.features, f, FeatureId, k);
  }

  /** The redisplayed list is the new selection sorted by key followed by
      every master item whose id is not selected, sorted by key. */
  lemma ClickFeatureDisplay(s: State, f: Feature)
    ensures var r := ClickFeature(s, f);
      && |r.features| <= |r.featureList|
      && multiset(r.featureList[..|r.features|]) == multiset(r.features)
      && Sorted(r.featureList[..|r.features|], FeatureLe)
      && Sorted(r.featureList[|r.features|..], FeatureLe)
      && (forall k :: |r.features| <= k < |r.featureList| ==>
           r.featureList[k] in s.featureList && !HasId(r.features, r.featureList[k].id, FeatureId))
      && forall x :: multiset(r.featureList[|r.features|..])[x] ==
           if HasId(r.features, x.id, FeatureId) then 0 else multiset(s.featureList)[x]
  {
    var r := ClickFeature(s, f);
    FeatureLeIsTotalPreorder();
    ReorderPartition(s.featureList, r.features, FeatureId, FeatureLe);
  }

  /** Clicking a displayed feature when the invariant holds keeps it, and the
      redisplayed list is a permutation of the previous one. */
  lemma ClickFeatureKeepsInv(s: State, f: Feature)
    requires FeatureInv(s) && f in s.featureList
    ensures FeatureInv(ClickFeature(s, f))
    ensures multiset(ClickFeature(s, f).featureList) == multiset(s.featureList)
  {
    var sel := ToggleById(s.features, f, FeatureId);
    ToggleKeepsInv(s.featureList, s.features, f, FeatureId);
    ReorderIsPermutation(s.featureList, sel, FeatureId, FeatureLe);
    ReorderKeepsInv(s.featureList, sel, FeatureId, FeatureLe);
  }

  /** Clicking the same feature twice restores the set of selected ids. */
  lemma ClickFeatureTwice(s: State, f: Feature)
    ensures forall id :: HasId(ClickFeature(ClickFeature(s, f), f).features, id, FeatureId)
                     <==> HasId(s.features, id, FeatureId)
  {
    ToggleTwiceRestoresIds(s.features, f, FeatureId);
  }

  /** The feature summary numbered in object-key order. */
  function Numbered(summary: seq<(string, string)>): (r: seq<Feature>)
    ensures |r| == |summary|
    ensures forall i :: 0 <= i < |r| ==> r[i].id == i && (r[i].key, r[i].value) == summary[i]
  {
    seq(|summary|, i requires 0 <= i < |summary| => Feature(summary[i].0, summary[i].1, i))
  }

  /** The feature list built from a successful extraction: ids 0..n-1 in
      summary order, then sorted by key. */
  function ExtractedFeatures(summary: seq<(string, string)>): (r: seq<Feature>)
    ensures multiset(r) == multiset(Numbered(summary))
    ensures Sorted(r, FeatureLe)
    ensures UniqueIds(r, FeatureId)
    ensures forall f :: f in r <==> 0 <= f.id < |summary| && summary[f.id] == (f.key, f.value)
  {
    var n := Numbered(summary);
    var r := SortBy(n, FeatureLe);
    FeatureLeIsTotalPreorder();
    SortBySorted(n, FeatureLe);
    UniqueIdsPermutation(n, r, FeatureId);
    forall f ensures f in r <==> f in n {
      assert f in r <==> f in multiset(r);
      assert f in n <==> f in multiset(n);
    }
    r
  }

  /** The reply of `file-process`, wherever the wizard is when it arrives.
      A 200 reply replaces both master lists and clears both selections; any
      other status empties both master lists and clears both selections; a
      thrown request empties both master lists but leaves the selections as
      they were. The lists and selections live in `App`, so a reply writes
      them whichever step is shown; the loading flag is step 2's own and is
      lowered only when the step that sent the request is still mounted
      (`ownMount`). */
  function FileUploaded(s: State, reply: Reply<Extraction>, ownMount: bool): (r: State)
    ensures r.(extracting := s.extracting,
               featureList := s.featureList, features := s.features,
               audienceList := s.audienceList, audiences := s.audiences) == s
    ensures r.extracting <==> s.extracting && !ownMount
    ensures reply.Ok? && reply.status == 200 ==>
      && r.featureList == ExtractedFeatures(reply.body.summary)
      && r.audienceList == SortedLabels(reply.body.segments)
    ensures !(reply.Ok? && reply.status == 200) ==> r.featureList == [] && r.audienceList == []
    ensures reply.Ok? ==> r.features == [] && r.audiences == []
    ensures reply.Failed? ==> r.features == s.features && r.audiences == s.audiences
  {
    var ok := reply.Ok? && reply.status == 200;
    s.(extracting := s.extracting && !ownMount,
       featureList := if ok then ExtractedFeatures(reply.body.summary) else [],
       audienceList := if ok then SortedLabels(reply.body.segments) else [],
       features := if reply.Ok? then [] else s.features,
       audiences := if reply.Ok? then [] else s.audiences)
  }

  /** A thrown extraction can leave selected features that are no longer in
      the (emptied) feature list. */
  lemma FailedUploadOrphansSelection(s: State, f: Feature, ownMount: bool)
    requires s.featureList == [f] && s.features == [f]
    ensures var r := FileUploaded(s, Failed, ownMount);
      r.features == [f] && r.featureList == [] && !SelectionInv(r.featureList, r.features, FeatureId)
  {
    var r := FileUploaded(s, Failed, ownMount);
    assert r.features[0] !in r.featureList;
  }
}
