/** Step 3: the audience-segment selection, its reorder on mount and the
    fetch of segments from the prompt. Labels are compared by equality and
    sorted with the default string order. */
module Audiences {
  import opened Wrappers
  import opened Seqs
  import opened Sorting
  import opened Selection
  import opened Labels
  import opened Campaign

  /** Selection invariant of the audience step. */
  ghost predicate AudienceInv(s: State) {
    SelectionInv(s.audienceList, s.audiences, LabelId)
  }

  lemma HasLabel(sel: seq<string>, l: string)
    ensures HasId(sel, l, LabelId) <==> l in sel
  {
    if l in sel {
      var i :| 0 <= i < |sel| && sel[i] == l;
      assert LabelId(sel[i]) == l;
    }
  }

  /** The stored selection after a click on `tag`: every copy of the label
      is removed if it is selected, else it is appended; the array is then
      sorted in place. */
  function ToggleLabel(sel: seq<string>, tag: string): (r: seq<string>)
    ensures tag in r <==> tag !in sel
    ensures forall l :: l != tag ==> (l in r <==> l in sel)
    ensures Sorted(r, StrLe)
  {
    var t := ToggleById(sel, tag, LabelId);
    HasLabel(sel, tag);
    StrLeIsTotalPreorder();
    SortBySorted(t, StrLe);
    SortKeepsMembers(t);
    SortBy(t, StrLe)
  }

  lemma SortKeepsMembers(t: seq<string>)
    ensures forall l :: l in SortBy(t, StrLe) <==> l in t
  {
    forall l ensures l in SortBy(t, StrLe) <==> l in t {
      assert l in SortBy(t, StrLe) <==> l in multiset(SortBy(t, StrLe));
    }
  }

  /** A click on an audience tag: the stored selection becomes the toggled,
      sorted selection, and the displayed list starts with exactly that
      selection, followed by the unselected labels. */
  function ClickAudience(s: State, tag: string): (r: State)
    ensures r.(audiences := s.audiences, audienceList := s.audienceList) == s
    ensures r.audiences == ToggleLabel(s.audiences, tag)
    ensures |r.audiences| <= |r.audienceList| && r.audienceList[..|r.audiences|] == r.audiences
  {
    var t := ToggleById(s.audiences, tag, LabelId);
    s.(audiences := SortBy(t, StrLe), audienceList := Reorder(s.audienceList, t, LabelId, StrLe))
  }

  /** The labels after the selection in the redisplayed list are the master
      labels not selected, sorted: none of them is selected, and every copy
      of every unselected master label is there. */
  lemma ClickAudienceDisplay(s: State, tag: string)
    ensures var r := ClickAudience(s, tag);
      && Sorted(r.audienceList[|r.audiences|..], StrLe)
      && (forall k :: |r.audiences| <= k < |r.audienceList| ==>
           r.audienceList[k] in s.audienceList && r.audienceList[k] !in r.audiences)
      && forall x :: multiset(r.audienceList[|r.audiences|..])[x] ==
           if x in r.audiences then 0 else multiset(s.audienceList)[x]
  {
    var t := ToggleById(s.audiences, tag, LabelId);
    var r := ClickAudience(s, tag);
    StrLeIsTotalPreorder();
    ReorderPartition(s.audienceList, t, LabelId, StrLe);
    SortKeepsMembers(t);
    forall k | |r.audiences| <= k < |r.audienceList|
      ensures r.audienceList[k] !in r.audiences
    {
      HasLabel(t, r.audienceList[k]);
    }
    forall x ensures multiset(r.audienceList[|r.audiences|..])[x] ==
      if x in r.audiences then 0 else multiset(s.audienceList)[x]
    {
      HasLabel(t, x);
    }
  }

  /** Clicking a displayed label when the invariant holds keeps it, and the
      redisplayed list is a permutation of the previous one. */
  lemma ClickAudienceKeepsInv(s: State, tag: string)
    requires AudienceInv(s) && tag in s.audienceList
    ensures AudienceInv(ClickAudience(s, tag))
    ensures multiset(ClickAudience(s, tag).audienceList) == multiset(s.audienceList)
  {
    var t := ToggleById(s.audiences, tag, LabelId);
    var r := ClickAudience(s, tag);
    ToggleKeepsInv(s.audienceList, s.audiences, tag, LabelId);
    ReorderIsPermutation(s.audienceList, t, LabelId, StrLe);
    ReorderKeepsInv(s.audienceList, t, LabelId, StrLe);
    UniqueIdsPermutation(t, r.audiences, LabelId);
    forall k | 0 <= k < |r.audiences| ensures r.audiences[k] in r.audienceList {
      assert r.audiences[k] in multiset(t);
    }
  }

  /** Mounting the step: the fetch starts only when the audience list is
      empty; the selection array is sorted in place and the list is
      redisplayed as the sorted selection followed by the unselected labels
      sorted. */
  function MountAudiences(s: State): (r: State)
    ensures r.(audiences := s.audiences, audienceList := s.audienceList,
               fetchingAudiences := s.fetchingAudiences) == s
    ensures r.fetchingAudiences <==> |s.audienceList| == 0
    ensures multiset(r.audiences) == multiset(s.audiences) && Sorted(r.audiences, StrLe)
    ensures |r.audiences| <= |r.audienceList| && r.audienceList[..|r.audiences|] == r.audiences
  {
    StrLeIsTotalPreorder();
    SortBySorted(s.audiences, StrLe);
    s.(fetchingAudiences := |s.audienceList| == 0,
       audiences := SortBy(s.audiences, StrLe),
       audienceList := Reorder(s.audienceList, s.audiences, LabelId, StrLe))
  }

  /** On mount the list is redisplayed as the sorted selection followed by
      every copy of every unselected label, sorted. */
  lemma MountAudiencesDisplay(s: State)
    ensures var r := MountAudiences(s);
      && Sorted(r.audienceList[|r.audiences|..], StrLe)
      && forall x :: multiset(r.audienceList[|r.audiences|..])[x] ==
           if x in s.audiences then 0 else multiset(s.audienceList)[x]
  {
    StrLeIsTotalPreorder();
    ReorderPartition(s.audienceList, s.audiences, LabelId, StrLe);
    forall x ensures multiset(MountAudiences(s).audienceList[|s.audiences|..])[x] ==
      if x in s.audiences then 0 else multiset(s.audienceList)[x]
    {
      HasLabel(s.audiences, x);
    }
  }

  /** On mount the redisplayed list is a permutation of the previous list
      when the invariant holds, and the invariant holds afterwards even if
      an earlier failed request had emptied the list. */
  lemma MountAudiencesKeepsInv(s: State)
    requires Consistent(s.audienceList, s.audiences, LabelId)
    ensures AudienceInv(MountAudiences(s))
    ensures AudienceInv(s) ==> multiset(MountAudiences(s).audienceList) == multiset(s.audienceList)
  {
    var r := MountAudiences(s);
    ReorderRestoresInv(s.audienceList, s.audiences, LabelId, StrLe);
    if AudienceInv(s) {
      ReorderIsPermutation(s.audienceList, s.audiences, LabelId, StrLe);
    }
    UniqueIdsPermutation(s.audiences, r.audiences, LabelId);
    forall k | 0 <= k < |r.audiences| ensures r.audiences[k] in r.audienceList {
      assert r.audiences[k] in multiset(s.audiences);
    }
  }

  /** Completion of a mount-time fetch: a 200 reply stores the normalised
      labels sorted and clears the selection; any other status empties the
      list and clears the selection; a thrown request empties the list only.
      The list and the selection belong to `App`, so a reply to a fetch
      started by an earlier mount of the step still writes them; only the
      loading flag of the mount that started the fetch is lowered, so the
      current flag is lowered only when `ownMount` holds. */
  function AudiencesFetched(s: State, reply: Reply<Extraction>, ownMount: bool): (r: State)
    ensures r.(audienceList := s.audienceList, audiences := s.audiences,
               fetchingAudiences := s.fetchingAudiences) == s
    ensures r.fetchingAudiences <==> s.fetchingAudiences && !ownMount
    ensures reply.Ok? && reply.status == 200 ==> r.audienceList == SortedLabels(reply.body.segments)
    ensures !(reply.Ok? && reply.status == 200) ==> r.audienceList == []
    ensures r.audiences == if reply.Ok? then [] else s.audiences
  {
    var ok := reply.Ok? && reply.status == 200;
    s.(fetchingAudiences := s.fetchingAudiences && !ownMount,
       audienceList := if ok then SortedLabels(reply.body.segments) else [],
       audiences := if reply.Ok? then [] else s.audiences)
  }

  /** Two segments that normalise to the same tag make a duplicate in the
      audience list; selecting that tag then drops both copies from the
      unselected part, so the redisplayed list is one item shorter. */
  lemma DuplicateLabelShrinksDisplay(s: State)
    requires s.audienceList == ["A", "A"] && s.audiences == []
    ensures |ClickAudience(s, "A").audienceList| == 1
  {
    var t := ToggleById(s.audiences, "A", LabelId);
    HasLabel(s.audiences, "A");
    assert t == ["A"];
    HasLabel(t, "A");
    var u := Unselected(s.audienceList, t, LabelId);
    assert forall x :: x !in u;
    EmptyWithoutMembers(u);
  }
}
