/** Step 4: the image-resolution choice. At most one resolution is kept
    selected; the list is redisplayed by width, the selection first. */
module Resolutions {
  import opened Sorting
  import opened Selection
  import opened Campaign

  /** Selection invariant of the resolution step. */
  ghost predicate ResolutionInv(s: State) {
    SelectionInv(s.resolutionList, s.resolutions, ResolutionId)
  }

  /** The selection after a click on `res`. A click on a resolution whose id
      is already selected empties the selection when that id is the first
      selected one and otherwise replaces the selection by `res`; a click on
      an unselected resolution makes `res` the only selection. */
  function SelectResolution(sel: seq<Resolution>, res: Resolution): (r: seq<Resolution>)
    ensures |r| <= 1
    ensures r == [] <==> |sel| > 0 && sel[0].id == res.id
    ensures r != [] ==> r == [res]
  {
    if HasId(sel, res.id, ResolutionId) then
      if sel[0].id == res.id then [] else [res]
    else
      assert |sel| > 0 ==> ResolutionId(sel[0]) != res.id;
      [res]
  }

  /** A click on a resolution tag: the new selection, and the list
      redisplayed as the selection sorted by width followed by the master
      items whose id is not selected, sorted by width. */
  function ClickResolution(s: State, res: Resolution): (r: State)
    ensures r.(resolutions := s.resolutions, resolutionList := s.resolutionList) == s
    ensures |r.resolutions| <= 1
    ensures r.resolutions == SelectResolution(s.resolutions, res)
  {
    var sel := SelectResolution(s.resolutions, res);
    s.(resolutions := sel, resolutionList := Reorder(s.resolutionList, sel, ResolutionId, WidthLe))
  }

  /** While at most one resolution is selected, a click flips whether the
      clicked id is selected. */
  lemma ClickResolutionFlips(s: State, res: Resolution)
    requires |s.resolutions| <= 1
    ensures HasId(ClickResolution(s, res).resolutions, res.id, ResolutionId)
        <==> !HasId(s.resolutions, res.id, ResolutionId)
  {
    var r := ClickResolution(s, res);
    if HasId(s.resolutions, res.id, ResolutionId) {
      var i :| 0 <= i < |s.resolutions| && ResolutionId(s.resolutions[i]) == res.id;
      assert i == 0;
    } else {
      assert ResolutionId(r.resolutions[0]) == res.id;
    }
  }

  /** With two selected resolutions, a click on the second one keeps it
      selected rather than deselecting it: the flip needs at most one
      selection, which every click restores. */
  lemma SecondSelectedStaysSelected(a: Resolution, b: Resolution, s: State)
    requires a.id != b.id && s.resolutions == [a, b]
    ensures ClickResolution(s, b).resolutions == [b]
    ensures HasId(s.resolutions, b.id, ResolutionId)
  {
    assert ResolutionId(s.resolutions[1]) == b.id;
  }

  /** The redisplayed list starts with the selection and continues with
      every master item whose id is not selected, sorted by width. */
  lemma ClickResolutionDisplay(s: State, res: Resolution)
    ensures var r := ClickResolution(s, res);
      && |r.resolutions| <= |r.resolutionList|
      && r.resolutionList[..|r.resolutions|] == r.resolutions
      && Sorted(r.resolutionList[|r.resolutions|..], WidthLe)
      && (forall k :: |r.resolutions| <= k < |r.resolutionList| ==>
           r.resolutionList[k] in s.resolutionList && !HasId(r.resolutions, r.resolutionList[k].id, ResolutionId))
      && forall x :: multiset(r.resolutionList[|r.resolutions|..])[x] ==
           if HasId(r.resolutions, x.id, ResolutionId) then 0 else multiset(s.resolutionList)[x]
  {
    var r := ClickResolution(s, res);
    WidthLeIsTotalPreorder();
    ReorderPartition(s.resolutionList, r.resolutions, ResolutionId, WidthLe);
    if |r.resolutions| == 1 {
      assert SortBy(r.resolutions, WidthLe) == r.resolutions;
    }
  }

  /** Clicking a displayed resolution of a list with unique ids keeps the
      selection invariant, and the redisplayed list is a permutation of the
      previous one, whatever was selected before. */
  lemma ClickResolutionKeepsInv(s: State, res: Resolution)
    requires UniqueIds(s.resolutionList, ResolutionId) && res in s.resolutionList
    ensures ResolutionInv(ClickResolution(s, res))
    ensures multiset(ClickResolution(s, res).resolutionList) == multiset(s.resolutionList)
  {
    var sel := SelectResolution(s.resolutions, res);
    assert SelectionInv(s.resolutionList, sel, ResolutionId);
    ReorderIsPermutation(s.resolutionList, sel, ResolutionId, WidthLe);
    ReorderKeepsInv(s.resolutionList, sel, ResolutionId, WidthLe);
  }

  /** Mounting the step redisplays the list by width, selection first, and
      leaves the selection itself untouched (it is copied before sorting). */
  function MountResolutions(s: State): (r: State)
    ensures r.(resolutionList := s.resolutionList) == s
    ensures |s.resolutions| <= |r.resolutionList|
    ensures multiset(r.resolutionList[..|s.resolutions|]) == multiset(s.resolutions)
  {
    ReorderPartition(s.resolutionList, s.resolutions, ResolutionId, WidthLe);
    s.(resolutionList := Reorder(s.resolutionList, s.resolutions, ResolutionId, WidthLe))
  }

  /** On mount the list is redisplayed as the selection sorted by width,
      then every master item whose id is not selected, sorted by width. */
  lemma MountResolutionsDisplay(s: State)
    ensures var r := MountResolutions(s);
      && Sorted(r.resolutionList[..|s.resolutions|], WidthLe)
      && Sorted(r.resolutionList[|s.resolutions|..], WidthLe)
      && forall x :: multiset(r.resolutionList[|s.resolutions|..])[x] ==
           if HasId(s.resolutions, x.id, ResolutionId) then 0 else multiset(s.resolutionList)[x]
  {
    WidthLeIsTotalPreorder();
    ReorderPartition(s.resolutionList, s.resolutions, ResolutionId, WidthLe);
  }

  /** On mount the redisplayed list is a permutation of the previous list and
      the invariant is kept. */
  lemma MountResolutionsKeepsInv(s: State)
    requires ResolutionInv(s)
    ensures ResolutionInv(MountResolutions(s))
    ensures multiset(MountResolutions(s).resolutionList) == multiset(s.resolutionList)
  {
    ReorderIsPermutation(s.resolutionList, s.resolutions, ResolutionId, WidthLe);
    ReorderKeepsInv(s.resolutionList, s.resolutions, ResolutionId, WidthLe);
  }
}
