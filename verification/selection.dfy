/** The toggle-and-reorder selection model shared by the feature, audience and
    resolution steps. Items are identified by `idOf`: the feature or resolution
    `id`, or the label itself for audiences. The displayed list is always the
    sorted selection followed by the sorted master items not selected. */
module Selection {
  import opened Seqs
  import opened Sorting

  /** Some item of `s` carries identifier `id`. */
  predicate HasId<T, I(==,!new)>(s: seq<T>, id: I, idOf: T -> I) {
    exists i :: 0 <= i < |s| && idOf(s[i]) == id
  }

  /** No two positions of `s` carry the same identifier. */
  ghost predicate UniqueIds<T, I>(s: seq<T>, idOf: T -> I) {
    forall i, j :: 0 <= i < j < |s| ==> idOf(s[i]) != idOf(s[j])
  }

  /** The invariant a selection model keeps: identifiers are unique in the
      master list and in the selection, and every selected item is one of the
      master list's items. */
  ghost predicate SelectionInv<T, I>(master: seq<T>, sel: seq<T>, idOf: T -> I) {
    && UniqueIds(master, idOf)
    && UniqueIds(sel, idOf)
    && forall k :: 0 <= k < |sel| ==> sel[k] in master
  }

  /** Symmetric add/remove: if some selected item carries `item`'s identifier,
      every such item is removed; otherwise `item` is appended at the end,
      after the earlier selections in their order. */
  function ToggleById<T(!new), I(==,!new)>(sel: seq<T>, item: T, idOf: T -> I): (r: seq<T>)
    ensures HasId(r, idOf(item), idOf) <==> !HasId(sel, idOf(item), idOf)
    ensures forall id :: id != idOf(item) ==> (HasId(r, id, idOf) <==> HasId(sel, id, idOf))
    ensures forall x :: x in r <==>
      (x in sel && idOf(x) != idOf(item)) || (x == item && !HasId(sel, idOf(item), idOf))
    ensures !HasId(sel, idOf(item), idOf) ==> r == sel + [item]
  {
    if HasId(sel, idOf(item), idOf) then
      var r := Filter(sel, x => idOf(x) != idOf(item));
      assert forall id :: HasId(r, id, idOf) <==> id != idOf(item) && HasId(sel, id, idOf) by {
        forall id ensures HasId(r, id, idOf) <==> id != idOf(item) && HasId(sel, id, idOf) {
          if id != idOf(item) && HasId(sel, id, idOf) {
            var i :| 0 <= i < |sel| && idOf(sel[i]) == id;
            assert sel[i] in r;
          }
          if HasId(r, id, idOf) {
            var i :| 0 <= i < |r| && idOf(r[i]) == id;
            assert r[i] in r;
            var j :| 0 <= j < |sel| && sel[j] == r[i];
          }
        }
      }
      r
    else
      var r := sel + [item];
      assert idOf(r[|sel|]) == idOf(item);
      assert forall id :: HasId(r, id, idOf) <==> id == idOf(item) || HasId(sel, id, idOf) by {
        forall id ensures HasId(r, id, idOf) <==> id == idOf(item) || HasId(sel, id, idOf) {
          if HasId(sel, id, idOf) {
            var i :| 0 <= i < |sel| && idOf(sel[i]) == id;
            assert r[i] == sel[i];
          }
          if HasId(r, id, idOf) && id != idOf(item) {
            var i :| 0 <= i < |r| && idOf(r[i]) == id;
            assert i < |sel| && r[i] == sel[i];
          }
        }
      }
      r
  }

  /** With unique selected identifiers, removing a selected item deletes its
      one position and keeps every other selection in its order. */
  lemma ToggleRemovesOne<T(!new), I(!new)>(sel: seq<T>, item: T, idOf: T -> I, k: int)
    requires UniqueIds(sel, idOf) && 0 <= k < |sel| && idOf(sel[k]) == idOf(item)
    ensures ToggleById(sel, item, idOf) == sel[..k] + sel[k + 1..]
  {
    assert HasId(sel, idOf(item), idOf);
    var p := (x: T) => idOf(x) != idOf(item);
    forall i | 0 <= i < |sel| && i != k ensures p(sel[i]) {
      if i < k {
        assert idOf(sel[i]) != idOf(sel[k]);
      } else {
        assert idOf(sel[k]) != idOf(sel[i]);
      }
    }
    FilterDropsOne(sel, p, k);
  }

  /** The master items whose identifier is not selected, in master order. */
  function Unselected<T(!new), I(==,!new)>(master: seq<T>, sel: seq<T>, idOf: T -> I): (r: seq<T>)
    ensures forall x :: x in r <==> x in master && !HasId(sel, idOf(x), idOf)
  {
    Filter(master, x => !HasId(sel, idOf(x), idOf))
  }

  /** The redisplayed list: selected items sorted, then unselected master
      items sorted. */
  function Reorder<T(!new), I(==,!new)>(master: seq<T>, sel: seq<T>, idOf: T -> I, le: (T, T) -> bool): seq<T>
  {
    SortBy(sel, le) + SortBy(Unselected(master, sel, idOf), le)
  }

  /** The two halves of the displayed list are the selection and the rest:
      the first `|sel|` items are the selection (sorted), no later item carries
      a selected identifier, and every later item comes from the master list.
      The rest is complete: it holds each master item whose identifier is not
      selected as often as the master list does. */
  lemma ReorderPartition<T(!new), I(!new)>(master: seq<T>, sel: seq<T>, idOf: T -> I, le: (T, T) -> bool)
    ensures var d := Reorder(master, sel, idOf, le);
      && |sel| <= |d|
      && multiset(d[..|sel|]) == multiset(sel)
      && (forall k :: |sel| <= k < |d| ==> !HasId(sel, idOf(d[k]), idOf) && d[k] in master)
      && (forall x :: multiset(d[|sel|..])[x] == if HasId(sel, idOf(x), idOf) then 0 else multiset(master)[x])
      && (TotalPreorder(le) ==> Sorted(d[..|sel|], le) && Sorted(d[|sel|..], le))
  {
    var a := SortBy(sel, le);
    var b := SortBy(Unselected(master, sel, idOf), le);
    var d := a + b;
    assert d[..|sel|] == a && d[|sel|..] == b;
    forall k | |sel| <= k < |d| ensures !HasId(sel, idOf(d[k]), idOf) && d[k] in master {
      assert d[k] == b[k - |sel|];
      assert d[k] in multiset(b);
    }
    forall x ensures multiset(b)[x] == if HasId(sel, idOf(x), idOf) then 0 else multiset(master)[x] {
      FilterCount(master, y => !HasId(sel, idOf(y), idOf), x);
    }
    if TotalPreorder(le) {
      SortBySorted(sel, le);
      SortBySorted(Unselected(master, sel, idOf), le);
    }
  }

  lemma UniqueIdsNoDups<T, I>(s: seq<T>, idOf: T -> I)
    requires UniqueIds(s, idOf)
    ensures NoDups(s)
  {
  }

  /** Two items of a list with unique identifiers that share an identifier
      are the same item. */
  lemma SameIdSameItem<T, I>(s: seq<T>, x: T, y: T, idOf: T -> I)
    requires UniqueIds(s, idOf) && x in s && y in s && idOf(x) == idOf(y)
    ensures x == y
  {
    var i :| 0 <= i < |s| && s[i] == x;
    var j :| 0 <= j < |s| && s[j] == y;
    if i < j {
      assert idOf(s[i]) != idOf(s[j]);
    } else if j < i {
      assert idOf(s[j]) != idOf(s[i]);
    }
  }

  /** Reordering preserves unique identifiers under any permutation. */
  lemma {:induction false} UniqueIdsPermutation<T, I>(a: seq<T>, b: seq<T>, idOf: T -> I)
    requires multiset(a) == multiset(b) && UniqueIds(a, idOf)
    ensures UniqueIds(b, idOf)
  {
    UniqueIdsNoDups(a, idOf);
    NoDupsPermutation(a, b);
    forall i, j | 0 <= i < j < |b| ensures idOf(b[i]) != idOf(b[j]) {
      assert b[i] in multiset(a) && b[j] in multiset(a);
      var i' :| 0 <= i' < |a| && a[i'] == b[i];
      var j' :| 0 <= j' < |a| && a[j'] == b[j];
      assert i' != j';
      if i' < j' {
        assert idOf(a[i']) != idOf(a[j']);
      } else {
        assert idOf(a[j']) != idOf(a[i']);
      }
    }
  }

  /** When the selection invariant holds, the displayed list is a permutation
      of the master list: nothing is lost and nothing is duplicated. */
  lemma ReorderIsPermutation<T(!new), I(!new)>(master: seq<T>, sel: seq<T>, idOf: T -> I, le: (T, T) -> bool)
    requires SelectionInv(master, sel, idOf)
    ensures multiset(Reorder(master, sel, idOf, le)) == multiset(master)
  {
    var p := (x: T) => HasId(sel, idOf(x), idOf);
    var q := (x: T) => !HasId(sel, idOf(x), idOf);
    FilterSplit(master, p, q);
    assert Filter(master, q) == Unselected(master, sel, idOf);
    var chosen := Filter(master, p);
    UniqueIdsNoDups(sel, idOf);
    UniqueIdsNoDups(master, idOf);
    assert NoDups(chosen) by {
      FilterSubseqNoDups(master, p);
    }
    forall x ensures x in sel <==> x in chosen {
      if x in sel {
        var k :| 0 <= k < |sel| && sel[k] == x;
        assert sel[k] in master;
      }
      if x in chosen {
        var k :| 0 <= k < |sel| && idOf(sel[k]) == idOf(x);
        assert sel[k] in master;
        SameIdSameItem(master, sel[k], x, idOf);
      }
    }
    SameElementsSameMultiset(sel, chosen);
  }

  /** Filtering keeps a duplicate-free sequence duplicate-free. */
  lemma {:induction false} FilterSubseqNoDups<T(!new)>(s: seq<T>, p: T -> bool)
    requires NoDups(s)
    ensures NoDups(Filter(s, p))
  {
    if |s| > 0 {
      assert NoDups(s[1..]) by {
        forall i, j | 0 <= i < j < |s[1..]| ensures s[1..][i] != s[1..][j] {
          assert s[1..][i] == s[i + 1] && s[1..][j] == s[j + 1];
        }
      }
      FilterSubseqNoDups(s[1..], p);
      var rest := Filter(s[1..], p);
      if p(s[0]) {
        assert s[0] !in s[1..] by {
          forall k | 0 <= k < |s[1..]| ensures s[1..][k] != s[0] {
            assert s[1..][k] == s[k + 1];
          }
        }
        var r := [s[0]] + rest;
        forall i, j | 0 <= i < j < |r| ensures r[i] != r[j] {
          if i == 0 {
            assert r[j] == rest[j - 1];
            assert r[j] in s[1..];
          } else {
            assert r[i] == rest[i - 1] && r[j] == rest[j - 1];
          }
        }
      }
    }
  }

  /** Toggling keeps the selected identifiers unique. */
  lemma ToggleKeepsUniqueIds<T(!new), I(!new)>(sel: seq<T>, item: T, idOf: T -> I)
    requires UniqueIds(sel, idOf)
    ensures UniqueIds(ToggleById(sel, item, idOf), idOf)
  {
    var r := ToggleById(sel, item, idOf);
    if HasId(sel, idOf(item), idOf) {
      FilterKeepsUniqueIds(sel, x => idOf(x) != idOf(item), idOf);
    } else {
      forall i, j | 0 <= i < j < |r| ensures idOf(r[i]) != idOf(r[j]) {
        if j == |sel| {
          assert r[j] == item && r[i] == sel[i];
        } else {
          assert r[i] == sel[i] && r[j] == sel[j];
        }
      }
    }
  }

  /** Toggling an item of the master list keeps the selection invariant. */
  lemma ToggleKeepsInv<T(!new), I(!new)>(master: seq<T>, sel: seq<T>, item: T, idOf: T -> I)
    requires SelectionInv(master, sel, idOf) && item in master
    ensures SelectionInv(master, ToggleById(sel, item, idOf), idOf)
  {
    var r := ToggleById(sel, item, idOf);
    ToggleKeepsUniqueIds(sel, item, idOf);
    forall k | 0 <= k < |r| ensures r[k] in master {
      assert r[k] in r;
      if r[k] != item {
        var m :| 0 <= m < |sel| && sel[m] == r[k];
      }
    }
  }

  /** Filtering keeps identifiers unique. */
  lemma {:induction false} FilterKeepsUniqueIds<T(!new), I>(s: seq<T>, p: T -> bool, idOf: T -> I)
    requires UniqueIds(s, idOf)
    ensures UniqueIds(Filter(s, p), idOf)
  {
    if |s| > 0 {
      assert UniqueIds(s[1..], idOf) by {
        forall i, j | 0 <= i < j < |s[1..]| ensures idOf(s[1..][i]) != idOf(s[1..][j]) {
          assert s[1..][i] == s[i + 1] && s[1..][j] == s[j + 1];
        }
      }
      FilterKeepsUniqueIds(s[1..], p, idOf);
      var rest := Filter(s[1..], p);
      if p(s[0]) {
        var r := [s[0]] + rest;
        forall i, j | 0 <= i < j < |r| ensures idOf(r[i]) != idOf(r[j]) {
          if i == 0 {
            assert r[j] == rest[j - 1];
            assert r[j] in s[1..];
            var m :| 0 <= m < |s[1..]| && s[1..][m] == r[j];
            assert s[1..][m] == s[m + 1];
          } else {
            assert r[i] == rest[i - 1] && r[j] == rest[j - 1];
          }
        }
      }
    }
  }

  /** After a reorder the displayed list, used as the next master list, still
      satisfies the invariant together with the selection. */
  lemma ReorderKeepsInv<T(!new), I(!new)>(master: seq<T>, sel: seq<T>, idOf: T -> I, le: (T, T) -> bool)
    requires SelectionInv(master, sel, idOf)
    ensures SelectionInv(Reorder(master, sel, idOf, le), sel, idOf)
  {
    var d := Reorder(master, sel, idOf, le);
    ReorderIsPermutation(master, sel, idOf, le);
    UniqueIdsPermutation(master, d, idOf);
    forall k | 0 <= k < |sel| ensures sel[k] in d {
      assert sel[k] in multiset(master);
    }
  }

  /** Toggling the same item twice restores the selected identifier set. */
  lemma ToggleTwiceRestoresIds<T(!new), I(!new)>(sel: seq<T>, item: T, idOf: T -> I)
    ensures forall id :: HasId(ToggleById(ToggleById(sel, item, idOf), item, idOf), id, idOf)
                     <==> HasId(sel, id, idOf)
  {
  }

  /** The weaker invariant the wizard keeps across failed requests: either
      the selection invariant, or an emptied master list beside a selection
      whose identifiers are still unique. */
  ghost predicate Consistent<T, I>(master: seq<T>, sel: seq<T>, idOf: T -> I) {
    SelectionInv(master, sel, idOf) || (master == [] && UniqueIds(sel, idOf))
  }

  /** Reordering restores the full selection invariant from the weaker one:
      an emptied master list is redisplayed as the sorted selection. */
  lemma ReorderRestoresInv<T(!new), I(!new)>(master: seq<T>, sel: seq<T>, idOf: T -> I, le: (T, T) -> bool)
    requires Consistent(master, sel, idOf)
    ensures SelectionInv(Reorder(master, sel, idOf, le), sel, idOf)
  {
    if SelectionInv(master, sel, idOf) {
      ReorderKeepsInv(master, sel, idOf, le);
    } else {
      var d := Reorder(master, sel, idOf, le);
      assert Unselected(master, sel, idOf) == [];
      assert d == SortBy(sel, le);
      UniqueIdsPermutation(sel, d, idOf);
      forall k | 0 <= k < |sel| ensures sel[k] in d {
        assert sel[k] in multiset(d);
      }
    }
  }
}
