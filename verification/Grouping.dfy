/** Groups of equivalent elements of a sorted sequence, and flattening as the inverse of grouping. */
module Grouping {
  import opened Ordering

  /** The first position whose element is above v. */
  function UpperBound<T>(less: (T, T) -> bool, s: seq<T>, v: T): (k: nat)
    ensures k <= |s| && (forall i :: 0 <= i < k ==> !less(v, s[i])) && (k < |s| ==> less(v, s[k]))
  {
    if s == [] || less(v, s[0]) then 0 else 1 + UpperBound(less, s[1..], v)
  }

  /** The length of the group at the front. */
  function FirstGroup<T>(less: (T, T) -> bool, s: seq<T>): (k: nat)
    requires s != []
    ensures 0 < k <= |s|
  {
    1 + UpperBound(less, s[1..], s[0])
  }

  /** One group after the other is cut off the front. */
  function Groups<T>(less: (T, T) -> bool, s: seq<T>): seq<seq<T>> {
    if s == [] then [] else [s[..FirstGroup(less, s)]] + Groups(less, s[FirstGroup(less, s)..])
  }

  function Flatten<T>(gs: seq<seq<T>>): seq<T> {
    if gs == [] then [] else gs[0] + Flatten(gs[1..])
  }

  ghost predicate Equivalent<T>(less: (T, T) -> bool, g: seq<T>) {
    forall i, j :: 0 <= i < |g| && 0 <= j < |g| ==> !less(g[i], g[j])
  }

  /** Everything in x comes strictly before everything in y. */
  ghost predicate Before<T>(less: (T, T) -> bool, x: seq<T>, y: seq<T>) {
    forall i, j :: 0 <= i < |x| && 0 <= j < |y| ==> less(x[i], y[j])
  }

  /** Nonempty groups of equivalent elements, in strictly increasing order: no two of them could be joined. */
  ghost predicate IsGrouping<T>(less: (T, T) -> bool, gs: seq<seq<T>>) {
    && (forall i :: 0 <= i < |gs| ==> gs[i] != [] && Equivalent(less, gs[i]))
    && (forall i, j :: 0 <= i < j < |gs| ==> Before(less, gs[i], gs[j]))
  }

  /** With a strict weak order, upper_bound of the first element finds the end of its group. */
  lemma FirstGroupIsUpperBound<T(!new)>(less: (T, T) -> bool, s: seq<T>)
    requires StrictWeakOrder(less) && s != []
    ensures UpperBound(less, s, s[0]) == FirstGroup(less, s)
  {
  }

  lemma {:induction false} FlattenConcat<T>(a: seq<seq<T>>, b: seq<seq<T>>)
    ensures Flatten(a + b) == Flatten(a) + Flatten(b)
  {
    if a == [] {
      assert a + b == b;
    } else {
      assert (a + b)[1..] == a[1..] + b;
      FlattenConcat(a[1..], b);
    }
  }

  lemma GroupsNext<T>(less: (T, T) -> bool, s: seq<T>)
    requires s != []
    ensures var k := FirstGroup(less, s); Groups(less, s) == [s[..k]] + Groups(less, s[k..])
  {
  }

  lemma FlattenNext<T>(g: seq<T>, gs: seq<seq<T>>)
    ensures Flatten([g] + gs) == g + Flatten(gs)
  {
  }

  /** Grouping loses nothing. */
  lemma {:induction false} FlattenGroups<T>(less: (T, T) -> bool, s: seq<T>)
    ensures Flatten(Groups(less, s)) == s
    decreases |s|
  {
    if s != [] {
      var k := FirstGroup(less, s);
      var g, tail := s[..k], s[k..];
      FlattenGroups(less, tail);
      var rest := Groups(less, tail);
      FlattenNext(g, rest);
      assert Groups(less, s) == [g] + rest;
      assert g + tail == s;
    }
  }

  lemma {:induction false} FlattenMembers<T>(gs: seq<seq<T>>, i: int)
    requires 0 <= i < |gs|
    ensures forall x :: x in gs[i] ==> x in Flatten(gs)
    decreases |gs|
  {
    if i > 0 {
      FlattenMembers(gs[1..], i - 1);
      assert gs[1..][i - 1] == gs[i];
    }
  }

  lemma BeforeMembers<T>(less: (T, T) -> bool, x: seq<T>, y: seq<T>, x': seq<T>, y': seq<T>)
    requires Before(less, x, y) && (forall v :: v in x' ==> v in x) && (forall v :: v in y' ==> v in y)
    ensures Before(less, x', y')
  {
    forall i, j | 0 <= i < |x'| && 0 <= j < |y'|
      ensures less(x'[i], y'[j])
    {
      assert x'[i] in x && y'[j] in y;
    }
  }

  /** The first group is complete and everything after it is above it. */
  lemma FirstGroupSeparates<T(!new)>(less: (T, T) -> bool, s: seq<T>)
    requires StrictWeakOrder(less) && Sorted(less, s) && s != []
    ensures Equivalent(less, s[..FirstGroup(less, s)])
    ensures Before(less, s[..FirstGroup(less, s)], s[FirstGroup(less, s)..])
  {
  }

  lemma GroupingNext<T>(less: (T, T) -> bool, g: seq<T>, rest: seq<seq<T>>)
    requires IsGrouping(less, rest) && g != [] && Equivalent(less, g)
    requires forall j :: 0 <= j < |rest| ==> Before(less, g, rest[j])
    ensures IsGrouping(less, [g] + rest)
  {
  }

  /** The groups of a sorted sequence are its maximal runs of equivalent elements, in order. */
  lemma {:induction false} GroupsAreMaximal<T(!new)>(less: (T, T) -> bool, s: seq<T>)
    requires StrictWeakOrder(less) && Sorted(less, s)
    ensures IsGrouping(less, Groups(less, s))
    decreases |s|
  {
    if s != [] {
      hide StrictWeakOrder, Equivalent, Before, Sorted, Groups, Flatten, IsGrouping;
      var k := FirstGroup(less, s);
      var rest := Groups(less, s[k..]);
      FirstGroupSeparates(less, s);
      SortedSlice(less, s, k, |s|);
      assert s[k..|s|] == s[k..];
      GroupsAreMaximal(less, s[k..]);
      FlattenGroups(less, s[k..]);
      forall j | 0 <= j < |rest|
        ensures Before(less, s[..k], rest[j])
      {
        FlattenMembers(rest, j);
        BeforeMembers(less, s[..k], s[k..], s[..k], rest[j]);
      }
      GroupsNext(less, s);
      GroupingNext(less, s[..k], rest);
    }
  }

  lemma {:induction false} BeforeFlatten<T>(less: (T, T) -> bool, x: seq<T>, gs: seq<seq<T>>)
    requires forall i :: 0 <= i < |gs| ==> Before(less, x, gs[i])
    ensures Before(less, x, Flatten(gs))
    decreases |gs|
  {
    if gs != [] {
      BeforeFlatten(less, x, gs[1..]);
    }
  }

  lemma TailIsGrouping<T>(less: (T, T) -> bool, gs: seq<seq<T>>)
    requires IsGrouping(less, gs) && gs != []
    ensures IsGrouping(less, gs[1..]) && Before(less, gs[0], Flatten(gs[1..]))
  {
    hide Before, Equivalent;
    BeforeFlatten(less, gs[0], gs[1..]);
  }

  /** There is only one such grouping. */
  lemma {:induction false} GroupingIsUnique<T>(less: (T, T) -> bool, gs: seq<seq<T>>)
    requires IsGrouping(less, gs)
    ensures Groups(less, Flatten(gs)) == gs
    decreases |gs|
  {
    if gs != [] {
      TailIsGrouping(less, gs);
      GroupingIsUnique(less, gs[1..]);
      var g, s := gs[0], Flatten(gs);
      assert s == g + Flatten(gs[1..]) && s[0] == g[0];
      assert s[1..][..|g| - 1] == g[1..];
      GroupAtFront(less, g, Flatten(gs[1..]));
      assert s[..|g|] == g && s[|g|..] == Flatten(gs[1..]);
    }
  }

  lemma GroupAtFront<T>(less: (T, T) -> bool, g: seq<T>, rest: seq<T>)
    requires g != [] && Equivalent(less, g) && Before(less, g, rest)
    ensures FirstGroup(less, g + rest) == |g|
  {
    var s := g + rest;
    var tail := s[1..];
    assert s[0] == g[0];
    forall i | 0 <= i < |g| - 1
      ensures !less(s[0], tail[i])
    {
      assert tail[i] == g[i + 1];
    }
    assert rest != [] ==> tail[|g| - 1] == rest[0] && less(g[0], rest[0]);
    assert |tail| == |g| - 1 + |rest|;
  }

  lemma {:induction false} GroupingIsSorted<T(!new)>(less: (T, T) -> bool, gs: seq<seq<T>>)
    requires StrictWeakOrder(less) && IsGrouping(less, gs)
    ensures Sorted(less, Flatten(gs))
    decreases |gs|
  {
    if gs != [] {
      TailIsGrouping(less, gs);
      GroupingIsSorted(less, gs[1..]);
      BeforeIsNotAbove(less, gs[0], Flatten(gs[1..]));
      SortedConcat(less, gs[0], Flatten(gs[1..]));
    }
  }

  lemma BeforeIsNotAbove<T(!new)>(less: (T, T) -> bool, x: seq<T>, y: seq<T>)
    requires StrictWeakOrder(less) && Before(less, x, y)
    ensures NotAbove(less, x, y)
  {
  }

  /** Grouping is undone by flattening, and flattening by grouping exactly for lists of groups. */
  lemma RoundTrips<T(!new)>(less: (T, T) -> bool, gs: seq<seq<T>>)
    requires StrictWeakOrder(less)
    ensures IsGrouping(less, gs) <==> Sorted(less, Flatten(gs)) && Groups(less, Flatten(gs)) == gs
  {
    if IsGrouping(less, gs) {
      GroupingIsUnique(less, gs);
      GroupingIsSorted(less, gs);
    } else if Sorted(less, Flatten(gs)) {
      GroupsAreMaximal(less, Flatten(gs));
    }
  }

  // ----- Cutting between two groups -----

  lemma GroupingConcat<T>(less: (T, T) -> bool, a: seq<seq<T>>, b: seq<seq<T>>)
    requires IsGrouping(less, a) && IsGrouping(less, b) && Before(less, Flatten(a), Flatten(b))
    ensures IsGrouping(less, a + b)
  {
    hide Before, Equivalent;
    forall i, j | 0 <= i < |a| && 0 <= j < |b|
      ensures Before(less, a[i], b[j])
    {
      FlattenMembers(a, i);
      FlattenMembers(b, j);
      BeforeMembers(less, Flatten(a), Flatten(b), a[i], b[j]);
    }
  }

  /** When a cut does not go through a group, both parts can be grouped on their own. */
  lemma GroupsSplit<T(!new)>(less: (T, T) -> bool, a: seq<T>, b: seq<T>)
    requires StrictWeakOrder(less) && Sorted(less, a) && Sorted(less, b) && Before(less, a, b)
    ensures Groups(less, a + b) == Groups(less, a) + Groups(less, b)
  {
    var x, y := Groups(less, a), Groups(less, b);
    GroupsAreMaximal(less, a);
    GroupsAreMaximal(less, b);
    FlattenGroups(less, a);
    FlattenGroups(less, b);
    GroupingConcat(less, x, y);
    FlattenConcat(x, y);
    GroupingIsUnique(less, x + y);
  }

  lemma {:induction false} FewGroups<T>(less: (T, T) -> bool, s: seq<T>)
    ensures |Groups(less, s)| <= |s|
    ensures forall i :: 0 <= i < |Groups(less, s)| ==> Groups(less, s)[i] != []
    decreases |s|
  {
    if s != [] {
      FewGroups(less, s[FirstGroup(less, s)..]);
    }
  }
}
