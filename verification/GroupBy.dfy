/** parallel_group_by: a grouped transform writes one container per group, then the unused slots are filtered out. */
module GroupBy {
  import opened Cutoff
  import opened Ordering
  import opened ForkJoin
  import opened Filtering
  import opened FindAll
  import opened Grouping

  /** upper_bound of the element at i, in [i, last); at the end of the range there is no element to look for. */
  function GroupEnd<T>(less: (T, T) -> bool, s: seq<T>, i: int, last: int): (e: int)
    requires 0 <= i <= last <= |s|
    ensures i <= e <= last
  {
    if i == last then last else i + UpperBound(less, s[i..last], s[i])
  }

  /** A cut goes forward to the end of the group it was in, and no further, so that no group lies on both sides of it. */
  lemma GroupEndSeparates<T(!new)>(less: (T, T) -> bool, s: seq<T>, first: int, i: int, last: int)
    requires StrictWeakOrder(less) && Sorted(less, s) && 0 <= first <= i <= last <= |s|
    ensures var e := GroupEnd(less, s, i, last);
            && (i < last ==> i < e) && Before(less, s[first..e], s[e..last])
            && forall k :: i <= k < e ==> !less(s[i], s[k]) && !less(s[k], s[i])
  {
    var e := GroupEnd(less, s, i, last);
    forall k | i <= k < e
      ensures !less(s[i], s[k]) && !less(s[k], s[i])
    {
      assert s[k] == s[i..last][k - i];
    }
    if e < last {
      assert less(s[i], s[i..last][e - i]);
      forall a, b | first <= a < e && e <= b < last
        ensures less(s[a], s[b])
      {
        assert !less(s[i], s[a]) by {
          if a >= i { assert s[a] == s[i..last][a - i] && !less(s[i], s[i..last][a - i]); }
        }
        assert less(s[i], s[e]) && !less(s[b], s[e]);
        assert less(s[i], s[b]);
      }
    }
  }

  function NonEmpty<T>(): seq<T> -> bool {
    g => |g| > 0
  }

  /** The tasks of parallel_grouped_transform; a task reserves as many slots as it has elements. */
  ghost function GroupPlan<T(!new)>(less: (T, T) -> bool, s: seq<T>, first: int, last: int, out: int, access: Access, cutoff: int): Job<seq<T>>
    requires StrictWeakOrder(less) && Sorted(less, s) && 0 <= first <= last <= |s|
    decreases last - first
  {
    var cut := FindCutoff(access, first, cutoff, last);
    var middle := GroupEnd(less, s, cut, last);
    GroupEndSeparates(less, s, first, cut, last);
    if middle == last then Leaf(WritesAt(out, Groups(less, s[first..last])))
    else Fork([], GroupPlan(less, s, first, middle, out, access, cutoff),
                  GroupPlan(less, s, middle, last, out + (middle - first), access, cutoff))
  }

  /** n slots from a position on; slots that are not written stay empty. */
  ghost function Slots<T>(m: map<int, seq<T>>, at: int, n: nat): seq<seq<T>> {
    seq(n, i requires 0 <= i < n => if at + i in m then m[at + i] else [])
  }

  ghost predicate KeysWithin<T>(m: map<int, T>, lo: int, hi: int) {
    forall k :: k in m ==> lo <= k < hi
  }

  ghost function Unused<T>(n: nat): seq<seq<T>> {
    seq(n, i => [])
  }

  lemma SlotsPlaced<T>(at: int, gs: seq<seq<T>>, n: nat)
    requires |gs| <= n
    ensures Slots(Placed(at, gs), at, n) == gs + Unused(n - |gs|)
  {
  }

  lemma LeafSlots<T>(less: (T, T) -> bool, s: seq<T>, at: int)
    ensures var m := Placed(at, Groups(less, s));
            KeysWithin(m, at, at + |s|) && Filter(NonEmpty(), Slots(m, at, |s|)) == Groups(less, s)
  {
    hide Groups;
    var gs := Groups(less, s);
    FewGroups(less, s);
    var unused := Unused(|s| - |gs|);
    SlotsPlaced(at, gs, |s|);
    FilterAll(NonEmpty(), gs);
    FilterNothing(NonEmpty(), unused);
    FilterConcat(NonEmpty(), gs, unused);
  }

  lemma ForkSlots<T>(l: map<int, seq<T>>, r: map<int, seq<T>>, at: int, m: nat, n: nat)
    requires KeysWithin(l, at, at + m) && KeysWithin(r, at + m, at + m + n)
    ensures KeysWithin(l + r, at, at + m + n) && l.Keys !! r.Keys
    ensures Filter(NonEmpty(), Slots(l + r, at, m + n)) == Filter(NonEmpty(), Slots(l, at, m)) + Filter(NonEmpty(), Slots(r, at + m, n))
  {
    hide Filter;
    assert KeysWithin(l + r, at, at + m + n);
    forall k | k in l.Keys
      ensures k !in r.Keys
    {
      assert k in l && k < at + m;
    }
    var x, y, z := Slots(l, at, m), Slots(r, at + m, n), Slots(l + r, at, m + n);
    forall i | 0 <= i < m + n
      ensures z[i] == (x + y)[i]
    {
      if i >= m { assert y[i - m] == if at + i in r then r[at + i] else []; }
    }
    assert z == x + y;
    FilterConcat(NonEmpty(), Slots(l, at, m), Slots(r, at + m, n));
  }

  /** Each task stays within its reserved slots, and the nonempty ones among them are the groups of its range. */
  lemma {:induction false} PlanGroups<T(!new)>(less: (T, T) -> bool, s: seq<T>, first: int, last: int, out: int, access: Access, cutoff: int)
    requires StrictWeakOrder(less) && Sorted(less, s) && 0 <= first <= last <= |s|
    ensures var job := GroupPlan(less, s, first, last, out, access, cutoff);
            var m := Content(InOrder(job));
            && RaceFree(job) && KeysWithin(m, out, out + (last - first))
            && Filter(NonEmpty(), Slots(m, out, last - first)) == Groups(less, s[first..last])
    decreases last - first
  {
    hide StrictWeakOrder, Sorted, Before, RaceFree, Groups, KeysWithin, Slots, Filter, Content, GroupEnd, InOrder, WritesAt;
    var cut := FindCutoff(access, first, cutoff, last);
    var middle := GroupEnd(less, s, cut, last);
    GroupEndSeparates(less, s, first, cut, last);
    if middle == last {
      LeafSlots(less, s[first..last], out);
      ContentWritesAt(out, Groups(less, s[first..last]));
      LeafIsRaceFree(WritesAt(out, Groups(less, s[first..last])));
    } else {
      var out2 := out + (middle - first);
      var l, r := GroupPlan(less, s, first, middle, out, access, cutoff), GroupPlan(less, s, middle, last, out2, access, cutoff);
      PlanGroups(less, s, first, middle, out, access, cutoff);
      PlanGroups(less, s, middle, last, out2, access, cutoff);
      ForkSlots(Content(InOrder(l)), Content(InOrder(r)), out, middle - first, last - middle);
      EmptyForkContent(l, r);
      CutGroups(less, s, first, middle, last);
    }
  }

  lemma CutGroups<T(!new)>(less: (T, T) -> bool, s: seq<T>, first: int, middle: int, last: int)
    requires StrictWeakOrder(less) && Sorted(less, s) && 0 <= first <= middle <= last <= |s|
    requires Before(less, s[first..middle], s[middle..last])
    ensures Groups(less, s[first..last]) == Groups(less, s[first..middle]) + Groups(less, s[middle..last])
  {
    hide StrictWeakOrder, Sorted, Before, Groups;
    SortedSlice(less, s, first, middle);
    SortedSlice(less, s, middle, last);
    GroupsSplit(less, s[first..middle], s[middle..last]);
    assert s[first..middle] + s[middle..last] == s[first..last];
  }

  /** Main result: whatever order the tasks run in, filtering out the empty slots leaves the groups. */
  lemma EveryRunGroups<T(!new)>(less: (T, T) -> bool, s: seq<T>, access: Access, cutoff: int, trace: seq<Write<seq<T>>>)
    requires StrictWeakOrder(less) && Sorted(less, s)
    requires IsRun(GroupPlan(less, s, 0, |s|, 0, access, cutoff), trace)
    ensures Filter(NonEmpty(), Apply(Unused(|s|), trace)) == Groups(less, s)
  {
    hide StrictWeakOrder, Sorted, GroupPlan, Groups, Filter, Content, IsRun, Apply, RaceFree;
    var job := GroupPlan(less, s, 0, |s|, 0, access, cutoff);
    PlanGroups(less, s, 0, |s|, 0, access, cutoff);
    EveryRunPatches(Unused(|s|), job, trace);
    var m := Content(InOrder(job));
    assert Patch(Unused(|s|), m) == Slots(m, 0, |s|);
    assert s[0..|s|] == s;
  }

  // ----- The code -----

  /** One block: a container per group, written to consecutive slots. */
  method GroupLeaf<T(!new)>(s: seq<T>, first: nat, last: nat, out: array<seq<T>>, at: nat, less: (T, T) -> bool)
    requires StrictWeakOrder(less) && first <= last <= |s| && at + (last - first) <= out.Length
    modifies out
    ensures |Groups(less, s[first..last])| <= last - first
    ensures out[..] == Blit(old(out[..]), at, Groups(less, s[first..last]))
  {
    hide StrictWeakOrder, Groups, Blit, UpperBound;
    ghost var before := out[..];
    ghost var done: seq<seq<T>> := [];
    FewGroups(less, s[first..last]);
    BlitNothing(before, at, done);
    var f, o := first, at;
    while f != last
      invariant first <= f <= last
      invariant |done| == o - at <= f - first
      invariant out[..] == Blit(before, at, done)
      invariant Groups(less, s[first..last]) == done + Groups(less, s[f..last])
      decreases last - f
    {
      var rest := s[f..last];
      FirstGroupIsUpperBound(less, rest);
      GroupsNext(less, rest);
      var next := f + UpperBound(less, rest, s[f]);
      assert rest[..next - f] == s[f..next] && rest[next - f..] == s[next..last];
      BlitNext(before, at, done, s[f..next]);
      ghost var now := out[..];
      out[o] := s[f..next];
      assert out[..] == now[o := s[f..next]];
      done := done + [s[f..next]];
      o := o + 1;
      f := next;
    }
    NoGroups(less, s[last..last]);
    assert done + [] == done;
  }

  lemma NoGroups<T>(less: (T, T) -> bool, s: seq<T>)
    requires s == []
    ensures Groups(less, s) == []
  {
  }

  /** The slots of a task hold its groups in order, with empty slots left over; no other slot changes. */
  ghost predicate GroupsIn<T>(less: (T, T) -> bool, now: seq<seq<T>>, before: seq<seq<T>>, at: int, groups: seq<seq<T>>, n: nat) {
    && 0 <= at && at + n <= |before| == |now|
    && now[..at] == before[..at] && now[at + n..] == before[at + n..]
    && Filter(NonEmpty(), now[at..at + n]) == groups
  }

  ghost predicate Clear<T>(slots: seq<seq<T>>, lo: int, hi: int) {
    0 <= lo <= hi <= |slots| && forall i :: lo <= i < hi ==> slots[i] == []
  }

  lemma LeafGroupsIn<T>(less: (T, T) -> bool, before: seq<seq<T>>, at: int, s: seq<T>)
    requires Clear(before, at, at + |s|)
    ensures |Groups(less, s)| <= |s|
    ensures GroupsIn(less, Blit(before, at, Groups(less, s)), before, at, Groups(less, s), |s|)
  {
    hide Filter, Groups;
    FewGroups(less, s);
    LeafSlots(less, s, at);
    var gs := Groups(less, s);
    var now, slots := Blit(before, at, gs), Slots(Placed(at, gs), at, |s|);
    forall i | 0 <= i < |s|
      ensures now[at..at + |s|][i] == slots[i]
    {
      assert i >= |gs| ==> now[at + i] == before[at + i];
    }
    assert now[at..at + |s|] == slots;
    assert now[at + |s|..] == before[at + |s|..];
  }

  lemma BothGroupsIn<T>(less: (T, T) -> bool, s2: seq<seq<T>>, s1: seq<seq<T>>, s0: seq<seq<T>>, at: int,
                        x: seq<seq<T>>, y: seq<seq<T>>, m: nat, n: nat)
    requires at + m + n <= |s0|
    requires (GroupsIn(less, s1, s0, at, x, m) && GroupsIn(less, s2, s1, at + m, y, n))
          || (GroupsIn(less, s1, s0, at + m, y, n) && GroupsIn(less, s2, s1, at, x, m))
    ensures GroupsIn(less, s2, s0, at, x + y, m + n)
  {
    hide Filter;
    assert |s2| == |s1| == |s0|;
    assert s2[..at] == s0[..at] by { PrefixKept(s2, s1, s0, at, m); }
    assert s2[at..at + m + n] == s2[at..at + m] + s2[at + m..at + m + n];
    FilterConcat(NonEmpty(), s2[at..at + m], s2[at + m..at + m + n]);
    if GroupsIn(less, s1, s0, at, x, m) && GroupsIn(less, s2, s1, at + m, y, n) {
      assert s2[at..at + m] == s2[..at + m][at..] && s1[at..at + m] == s1[..at + m][at..];
      assert s1[at + m + n..] == s1[at + m..][n..] && s0[at + m + n..] == s0[at + m..][n..];
    } else {
      assert s2[at + m..at + m + n] == s2[at + m..][..n] && s1[at + m..at + m + n] == s1[at + m..][..n];
      assert s2[at + m + n..] == s2[at + m..][n..] && s1[at + m + n..] == s1[at + m..][n..];
    }
  }

  lemma PrefixKept<T>(s2: seq<T>, s1: seq<T>, s0: seq<T>, at: int, m: nat)
    requires 0 <= at && at + m <= |s0| == |s1| == |s2|
    requires (s1[..at] == s0[..at] && s2[..at + m] == s1[..at + m]) || (s1[..at + m] == s0[..at + m] && s2[..at] == s1[..at])
    ensures s2[..at] == s0[..at]
  {
  }

  lemma ClearAround<T>(less: (T, T) -> bool, now: seq<seq<T>>, before: seq<seq<T>>, at: int, groups: seq<seq<T>>, n: nat, lo: int, hi: int)
    requires GroupsIn(less, now, before, at, groups, n) && Clear(before, lo, hi) && (hi <= at || at + n <= lo)
    ensures Clear(now, lo, hi)
  {
  }

  /** One task of the grouped transform. It ends for every cutoff, and returns the end of its reserved slots. */
  method GroupedTransform<T(!new)>(s: seq<T>, first: nat, last: nat, out: array<seq<T>>, at: nat, less: (T, T) -> bool,
                                   access: Access, cutoff: int) returns (res: int)
    requires StrictWeakOrder(less) && Sorted(less, s) && first <= last <= |s|
    requires Clear(out[..], at, at + (last - first))
    modifies out
    ensures GroupsIn(less, out[..], old(out[..]), at, Groups(less, s[first..last]), last - first)
    ensures res == at + (last - first)
    decreases last - first
  {
    hide StrictWeakOrder, Sorted, Before, Groups, GroupsIn, GroupEnd;
    var cut := FindCutoff(access, first, cutoff, last);
    var middle := GroupEnd(less, s, cut, last);
    GroupEndSeparates(less, s, first, cut, last);
    ghost var before := out[..];
    if middle == last {
      LeafGroupsIn(less, before, at, s[first..last]);
      GroupLeaf(s, first, last, out, at, less);
      res := at + (last - first);
    } else {
      ghost var gs1, gs2 := Groups(less, s[first..middle]), Groups(less, s[middle..last]);
      CutGroups(less, s, first, middle, last);
      var middleOut := at + (middle - first);
      if * {
        var _ := GroupedTransform(s, first, middle, out, at, less, access, cutoff);
        ghost var between := out[..];
        ClearAround(less, between, before, at, gs1, middle - first, middleOut, at + (last - first));
        res := GroupedTransform(s, middle, last, out, middleOut, less, access, cutoff);
        BothGroupsIn(less, out[..], between, before, at, gs1, gs2, middle - first, last - middle);
      } else {
        res := GroupedTransform(s, middle, last, out, middleOut, less, access, cutoff);
        ghost var between := out[..];
        ClearAround(less, between, before, middleOut, gs2, last - middle, at, middleOut);
        var _ := GroupedTransform(s, first, middle, out, at, less, access, cutoff);
        BothGroupsIn(less, out[..], between, before, at, gs1, gs2, middle - first, last - middle);
      }
    }
  }

  /** Main result: the maximal runs of equivalent elements, in order, with nothing lost. */
  method ParallelGroupBy<T(!new)>(s: seq<T>, less: (T, T) -> bool, access: Access, cutoff: int) returns (groups: seq<seq<T>>)
    requires StrictWeakOrder(less) && Sorted(less, s) && cutoff >= 1
    ensures IsGrouping(less, groups) && Flatten(groups) == s
    ensures groups == Groups(less, s)
  {
    hide StrictWeakOrder, Sorted, Groups, IsGrouping, Flatten, Filter;
    var output := new seq<T>[|s|](i => []);
    var _ := GroupedTransform(s, 0, |s|, output, 0, less, access, cutoff);
    groups := ParallelFindAll(output[..], 0, |s|, NonEmpty(), RandomAccess, cutoff);
    assert s[0..|s|] == s && output[..][0..|s|] == output[0..|s|];
    GroupsAreMaximal(less, s);
    FlattenGroups(less, s);
  }
}
