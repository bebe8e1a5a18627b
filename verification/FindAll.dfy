/** parallel_find_all: every leaf copies its range and erases what is not wanted; joins append. */
module FindAll {
  import opened Cutoff
  import opened Filtering

  function Not<T>(p: T -> bool): T -> bool {
    x => !p(x)
  }

  lemma {:induction false} FilterSame<T>(p: T -> bool, q: T -> bool, s: seq<T>)
    requires forall i :: 0 <= i < |s| ==> p(s[i]) == q(s[i])
    ensures Filter(p, s) == Filter(q, s)
  {
    if s != [] {
      FilterSame(p, q, s[1..]);
    }
  }

  /** Moves the elements to keep to the front, in order, and returns how many there are. */
  method EraseIf<T>(a: array<T>, unwanted: T -> bool) returns (kept: nat)
    modifies a
    ensures kept <= a.Length && a[..kept] == Filter(Not(unwanted), old(a[..]))
  {
    var next := 0;
    kept := 0;
    ghost var before := a[..];
    while next < a.Length
      invariant kept <= next <= a.Length
      invariant a[..kept] == Filter(Not(unwanted), before[0..next])
      invariant forall i :: next <= i < a.Length ==> a[i] == before[i]
    {
      FilterNext(Not(unwanted), before, 0, next);
      if !unwanted(a[next]) {
        a[kept] := a[next];
        kept := kept + 1;
      }
      next := next + 1;
    }
    assert before[0..a.Length] == before;
  }

  /** The result is what a sequential filter keeps, for every cut of the range. */
  method ParallelFindAll<T>(s: seq<T>, beg: nat, end: nat, p: T -> bool, access: Access, cutoff: int) returns (found: seq<T>)
    requires cutoff >= 1 && beg <= end <= |s|
    ensures found == Filter(p, s[beg..end])
    decreases end - beg
  {
    var it := FindCutoff(access, beg, cutoff, end);
    if it == end {
      var ret := new T[end - beg](i requires 0 <= i < end - beg => s[beg + i]);
      assert ret[..] == s[beg..end];
      FilterSame(p, Not(Not(p)), ret[..]);
      var kept := EraseIf(ret, Not(p));
      found := ret[..kept];
    } else {
      var left, right;
      if * {
        left := ParallelFindAll(s, beg, it, p, access, cutoff);
        right := ParallelFindAll(s, it, end, p, access, cutoff);
      } else {
        right := ParallelFindAll(s, it, end, p, access, cutoff);
        left := ParallelFindAll(s, beg, it, p, access, cutoff);
      }
      found := left + right;
      FilterSplit(p, s, beg, it, end);
    }
  }
}
