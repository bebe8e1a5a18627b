/** parallel_is_partitioned: every block is summed up by the state at its beginning and at its end. */
module IsPartitioned {
  import opened Cutoff
  import opened PartitionFinish

  datatype Flag = True | False | Error

  datatype Summary = Summary(first: Flag, second: Flag)

  function FlagOf(b: bool): Flag {
    if b then True else False
  }

  /** What the leaf scan computes, said without the scan: an error when a true element comes after a false one. */
  ghost function SummaryOf<T>(s: seq<T>, p: T -> bool, lo: int, hi: int): Summary
    requires 0 <= lo < hi <= |s|
  {
    if InOrder(s, p, lo, hi) then Summary(FlagOf(p(s[lo])), FlagOf(p(s[hi - 1]))) else Summary(Error, Error)
  }

  ghost predicate InOrder<T>(s: seq<T>, p: T -> bool, lo: int, hi: int)
    requires 0 <= lo <= hi <= |s|
  {
    forall i, j :: lo <= i < j < hi && p(s[j]) ==> p(s[i])
  }

  /** The callback that joins two neighbouring blocks. */
  function Join(l: Summary, r: Summary): Summary {
    if l.first.Error? || r.first.Error? then Summary(Error, Error)
    else if l.second.False? && r.first.True? then Summary(Error, Error)
    else Summary(l.first, r.second)
  }

  /** Joining the summaries of two neighbouring blocks gives the summary of both together. */
  lemma JoinIsHomomorphic<T>(s: seq<T>, p: T -> bool, lo: int, mid: int, hi: int)
    requires 0 <= lo < mid < hi <= |s|
    ensures Join(SummaryOf(s, p, lo, mid), SummaryOf(s, p, mid, hi)) == SummaryOf(s, p, lo, hi)
  {
  }

  /** Any way of cutting a range into blocks. */
  datatype Cuts = Whole | Cut(at: int, left: Cuts, right: Cuts)

  predicate CutsOf(cuts: Cuts, lo: int, hi: int) {
    cuts.Cut? ==> lo < cuts.at < hi && CutsOf(cuts.left, lo, cuts.at) && CutsOf(cuts.right, cuts.at, hi)
  }

  ghost function Joined<T>(s: seq<T>, p: T -> bool, cuts: Cuts, lo: int, hi: int): Summary
    requires 0 <= lo < hi <= |s| && CutsOf(cuts, lo, hi)
    decreases cuts
  {
    match cuts
    case Whole => SummaryOf(s, p, lo, hi)
    case Cut(at, left, right) => Join(Joined(s, p, left, lo, at), Joined(s, p, right, at, hi))
  }

  /** How a range is cut does not matter. */
  lemma {:induction false} AnyCuts<T>(s: seq<T>, p: T -> bool, cuts: Cuts, lo: int, hi: int)
    requires 0 <= lo < hi <= |s| && CutsOf(cuts, lo, hi)
    ensures Joined(s, p, cuts, lo, hi) == SummaryOf(s, p, lo, hi)
    decreases cuts
  {
    if cuts.Cut? {
      AnyCuts(s, p, cuts.left, lo, cuts.at);
      AnyCuts(s, p, cuts.right, cuts.at, hi);
      JoinIsHomomorphic(s, p, lo, cuts.at, hi);
    }
  }

  /** No true element after a false one means: some position splits the range into a true and a false part. */
  lemma {:induction false} InOrderMeansPartitioned<T>(s: seq<T>, p: T -> bool, lo: int, hi: int)
    requires 0 <= lo <= hi <= |s|
    ensures InOrder(s, p, lo, hi) <==> exists split :: Partitioned(s[lo..hi], p, split)
    decreases hi - lo
  {
    var r := s[lo..hi];
    if InOrder(s, p, lo, hi) {
      if lo == hi {
        assert Partitioned(r, p, 0);
      } else {
        InOrderMeansPartitioned(s, p, lo, hi - 1);
        var split :| Partitioned(s[lo..hi - 1], p, split);
        assert forall i :: 0 <= i < |r| - 1 ==> r[i] == s[lo..hi - 1][i];
        if p(s[hi - 1]) {
          assert forall i :: 0 <= i < |r| ==> r[i] == s[lo + i] && p(r[i]);
          assert Partitioned(r, p, |r|);
        } else {
          assert Partitioned(r, p, split);
        }
      }
    } else {
      var i, j :| lo <= i < j < hi && p(s[j]) && !p(s[i]);
      assert r[i - lo] == s[i] && r[j - lo] == s[j];
    }
  }

  /** The scan of one block stops at the first true element after a false one. */
  method ScanBlock<T>(s: seq<T>, beg: nat, end: nat, p: T -> bool) returns (res: Summary)
    requires beg < end <= |s|
    ensures res == SummaryOf(s, p, beg, end)
  {
    var atBegin := p(s[beg]);
    var current := atBegin;
    var i := beg;
    while i != end
      invariant beg <= i <= end
      invariant current == if i == beg then atBegin else p(s[i - 1])
      invariant InOrder(s, p, beg, i)
      decreases end - i
    {
      var val := p(s[i]);
      if !current && val {
        assert i > beg && !p(s[i - 1]) && p(s[i]);
        return Summary(Error, Error);
      }
      current := val;
      i := i + 1;
    }
    res := Summary(FlagOf(atBegin), FlagOf(current));
  }

  method Summarise<T>(s: seq<T>, beg: nat, end: nat, p: T -> bool, access: Access, cutoff: int) returns (res: Summary)
    requires beg < end <= |s| && cutoff >= 1
    ensures res == SummaryOf(s, p, beg, end)
    decreases end - beg
  {
    var it := FindCutoff(access, beg, cutoff, end);
    if it == end {
      res := ScanBlock(s, beg, end, p);
    } else {
      var left, right;
      if * {
        left := Summarise(s, beg, it, p, access, cutoff);
        right := Summarise(s, it, end, p, access, cutoff);
      } else {
        right := Summarise(s, it, end, p, access, cutoff);
        left := Summarise(s, beg, it, p, access, cutoff);
      }
      res := Join(left, right);
      JoinIsHomomorphic(s, p, beg, it, end);
    }
  }

  /** The answer is right for every nonempty range, every cutoff and either order of the subtasks. */
  method ParallelIsPartitioned<T>(s: seq<T>, beg: nat, end: nat, p: T -> bool, access: Access, cutoff: int) returns (answer: bool)
    requires beg < end <= |s| && cutoff >= 1
    ensures answer <==> exists split :: Partitioned(s[beg..end], p, split)
  {
    var res := Summarise(s, beg, end, p, access, cutoff);
    InOrderMeansPartitioned(s, p, beg, end);
    answer := !res.first.Error? && !res.second.Error?;
  }
}
