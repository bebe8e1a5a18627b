/**
  Fork-join tasks that write to one shared output. A job is the tree of tasks an algorithm posts;
  a run of the job is any order in which its writes can take effect.
 */
module ForkJoin {

  datatype Write<T> = Write(pos: int, value: T)

  /**
    A leaf makes its writes in order; a fork makes some writes and then posts two subtasks; a callback can
    post another job when the first one is done.
   */
  datatype Job<T> =
    | Leaf(writes: seq<Write<T>>)
    | Fork(before: seq<Write<T>>, left: Job<T>, right: Job<T>)
    | Then(first: Job<T>, next: Job<T>)

  /** z is l and r, each in its own order, interleaved in any way. */
  ghost predicate Interleaved<T>(l: seq<T>, r: seq<T>, z: seq<T>) {
    if z == [] then l == [] && r == []
    else
      || (l != [] && l[0] == z[0] && Interleaved(l[1..], r, z[1..]))
      || (r != [] && r[0] == z[0] && Interleaved(l, r[1..], z[1..]))
  }

  ghost predicate IsRun<T(!new)>(job: Job<T>, trace: seq<Write<T>>)
    decreases job
  {
    match job
    case Leaf(writes) => trace == writes
    case Fork(before, left, right) =>
      exists l, r, z :: IsRun(left, l) && IsRun(right, r) && Interleaved(l, r, z) && trace == before + z
    case Then(first, next) =>
      exists x, y :: IsRun(first, x) && IsRun(next, y) && trace == x + y
  }

  function Put<T>(out: seq<T>, w: Write<T>): seq<T> {
    if 0 <= w.pos < |out| then out[w.pos := w.value] else out
  }

  /** The output after a sequence of writes. */
  function Apply<T>(out: seq<T>, trace: seq<Write<T>>): seq<T>
    decreases |trace|
  {
    if trace == [] then out else Apply(Put(out, trace[0]), trace[1..])
  }

  /** All writes of a job, one subtask after the other. */
  function InOrder<T>(job: Job<T>): seq<Write<T>> {
    match job
    case Leaf(writes) => writes
    case Fork(before, left, right) => before + InOrder(left) + InOrder(right)
    case Then(first, next) => InOrder(first) + InOrder(next)
  }

  ghost predicate Disjoint<T>(l: seq<Write<T>>, r: seq<Write<T>>) {
    forall i, j :: 0 <= i < |l| && 0 <= j < |r| ==> l[i].pos != r[j].pos
  }

  /** Subtasks that can run at the same time never write to the same place. */
  ghost predicate RaceFree<T>(job: Job<T>) {
    match job
    case Leaf(_) => true
    case Fork(_, left, right) => RaceFree(left) && RaceFree(right) && Disjoint(InOrder(left), InOrder(right))
    case Then(first, next) => RaceFree(first) && RaceFree(next)
  }

  lemma {:induction false} ApplyConcat<T>(out: seq<T>, a: seq<Write<T>>, b: seq<Write<T>>)
    ensures Apply(out, a + b) == Apply(Apply(out, a), b)
    decreases |a|
  {
    if a == [] {
      assert a + b == b;
    } else {
      assert (a + b)[1..] == a[1..] + b;
      ApplyConcat(Put(out, a[0]), a[1..], b);
    }
  }

  lemma {:induction false} PutCommutes<T>(out: seq<T>, l: seq<Write<T>>, w: Write<T>)
    requires forall i :: 0 <= i < |l| ==> l[i].pos != w.pos
    ensures Apply(Put(out, w), l) == Put(Apply(out, l), w)
    decreases |l|
  {
    if l != [] {
      assert Put(Put(out, w), l[0]) == Put(Put(out, l[0]), w);
      PutCommutes(Put(out, l[0]), l[1..], w);
    }
  }

  lemma {:induction false} InterleavingOfDisjoint<T>(out: seq<T>, l: seq<Write<T>>, r: seq<Write<T>>, z: seq<Write<T>>)
    requires Interleaved(l, r, z) && Disjoint(l, r)
    ensures Apply(out, z) == Apply(Apply(out, l), r)
    decreases |z|
  {
    if z != [] {
      if l != [] && l[0] == z[0] && Interleaved(l[1..], r, z[1..]) {
        InterleavingOfDisjoint(Put(out, z[0]), l[1..], r, z[1..]);
      } else {
        InterleavingOfDisjoint(Put(out, z[0]), l, r[1..], z[1..]);
        PutCommutes(out, l, r[0]);
      }
    }
  }

  lemma {:induction false} InterleavedMembers<T>(l: seq<T>, r: seq<T>, z: seq<T>)
    requires Interleaved(l, r, z)
    ensures forall x :: x in z <==> x in l || x in r
    decreases |z|
  {
    if z != [] {
      assert z == [z[0]] + z[1..];
      if l != [] && l[0] == z[0] && Interleaved(l[1..], r, z[1..]) {
        InterleavedMembers(l[1..], r, z[1..]);
        assert l == [l[0]] + l[1..];
      } else {
        InterleavedMembers(l, r[1..], z[1..]);
        assert r == [r[0]] + r[1..];
      }
    }
  }

  lemma {:induction false} RunMembers<T(!new)>(job: Job<T>, trace: seq<Write<T>>)
    requires IsRun(job, trace)
    ensures forall w :: w in trace <==> w in InOrder(job)
    decreases job
  {
    if job.Fork? {
      var l, r, z :| IsRun(job.left, l) && IsRun(job.right, r) && Interleaved(l, r, z) && trace == job.before + z;
      RunMembers(job.left, l);
      RunMembers(job.right, r);
      InterleavedMembers(l, r, z);
    }
    if job.Then? {
      var x, y :| IsRun(job.first, x) && IsRun(job.next, y) && trace == x + y;
      RunMembers(job.first, x);
      RunMembers(job.next, y);
    }
  }

  lemma DisjointMembers<T>(l: seq<Write<T>>, r: seq<Write<T>>, l': seq<Write<T>>, r': seq<Write<T>>)
    requires Disjoint(l, r)
    requires forall w :: w in l' ==> w in l
    requires forall w :: w in r' ==> w in r
    ensures Disjoint(l', r')
  {
    forall i, j | 0 <= i < |l'| && 0 <= j < |r'|
      ensures l'[i].pos != r'[j].pos
    {
      assert l'[i] in l && r'[j] in r;
      var a :| 0 <= a < |l| && l[a] == l'[i];
      var b :| 0 <= b < |r| && r[b] == r'[j];
    }
  }

  /** Every run of a race-free job leaves the same output. */
  lemma {:induction false} EveryRunAgrees<T(!new)>(out: seq<T>, job: Job<T>, trace: seq<Write<T>>)
    requires RaceFree(job) && IsRun(job, trace)
    ensures Apply(out, trace) == Apply(out, InOrder(job))
    decreases job
  {
    if job.Fork? {
      var l, r, z :| IsRun(job.left, l) && IsRun(job.right, r) && Interleaved(l, r, z) && trace == job.before + z;
      var start := Apply(out, job.before);
      RunMembers(job.left, l);
      RunMembers(job.right, r);
      DisjointMembers(InOrder(job.left), InOrder(job.right), l, r);
      ApplyConcat(out, job.before, z);
      InterleavingOfDisjoint(start, l, r, z);
      EveryRunAgrees(start, job.left, l);
      EveryRunAgrees(Apply(start, l), job.right, r);
      ApplyConcat(out, job.before, InOrder(job.left));
      ApplyConcat(out, job.before + InOrder(job.left), InOrder(job.right));
    }
    if job.Then? {
      var x, y :| IsRun(job.first, x) && IsRun(job.next, y) && trace == x + y;
      EveryRunAgrees(out, job.first, x);
      EveryRunAgrees(Apply(out, x), job.next, y);
      ApplyConcat(out, x, y);
      ApplyConcat(out, InOrder(job.first), InOrder(job.next));
    }
  }

  lemma {:induction false} OneAfterTheOther<T>(l: seq<T>, r: seq<T>)
    ensures Interleaved(l, r, l + r)
    decreases |l| + |r|
  {
    if l != [] {
      assert (l + r)[1..] == l[1..] + r;
      OneAfterTheOther(l[1..], r);
    } else if r != [] {
      assert l + r == r && l + r[1..] == r[1..];
      OneAfterTheOther(l, r[1..]);
    }
  }

  /** Running one subtask after the other is one of the runs. */
  lemma {:induction false} InOrderIsRun<T(!new)>(job: Job<T>)
    ensures IsRun(job, InOrder(job))
    decreases job
  {
    if job.Fork? {
      InOrderIsRun(job.left);
      InOrderIsRun(job.right);
      OneAfterTheOther(InOrder(job.left), InOrder(job.right));
      assert InOrder(job) == job.before + (InOrder(job.left) + InOrder(job.right));
    }
    if job.Then? {
      InOrderIsRun(job.first);
      InOrderIsRun(job.next);
    }
  }

  // ----- What a trace leaves behind -----

  /** The value each written position ends up with. */
  ghost function Content<T>(trace: seq<Write<T>>): map<int, T> {
    if trace == [] then map[]
    else Content(trace[..|trace| - 1])[trace[|trace| - 1].pos := trace[|trace| - 1].value]
  }

  ghost function Patch<T>(out: seq<T>, m: map<int, T>): (patched: seq<T>)
    ensures |patched| == |out| && forall i :: 0 <= i < |out| ==> patched[i] == if i in m then m[i] else out[i]
  {
    seq(|out|, i requires 0 <= i < |out| => if i in m then m[i] else out[i])
  }

  lemma {:induction false} ApplyIsPatch<T>(out: seq<T>, trace: seq<Write<T>>)
    ensures Apply(out, trace) == Patch(out, Content(trace))
    decreases |trace|
  {
    if trace == [] {
      assert Patch(out, map[]) == out;
    } else {
      var n := |trace| - 1;
      assert trace == trace[..n] + [trace[n]];
      ApplyConcat(out, trace[..n], [trace[n]]);
      assert Apply(Apply(out, trace[..n]), [trace[n]]) == Put(Apply(out, trace[..n]), trace[n]) by {
        assert [trace[n]][1..] == [];
      }
      ApplyIsPatch(out, trace[..n]);
    }
  }

  lemma {:induction false} ContentConcat<T>(a: seq<Write<T>>, b: seq<Write<T>>)
    ensures Content(a + b) == Content(a) + Content(b)
    decreases |b|
  {
    if b == [] {
      assert a + b == a && Content(a) + map[] == Content(a);
    } else {
      var n := |b| - 1;
      assert (a + b)[..|a + b| - 1] == a + b[..n];
      ContentConcat(a, b[..n]);
    }
  }

  lemma {:induction false} ContentKeys<T>(trace: seq<Write<T>>)
    ensures forall k :: 0 <= k < |trace| ==> trace[k].pos in Content(trace)
    ensures forall i :: i in Content(trace) ==> exists k :: 0 <= k < |trace| && trace[k].pos == i
    decreases |trace|
  {
    if trace != [] {
      ContentKeys(trace[..|trace| - 1]);
    }
  }

  lemma DisjointKeys<T>(l: seq<Write<T>>, r: seq<Write<T>>)
    ensures Disjoint(l, r) <==> Content(l).Keys !! Content(r).Keys
  {
    ContentKeys(l);
    ContentKeys(r);
    if Content(l).Keys !! Content(r).Keys {
      forall i, j | 0 <= i < |l| && 0 <= j < |r|
        ensures l[i].pos != r[j].pos
      {
        assert l[i].pos in Content(l).Keys && r[j].pos in Content(r).Keys;
      }
    }
  }

  /** A fork of two race-free jobs that write to different places is race-free, and does what both do. */
  lemma ForkContent<T>(before: seq<Write<T>>, left: Job<T>, right: Job<T>)
    requires RaceFree(left) && RaceFree(right)
    requires Content(InOrder(left)).Keys !! Content(InOrder(right)).Keys
    ensures RaceFree(Fork(before, left, right))
    ensures Content(InOrder(Fork(before, left, right))) == Content(before) + Content(InOrder(left)) + Content(InOrder(right))
  {
    DisjointKeys(InOrder(left), InOrder(right));
    ContentConcat(before + InOrder(left), InOrder(right));
    ContentConcat(before, InOrder(left));
  }

  lemma LeafIsRaceFree<T>(writes: seq<Write<T>>)
    ensures RaceFree(Leaf(writes)) && InOrder(Leaf(writes)) == writes
  {
  }

  /** The same for a fork that writes nothing itself. */
  lemma EmptyForkContent<T>(l: Job<T>, r: Job<T>)
    requires RaceFree(l) && RaceFree(r) && Content(InOrder(l)).Keys !! Content(InOrder(r)).Keys
    ensures RaceFree(Fork([], l, r)) && Content(InOrder(Fork([], l, r))) == Content(InOrder(l)) + Content(InOrder(r))
  {
    ForkContent([], l, r);
    var none: seq<Write<T>> := [];
    assert Content(none) == map[];
    assert map[] + Content(InOrder(l)) == Content(InOrder(l));
  }

  /** Main result: whatever order the writes of a race-free job take effect in, the output is the same. */
  lemma EveryRunPatches<T(!new)>(out: seq<T>, job: Job<T>, trace: seq<Write<T>>)
    requires RaceFree(job) && IsRun(job, trace)
    ensures Apply(out, trace) == Patch(out, Content(InOrder(job)))
  {
    EveryRunAgrees(out, job, trace);
    ApplyIsPatch(out, InOrder(job));
  }

  // ----- Writing consecutive elements -----

  /** The elements of xs, written one after the other from a position on. */
  function WritesAt<T>(at: int, xs: seq<T>): seq<Write<T>>
    decreases |xs|
  {
    if xs == [] then [] else WritesAt(at, xs[..|xs| - 1]) + [Write(at + |xs| - 1, xs[|xs| - 1])]
  }

  /** The elements of xs in consecutive places. */
  ghost function Placed<T>(at: int, xs: seq<T>): (m: map<int, T>)
    ensures forall i :: i in m <==> at <= i < at + |xs|
    ensures forall i :: i in m ==> m[i] == xs[i - at]
    decreases |xs|
  {
    if xs == [] then map[] else Placed(at, xs[..|xs| - 1])[at + |xs| - 1 := xs[|xs| - 1]]
  }

  /** The output with xs in place of what was there. */
  function Blit<T>(out: seq<T>, at: int, xs: seq<T>): seq<T>
    requires 0 <= at && at + |xs| <= |out|
  {
    out[..at] + xs + out[at + |xs|..]
  }

  lemma {:induction false} ContentWritesAt<T>(at: int, xs: seq<T>)
    ensures Content(WritesAt(at, xs)) == Placed(at, xs)
    decreases |xs|
  {
    if xs != [] {
      var n := |xs| - 1;
      var w := WritesAt(at, xs);
      assert w[..|w| - 1] == WritesAt(at, xs[..n]) && w[|w| - 1] == Write(at + n, xs[n]);
      ContentWritesAt(at, xs[..n]);
    }
  }

  lemma PlacedConcat<T>(at: int, xs: seq<T>, ys: seq<T>)
    ensures Placed(at, xs + ys) == Placed(at, xs) + Placed(at + |xs|, ys)
    ensures Placed(at, xs).Keys !! Placed(at + |xs|, ys).Keys
  {
  }

  lemma PatchPlaced<T>(out: seq<T>, at: int, xs: seq<T>)
    requires 0 <= at && at + |xs| <= |out|
    ensures Patch(out, Placed(at, xs)) == Blit(out, at, xs)
  {
  }

  lemma BlitNothing<T>(out: seq<T>, at: int, xs: seq<T>)
    requires 0 <= at <= |out| && |xs| == 0
    ensures Blit(out, at, xs) == out
  {
  }

  lemma BlitBlit<T>(out: seq<T>, at: int, xs: seq<T>, ys: seq<T>)
    requires 0 <= at && at + |xs| + |ys| <= |out|
    ensures Blit(Blit(out, at, xs), at + |xs|, ys) == Blit(out, at, xs + ys)
  {
  }

  lemma BlitsSwap<T>(out: seq<T>, at: int, xs: seq<T>, ys: seq<T>)
    requires 0 <= at && at + |xs| + |ys| <= |out|
    ensures Blit(Blit(out, at + |xs|, ys), at, xs) == Blit(out, at, xs + ys)
  {
  }

  lemma BlitNext<T>(out: seq<T>, at: int, xs: seq<T>, x: T)
    requires 0 <= at && at + |xs| < |out|
    ensures Blit(out, at, xs)[at + |xs| := x] == Blit(out, at, xs + [x])
  {
  }
}
