/** The Knuth-Morris-Pratt matcher: one chunk of the haystack, searched from left to right. */
module KmpMatcher {
  import opened KmpTable

  ghost predicate Occurs<T>(chunk: seq<T>, needle: seq<T>, i: int) {
    0 <= i && i + |needle| <= |chunk| && chunk[i..i + |needle|] == needle
  }

  /** base + i for every position i of [lo, hi) at which the needle occurs, in increasing order. */
  ghost function Occurrences<T>(chunk: seq<T>, needle: seq<T>, base: int, lo: int, hi: int): seq<int>
    decreases hi - lo
  {
    if lo >= hi then []
    else Occurrences(chunk, needle, base, lo, hi - 1) + (if Occurs(chunk, needle, hi - 1) then [base + hi - 1] else [])
  }

  /** All occurrences in the chunk. */
  ghost function AllOccurrences<T>(chunk: seq<T>, needle: seq<T>, base: int): seq<int> {
    Occurrences(chunk, needle, base, 0, |chunk|)
  }

  lemma {:induction false} OccurrencesSplit<T>(chunk: seq<T>, needle: seq<T>, base: int, lo: int, mid: int, hi: int)
    requires lo <= mid <= hi
    ensures Occurrences(chunk, needle, base, lo, hi)
            == Occurrences(chunk, needle, base, lo, mid) + Occurrences(chunk, needle, base, mid, hi)
    decreases hi - mid
  {
    if mid < hi {
      OccurrencesSplit(chunk, needle, base, lo, mid, hi - 1);
    }
  }

  lemma {:induction false} OccurrencesNone<T>(chunk: seq<T>, needle: seq<T>, base: int, lo: int, hi: int)
    requires forall i :: lo <= i < hi ==> !Occurs(chunk, needle, i)
    ensures Occurrences(chunk, needle, base, lo, hi) == []
    decreases hi - lo
  {
    if lo < hi {
      OccurrencesNone(chunk, needle, base, lo, hi - 1);
    }
  }

  ghost predicate Increasing(xs: seq<int>) {
    forall i, j :: 0 <= i < j < |xs| ==> xs[i] < xs[j]
  }

  /** The list of occurrences is complete, contains nothing else, and is strictly increasing. */
  lemma {:induction false} OccurrencesMeaning<T>(chunk: seq<T>, needle: seq<T>, base: int, lo: int, hi: int)
    ensures forall x :: x in Occurrences(chunk, needle, base, lo, hi) <==> lo <= x - base < hi && Occurs(chunk, needle, x - base)
    ensures Increasing(Occurrences(chunk, needle, base, lo, hi))
    decreases hi - lo
  {
    hide Occurs, Increasing;
    if lo < hi {
      var before := Occurrences(chunk, needle, base, lo, hi - 1);
      OccurrencesMeaning(chunk, needle, base, lo, hi - 1);
      IncreasingAppend(before, base + hi - 1);
      if Occurs(chunk, needle, hi - 1) {
        assert Occurrences(chunk, needle, base, lo, hi) == before + [base + hi - 1];
        assert forall x :: x in before + [base + hi - 1] <==> x in before || x == base + hi - 1;
      } else {
        assert Occurrences(chunk, needle, base, lo, hi) == before;
        assert !Occurs(chunk, needle, base + hi - 1 - base);
      }
    } else {
      NothingIncreases();
    }
  }

  lemma NothingIncreases()
    ensures Increasing([])
  {
  }

  lemma IncreasingAppend(xs: seq<int>, x: int)
    requires Increasing(xs) && forall y :: y in xs ==> y < x
    ensures Increasing(xs + [x])
  {
    forall i | 0 <= i < |xs|
      ensures xs[i] < x
    {
      assert xs[i] in xs;
    }
  }

  /** What a functor has become after it was called with each index in turn. */
  ghost function Report<F>(call: (F, int) -> F, functor: F, xs: seq<int>): F {
    if xs == [] then functor else call(Report(call, functor, xs[..|xs| - 1]), xs[|xs| - 1])
  }

  /** The needle may still occur at start: its first `matched` elements have been found there. */
  ghost predicate Alive<T>(chunk: seq<T>, needle: seq<T>, start: int, matched: int) {
    0 <= start && 0 <= matched <= |needle| && start + matched <= |chunk| && chunk[start..start + matched] == needle[..matched]
  }

  lemma AliveExtend<T>(chunk: seq<T>, needle: seq<T>, start: int, matched: int)
    requires Alive(chunk, needle, start, matched) && start + matched < |chunk| && matched < |needle|
    requires chunk[start + matched] == needle[matched]
    ensures Alive(chunk, needle, start, matched + 1)
  {
    assert chunk[start..start + matched + 1] == chunk[start..start + matched] + [chunk[start + matched]];
    assert needle[..matched + 1] == needle[..matched] + [needle[matched]];
  }

  /** Between start and its border no occurrence can begin without itself being a border. */
  lemma OccurrenceIsBorder<T>(chunk: seq<T>, needle: seq<T>, start: int, matched: int, i: int)
    requires Alive(chunk, needle, start, matched) && start < i < start + matched && Occurs(chunk, needle, i)
    ensures Border(needle, matched, start + matched - i)
    ensures start + matched < |chunk| ==> chunk[start + matched] == needle[start + matched - i]
  {
  }

  /** A border of the matched part starts a new partial match that ends at the same place. */
  lemma AliveBorder<T>(chunk: seq<T>, needle: seq<T>, start: int, matched: int, j: int)
    requires Alive(chunk, needle, start, matched) && Border(needle, matched, j)
    ensures Alive(chunk, needle, start + matched - j, j)
  {
  }

  lemma OccursAt<T>(chunk: seq<T>, needle: seq<T>, i: int, d: int)
    requires Occurs(chunk, needle, i) && 0 <= d < |needle|
    ensures chunk[i + d] == needle[d]
  {
  }

  /** After a mismatch the table's entry skips no occurrence. */
  lemma MismatchSkips<T>(chunk: seq<T>, needle: seq<T>, start: int, matched: int, v: int, i: int)
    requires Alive(chunk, needle, start, matched) && start + matched < |chunk| && matched < |needle|
    requires chunk[start + matched] != needle[matched] && StrongBorder(needle, matched, v)
    requires start <= i && Occurs(chunk, needle, i)
    ensures i >= start + matched - v
  {
    var o := start + matched;
    if i == start {
      OccursAt(chunk, needle, i, matched);
      assert false;
    } else if i < o {
      OccurrenceIsBorder(chunk, needle, start, matched, i);
    } else if i == o {
      OccursAt(chunk, needle, i, 0);
      assert needle[..0] == needle[matched - 0..matched];
      assert Border(needle, matched, 0);
    }
  }

  lemma AfterMismatch<T>(chunk: seq<T>, needle: seq<T>, base: int, start: int, matched: int, v: int)
    requires Alive(chunk, needle, start, matched) && start + matched < |chunk| && matched < |needle|
    requires chunk[start + matched] != needle[matched] && StrongBorder(needle, matched, v)
    ensures v < matched
    ensures Occurrences(chunk, needle, base, 0, start + matched - v) == Occurrences(chunk, needle, base, 0, start)
    ensures v >= 0 ==> Alive(chunk, needle, start + matched - v, v)
    ensures v < 0 ==> Alive(chunk, needle, start + matched + 1, 0)
  {
    var o := start + matched;
    forall i | start <= i < o - v
      ensures !Occurs(chunk, needle, i)
    {
      if Occurs(chunk, needle, i) { MismatchSkips(chunk, needle, start, matched, v, i); }
    }
    OccurrencesNone(chunk, needle, base, start, o - v);
    OccurrencesSplit(chunk, needle, base, 0, start, o - v);
    if v >= 0 {
      AliveBorder(chunk, needle, start, matched, v);
    } else {
      assert chunk[o + 1..o + 1] == needle[..0];
    }
  }

  lemma NoneBeforeBorder<T>(chunk: seq<T>, needle: seq<T>, base: int, start: int, v: int)
    requires Alive(chunk, needle, start, |needle|) && LongestBorder(needle, |needle|, v)
    ensures Occurrences(chunk, needle, base, start + 1, start + |needle| - v) == []
  {
    forall i | start < i < start + |needle| - v
      ensures !Occurs(chunk, needle, i)
    {
      if Occurs(chunk, needle, i) { OccurrenceIsBorder(chunk, needle, start, |needle|, i); }
    }
    OccurrencesNone(chunk, needle, base, start + 1, start + |needle| - v);
  }

  /** After a full match the table's last entry skips no occurrence but the one just found. */
  lemma AfterMatch<T>(chunk: seq<T>, needle: seq<T>, base: int, start: int, v: int)
    requires Alive(chunk, needle, start, |needle|) && LongestBorder(needle, |needle|, v)
    ensures Occurrences(chunk, needle, base, 0, start + |needle| - v) == Occurrences(chunk, needle, base, 0, start) + [base + start]
    ensures Alive(chunk, needle, start + |needle| - v, v)
  {
    var m := |needle|;
    assert needle[..m] == needle;
    NoneBeforeBorder(chunk, needle, base, start, v);
    OccurrencesSplit(chunk, needle, base, 0, start + 1, start + m - v);
    AliveBorder(chunk, needle, start, m, v);
  }

  /** When the chunk is used up, no occurrence can start at the current partial match or later. */
  lemma AtEnd<T>(chunk: seq<T>, needle: seq<T>, base: int, start: int)
    requires 0 <= start <= |chunk| && start + |needle| > |chunk|
    ensures AllOccurrences(chunk, needle, base) == Occurrences(chunk, needle, base, 0, start)
  {
    OccurrencesNone(chunk, needle, base, start, |chunk|);
    OccurrencesSplit(chunk, needle, base, 0, start, |chunk|);
  }

  lemma ReportOne<F>(call: (F, int) -> F, functor: F, xs: seq<int>, x: int)
    ensures Report(call, functor, xs + [x]) == call(Report(call, functor, xs), x)
  {
  }

  /** The state of the matcher's loop: everything before the partial match has been reported. */
  ghost predicate Searching<T, F>(needle: seq<T>, chunk: seq<T>, base: int, call: (F, int) -> F, functor: F,
                                  haystackOffset: int, needleOffset: int, result: F)
  {
    && 0 <= needleOffset < |needle| && haystackOffset <= |chunk|
    && Alive(chunk, needle, haystackOffset - needleOffset, needleOffset)
    && result == Report(call, functor, Occurrences(chunk, needle, base, 0, haystackOffset - needleOffset))
  }

  lemma PartialStep<T, F>(needle: seq<T>, chunk: seq<T>, base: int, call: (F, int) -> F, functor: F, h: int, n: int, result: F)
    requires Searching(needle, chunk, base, call, functor, h, n, result)
    requires h < |chunk| && chunk[h] == needle[n] && n + 1 < |needle|
    ensures Searching(needle, chunk, base, call, functor, h + 1, n + 1, result)
  {
    AliveExtend(chunk, needle, h - n, n);
    assert (h + 1) - (n + 1) == h - n;
  }

  lemma FullStep<T, F>(needle: seq<T>, v: int, chunk: seq<T>, base: int, call: (F, int) -> F, functor: F,
                       h: int, n: int, result: F)
    requires Searching(needle, chunk, base, call, functor, h, n, result) && LongestBorder(needle, |needle|, v)
    requires h < |chunk| && chunk[h] == needle[n] && n + 1 == |needle|
    ensures v <= n && Searching(needle, chunk, base, call, functor, h + 1, v, call(result, base + h + 1 - |needle|))
  {
    hide Occurrences, Report, Alive, LongestBorder;
    var start := h - n;
    AliveExtend(chunk, needle, start, n);
    AfterMatch(chunk, needle, base, start, v);
    ReportOne(call, functor, Occurrences(chunk, needle, base, 0, start), base + start);
    assert base + start == base + h + 1 - |needle| && start + |needle| - v == h + 1 - v;
  }

  lemma DifferentStep<T, F>(needle: seq<T>, v: int, chunk: seq<T>, base: int, call: (F, int) -> F, functor: F,
                            h: int, n: int, result: F)
    requires Searching(needle, chunk, base, call, functor, h, n, result) && StrongBorder(needle, n, v)
    requires h < |chunk| && chunk[h] != needle[n]
    ensures -1 <= v < n
    ensures v >= 0 ==> Searching(needle, chunk, base, call, functor, h, v, result)
    ensures v == -1 ==> Searching(needle, chunk, base, call, functor, h + 1, 0, result)
  {
    AfterMismatch(chunk, needle, base, h - n, n, v);
  }

  /**
    Calls the functor with the index of every occurrence, overlapping ones included, in increasing
    order, and compares elements at most twice as often as the chunk is long.
   */
  method Match<T(==), F>(needle: seq<T>, table: array<int>, chunk: seq<T>, beginIndex: int,
                         call: (F, int) -> F, functor: F) returns (result: F, ghost comparisons: nat)
    requires needle != [] && IsTable(needle, table[..])
    ensures result == Report(call, functor, AllOccurrences(chunk, needle, beginIndex))
    ensures comparisons <= 2 * |chunk|
  {
    result := functor;
    comparisons := 0;
    var haystackOffset, needleOffset := 0, 0;
    while haystackOffset != |chunk|
      invariant Searching(needle, chunk, beginIndex, call, functor, haystackOffset, needleOffset, result)
      invariant comparisons <= 2 * haystackOffset - needleOffset
      decreases |chunk| - haystackOffset, needleOffset
    {
      comparisons := comparisons + 1;
      if chunk[haystackOffset] == needle[needleOffset] {
        if needleOffset + 1 == |needle| {
          TableEnd(needle, table[..]);
          FullStep(needle, table[|needle|], chunk, beginIndex, call, functor, haystackOffset, needleOffset, result);
        } else {
          PartialStep(needle, chunk, beginIndex, call, functor, haystackOffset, needleOffset, result);
        }
        needleOffset := needleOffset + 1;
        haystackOffset := haystackOffset + 1;
        if needleOffset == |needle| {
          result := call(result, beginIndex + haystackOffset - |needle|);
          needleOffset := table[needleOffset];
        }
      } else {
        TableAt(needle, table[..], needleOffset);
        DifferentStep(needle, table[needleOffset], chunk, beginIndex, call, functor, haystackOffset, needleOffset, result);
        needleOffset := table[needleOffset];
        if needleOffset < 0 {
          needleOffset := needleOffset + 1;
          haystackOffset := haystackOffset + 1;
        }
      }
    }
    AtEnd(chunk, needle, beginIndex, haystackOffset - needleOffset);
  }

  lemma TableAt<T>(needle: seq<T>, table: seq<int>, k: int)
    requires IsTable(needle, table) && 0 <= k < |needle|
    ensures StrongBorder(needle, k, table[k])
  {
  }

  lemma TableEnd<T>(needle: seq<T>, table: seq<int>)
    requires IsTable(needle, table) && needle != []
    ensures LongestBorder(needle, |needle|, table[|needle|])
  {
  }
}
