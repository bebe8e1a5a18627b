/** The failure function of the Knuth-Morris-Pratt matcher. */
module KmpTable {

  /** The first j elements of s[..k] are also its last j elements. */
  ghost predicate Border<T>(s: seq<T>, k: int, j: int) {
    0 <= j < k <= |s| && s[..j] == s[k - j..k]
  }

  ghost predicate LongestBorder<T>(s: seq<T>, k: int, v: int) {
    Border(s, k, v) && forall j :: Border(s, k, j) ==> j <= v
  }

  /** v is the longest border of s[..k] that is followed by something other than s[k], or -1 when there is none. */
  ghost predicate StrongBorder<T>(s: seq<T>, k: int, v: int) {
    && 0 <= k < |s|
    && (v == -1 || (Border(s, k, v) && s[v] != s[k]))
    && forall j :: Border(s, k, j) && s[j] != s[k] ==> j <= v
  }

  ghost predicate IsTable<T>(needle: seq<T>, table: seq<int>) {
    && |table| == |needle| + 1
    && (forall k :: 0 <= k < |needle| ==> StrongBorder(needle, k, table[k]))
    && (needle != [] ==> LongestBorder(needle, |needle|, table[|needle|]))
  }

  /** A border of a border is a border. */
  lemma BorderChain<T>(s: seq<T>, k: int, j: int, i: int)
    requires Border(s, k, j) && i < j
    ensures Border(s, k, i) <==> Border(s, j, i)
  {
  }

  lemma BorderExtend<T>(s: seq<T>, k: int, j: int)
    requires 0 <= j < k < |s|
    ensures Border(s, k + 1, j + 1) <==> Border(s, k, j) && s[j] == s[k]
  {
    assert s[..j + 1] == s[..j] + [s[j]];
    assert s[k - j..k + 1] == s[k - j..k] + [s[k]];
  }

  /** No border of s[..k] longer than v can be extended by s[k]. */
  ghost predicate NoneLonger<T>(s: seq<T>, k: int, v: int) {
    0 < k < |s| && forall j :: Border(s, k, j) && s[j] == s[k] ==> j <= v
  }

  /** Extending the longest border that can be extended gives the longest border of the longer prefix. */
  lemma LongestExtend<T>(s: seq<T>, k: int, v: int)
    requires NoneLonger(s, k, v) && (v == -1 || (Border(s, k, v) && s[v] == s[k]))
    ensures LongestBorder(s, k + 1, v + 1)
  {
    if v >= 0 {
      BorderExtend(s, k, v);
    } else {
      assert s[..0] == s[k + 1..k + 1];
    }
    var longer := k + 1;
    forall j | Border(s, longer, j)
      ensures j <= v + 1
    {
      if j > 0 { BorderExtend(s, k, j - 1); }
    }
  }

  /** An element that repeats the one after the longest border inherits that entry of the table. */
  lemma StrongInherits<T>(s: seq<T>, k: int, c: int, v: int)
    requires 0 < k < |s| && LongestBorder(s, k, c) && s[c] == s[k] && StrongBorder(s, c, v)
    ensures StrongBorder(s, k, v) && LongestBorder(s, k + 1, c + 1)
  {
    if v >= 0 { BorderChain(s, k, c, v); }
    forall j | Border(s, k, j) && s[j] != s[k]
      ensures j <= v
    {
      BorderChain(s, k, c, j);
    }
    LongestExtend(s, k, c);
  }

  /** Falling back through the table skips only borders that cannot be extended. */
  lemma FallBack<T>(s: seq<T>, k: int, c: int, v: int)
    requires Border(s, k, c) && NoneLonger(s, k, c) && s[c] != s[k] && StrongBorder(s, c, v)
    ensures -1 <= v < c && (v >= 0 ==> Border(s, k, v)) && NoneLonger(s, k, v)
  {
  }

  /** The first n entries are exact. */
  ghost predicate Built<T>(needle: seq<T>, table: seq<int>, n: int) {
    0 <= n <= |needle| < |table| && forall k :: 0 <= k < n ==> StrongBorder(needle, k, table[k])
  }

  /** The inner loop: follow the table until a border can be extended, or there is none. */
  method ShortenCandidate<T(==)>(needle: seq<T>, table: array<int>, index: int, start: int)
    returns (candidate: int, ghost comparisons: nat)
    requires LongestBorder(needle, index, start) && index < |needle| && needle[start] != needle[index]
    requires Built(needle, table[..], index)
    ensures -1 <= candidate < start && LongestBorder(needle, index + 1, candidate + 1)
    ensures comparisons <= start - candidate
  {
    candidate, comparisons := start, 0;
    while true
      invariant Border(needle, index, candidate) && NoneLonger(needle, index, candidate)
      invariant needle[candidate] != needle[index] && candidate <= start
      invariant comparisons <= start - candidate
      decreases candidate
    {
      FallBack(needle, index, candidate, table[candidate]);
      candidate := table[candidate];
      if candidate < 0 { break; }
      comparisons := comparisons + 1;
      if needle[index] == needle[candidate] { break; }
    }
    LongestExtend(needle, index, candidate);
  }

  lemma FirstBorder<T>(s: seq<T>, table: seq<int>)
    requires s != [] && |table| == |s| + 1 && table[0] == -1
    ensures LongestBorder(s, 1, 0) && Built(s, table, 1)
  {
  }

  lemma BorderRange<T>(s: seq<T>, k: int, v: int)
    requires LongestBorder(s, k, v)
    ensures 0 <= v < k <= |s|
  {
  }

  lemma DifferentIsStrong<T>(s: seq<T>, k: int, v: int)
    requires LongestBorder(s, k, v) && k < |s| && s[v] != s[k]
    ensures StrongBorder(s, k, v)
  {
  }

  lemma BuiltNext<T>(needle: seq<T>, before: seq<int>, after: seq<int>, n: int)
    requires 0 <= n < |needle| && Built(needle, before, n) && |before| == |after| && after == before[n := after[n]]
    requires StrongBorder(needle, n, after[n])
    ensures Built(needle, after, n + 1)
  {
  }

  /** The table is exact, and it is built with fewer than two element comparisons per needle element. */
  method BuildFailureFunction<T(==)>(needle: seq<T>) returns (table: array<int>, ghost comparisons: nat)
    ensures IsTable(needle, table[..])
    ensures needle == [] ==> table[0] == 0
    ensures comparisons <= 2 * |needle|
  {
    hide LongestBorder, StrongBorder;
    var items := |needle|;
    table := new int[items + 1];
    table[0] := -1;
    comparisons := 0;
    var candidate := 0;
    var index := 1;
    if items > 0 { FirstBorder(needle, table[..]); }
    while index < items
      invariant items == 0 ==> index == 1 && candidate == 0
      invariant items > 0 ==> 1 <= index <= items && LongestBorder(needle, index, candidate) && Built(needle, table[..], index)
      invariant comparisons <= 2 * (index - 1) - candidate
    {
      ghost var before := table[..];
      comparisons := comparisons + 1;
      BorderRange(needle, index, candidate);
      if needle[index] == needle[candidate] {
        StrongInherits(needle, index, candidate, table[candidate]);
        table[index] := table[candidate];
        BuiltNext(needle, before, table[..], index);
      } else {
        DifferentIsStrong(needle, index, candidate);
        table[index] := candidate;
        BuiltNext(needle, before, table[..], index);
        ghost var more;
        candidate, more := ShortenCandidate(needle, table, index, candidate);
        comparisons := comparisons + more;
      }
      index, candidate := index + 1, candidate + 1;
    }
    ghost var built := table[..];
    table[items] := candidate;
    assert items > 0 ==> Built(needle, table[..], items) by {
      assert forall k :: 0 <= k < items ==> table[..][k] == built[k];
    }
  }
}
