/** `chunking(items, chunk_size)`: split an ordered sequence into consecutive groups.
    The generator keeps a buffer, appends each item to it and hands the buffer out
    as soon as its length reaches `chunk_size`; a non-empty remainder is handed out
    at the end. The same function appears in four modules of the library. */
module Chunker {
  import opened Builtins

  /** The length at which the buffer is flushed. The test `len(chunk) >= chunk_size`
      holds for every buffer of length 1 when `chunk_size <= 1`, so any such size,
      zero and negatives included, behaves like 1. */
  function Width(chunkSize: int): (w: nat)
    ensures w >= 1
    ensures chunkSize >= 1 ==> w == chunkSize
  {
    if chunkSize <= 1 then 1 else chunkSize
  }

  /** Specification of the groups handed out: the first `Width(chunkSize)` items
      (or all of them, if fewer), then the groups of the rest. */
  function Chunks<T>(items: seq<T>, chunkSize: int): seq<seq<T>>
    decreases |items|
  {
    if items == [] then []
    else
      var m := Min(Width(chunkSize), |items|);
      [items[..m]] + Chunks(items[m..], chunkSize)
  }

  /** Concatenation of a sequence of lists (`results.extend(output)` over all outputs). */
  function Flatten<T>(groups: seq<seq<T>>): seq<T> {
    if groups == [] then [] else groups[0] + Flatten(groups[1..])
  }

  lemma {:induction false} FlattenAppend<T>(a: seq<seq<T>>, b: seq<seq<T>>)
    ensures Flatten(a + b) == Flatten(a) + Flatten(b)
    decreases |a|
  {
    if a == [] {
      assert a + b == b;
    } else {
      assert (a + b)[1..] == a[1..] + b;
      FlattenAppend(a[1..], b);
    }
  }

  /** `s` splits into groups of exactly `w` items, with nothing left over. */
  predicate WholeGroups<T>(s: seq<T>, w: nat)
    requires w >= 1
    decreases |s|
  {
    s == [] || (|s| >= w && WholeGroups(s[w..], w))
  }

  lemma {:induction false} WholeGroupsAppend<T>(s: seq<T>, c: seq<T>, w: nat)
    requires w >= 1 && WholeGroups(s, w) && |c| == w
    ensures WholeGroups(s + c, w)
    decreases |s|
  {
    if s == [] {
      assert (s + c)[w..] == [];
    } else {
      assert (s + c)[w..] == s[w..] + c;
      WholeGroupsAppend(s[w..], c, w);
    }
  }

  /** Chunking a concatenation whose first part is a whole number of groups. */
  lemma {:induction false} ChunksAppend<T>(s: seq<T>, t: seq<T>, chunkSize: int)
    requires WholeGroups(s, Width(chunkSize))
    ensures Chunks(s + t, chunkSize) == Chunks(s, chunkSize) + Chunks(t, chunkSize)
    decreases |s|
  {
    var w := Width(chunkSize);
    if s == [] {
      assert s + t == t;
    } else {
      assert (s + t)[..w] == s[..w];
      assert (s + t)[w..] == s[w..] + t;
      ChunksAppend(s[w..], t, chunkSize);
    }
  }

  /** A non-empty buffer no longer than the width is handed out as one group. */
  lemma ChunksOfOneGroup<T>(c: seq<T>, chunkSize: int)
    requires 1 <= |c| <= Width(chunkSize)
    ensures Chunks(c, chunkSize) == [c]
  {
    assert c[..|c|] == c;
    assert c[|c|..] == [];
  }

  /** The generator itself: the buffer `chunk` accumulates items and is flushed into
      the output as soon as `|chunk| >= chunkSize`; a non-empty remainder is flushed
      after the loop. */
  method Chunking<T>(items: seq<T>, chunkSize: int) returns (chunks: seq<seq<T>>)
    ensures chunks == Chunks(items, chunkSize)
  {
    var w := Width(chunkSize);
    chunks := [];
    var chunk: seq<T> := [];
    var i := 0;
    while i < |items|
      invariant 0 <= |chunk| <= i <= |items|
      invariant |chunk| < w
      invariant WholeGroups(items[..i - |chunk|], w)
      invariant chunk == items[i - |chunk|..i]
      invariant chunks == Chunks(items[..i - |chunk|], chunkSize)
    {
      var start := i - |chunk|;
      chunk := chunk + [items[i]];
      i := i + 1;
      assert chunk == items[start..i];
      if |chunk| >= chunkSize {
        assert |chunk| == w;
        assert items[..i] == items[..start] + chunk;
        ChunksAppend(items[..start], chunk, chunkSize);
        ChunksOfOneGroup(chunk, chunkSize);
        WholeGroupsAppend(items[..start], chunk, w);
        chunks := chunks + [chunk];
        chunk := [];
      }
    }
    var start := i - |chunk|;
    assert items == items[..start] + chunk;
    ChunksAppend(items[..start], chunk, chunkSize);
    if |chunk| > 0 {
      ChunksOfOneGroup(chunk, chunkSize);
      chunks := chunks + [chunk];
    } else {
      assert Chunks(chunk, chunkSize) == [];
    }
  }

  /** Joining the groups back together gives the input, in order. */
  lemma {:induction false} FlattenChunks<T>(items: seq<T>, chunkSize: int)
    ensures Flatten(Chunks(items, chunkSize)) == items
    decreases |items|
  {
    if items != [] {
      var m := Min(Width(chunkSize), |items|);
      FlattenChunks(items[m..], chunkSize);
      assert items[..m] + items[m..] == items;
    }
  }

  /** Every group but the last holds exactly `Width(chunkSize)` items; the last one
      holds between 1 and `Width(chunkSize)`; no group is empty; an empty input gives
      no group at all. */
  lemma {:induction false} ChunkLengths<T>(items: seq<T>, chunkSize: int)
    ensures var cs := Chunks(items, chunkSize);
      && (items == [] <==> cs == [])
      && (forall i :: 0 <= i < |cs| - 1 ==> |cs[i]| == Width(chunkSize))
      && (cs != [] ==> 1 <= |cs[|cs| - 1]| <= Width(chunkSize))
    decreases |items|
  {
    if items != [] {
      var m := Min(Width(chunkSize), |items|);
      ChunkLengths(items[m..], chunkSize);
    }
  }

  lemma DivideExactly(a: int, w: int, q: int)
    requires w >= 1 && q * w <= a < q * w + w
    ensures a / w == q
  {
    var q', r' := a / w, a % w;
    assert a == q' * w + r' && 0 <= r' < w;
    var d := q' - q;
    assert d * w == q' * w - q * w;
  }

  lemma CeilStep(n: int, w: int)
    requires 1 <= w <= n
    ensures (n + w - 1) / w == (n - w + w - 1) / w + 1
  {
    var k := (n - 1) / w;
    var r := (n - 1) % w;
    assert n - 1 == k * w + r && 0 <= r < w;
    assert (k + 1) * w == k * w + w;
    DivideExactly(n + w - 1, w, k + 1);
  }

  lemma CeilSmall(n: int, w: int)
    requires 0 <= n <= w && 1 <= w
    ensures (n + w - 1) / w == if n == 0 then 0 else 1
  {
    if n == 0 {
      DivideExactly(w - 1, w, 0);
    } else {
      DivideExactly(n + w - 1, w, 1);
    }
  }

  /** The number of groups is the ceiling of `|items| / Width(chunkSize)`. */
  lemma {:induction false} ChunkCount<T>(items: seq<T>, chunkSize: int)
    ensures |Chunks(items, chunkSize)| == (|items| + Width(chunkSize) - 1) / Width(chunkSize)
    decreases |items|
  {
    var w := Width(chunkSize);
    var n := |items|;
    if n <= w {
      CeilSmall(n, w);
      if n > 0 {
        ChunksOfOneGroup(items, chunkSize);
      }
    } else {
      ChunkCount(items[w..], chunkSize);
      CeilStep(n, w);
    }
  }

  /** With `chunkSize <= 1` (0 and negative sizes included) nothing fails: every item
      becomes a group of its own. */
  lemma {:induction false} SmallSizeGivesSingletons<T>(items: seq<T>, chunkSize: int)
    requires chunkSize <= 1
    ensures |Chunks(items, chunkSize)| == |items|
    ensures forall i :: 0 <= i < |items| ==> Chunks(items, chunkSize)[i] == [items[i]]
    decreases |items|
  {
    if items != [] {
      SmallSizeGivesSingletons(items[1..], chunkSize);
      var cs := Chunks(items, chunkSize);
      assert cs == [items[..1]] + Chunks(items[1..], chunkSize);
      forall i | 0 <= i < |items|
        ensures cs[i] == [items[i]]
      {
        if i > 0 {
          assert cs[i] == Chunks(items[1..], chunkSize)[i - 1];
        }
      }
    }
  }
}
