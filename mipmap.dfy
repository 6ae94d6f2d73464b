/** A one-dimensional mipmap: level 0 is a copy of the source, and every further level
    is the previous one downsampled by pairwise averaging, until a level of length at
    most 1 is reached. Elements are modelled as signed integers. */
module MipMap {

  datatype Option<T> = None | Some(value: T)

  function Min(a: int, b: int): int { if a <= b then a else b }

  /** The average of a full pair. The sum is halved through a floating-point
      intermediate and converted back to the integer element type, and that
      conversion drops the fraction: the result is (a + b) / 2 truncated toward zero. */
  function Avg(a: int, b: int): (r: int)
    ensures a <= b ==> a <= r <= b
    ensures b <= a ==> b <= r <= a
    ensures 0 <= a + b ==> 2 * r <= a + b <= 2 * r + 1
    ensures a + b < 0 ==> 2 * r - 1 <= a + b <= 2 * r
  {
    var sum := a + b;
    if sum >= 0 then sum / 2 else -((-sum) / 2)
  }

  /** The consecutive slices of `s` taken two at a time, left to right; when |s| is odd
      the last slice holds the one element left over. There are ceil(|s| / 2) of them,
      stated without division as 2|r| - 1 <= |s| <= 2|r|. */
  function Chunks(s: seq<int>): (r: seq<seq<int>>)
    ensures 2 * |r| - 1 <= |s| <= 2 * |r|
    ensures forall i :: 0 <= i < |r| ==> r[i] == s[2 * i .. Min(2 * i + 2, |s|)]
    ensures forall i :: 0 <= i < |r| ==> 1 <= |r[i]| <= 2
    ensures forall i :: 0 <= i < |r| - 1 ==> |r[i]| == 2
    decreases |s|
  {
    if |s| <= 2 then
      (if s == [] then [] else [s])
    else
      var rest := Chunks(s[2..]);
      var r := [s[..2]] + rest;
      assert forall i :: 1 <= i < |r| ==> r[i] == s[2 * i .. Min(2 * i + 2, |s|)] by {
        forall i | 1 <= i < |r| ensures r[i] == s[2 * i .. Min(2 * i + 2, |s|)] {
          SliceOfTail(s, 2 * i - 2, Min(2 * i, |s| - 2));
        }
      }
      r
  }

  /** A slice of the tail after the first pair is the slice of the whole, shifted by 2. */
  lemma SliceOfTail(s: seq<int>, a: int, b: int)
    requires |s| >= 2 && 0 <= a <= b <= |s| - 2
    ensures s[2..][a..b] == s[a + 2 .. b + 2]
  {
  }

  /** One output element per chunk: a lone element passes through unchanged, a pair
      becomes its average. A chunk of any other length cannot occur. */
  function Reduce(chunk: seq<int>): (r: int)
    requires 1 <= |chunk| <= 2
    ensures |chunk| == 1 ==> r == chunk[0]
    ensures |chunk| == 2 ==> r == Avg(chunk[0], chunk[1])
  {
    if |chunk| == 1 then chunk[0] else Avg(chunk[0], chunk[1])
  }

  /** The outputs for a list of chunks, one per chunk and in order, as the `map` over the
      chunks collects them. */
  function ReduceAll(chunks: seq<seq<int>>): (r: seq<int>)
    requires forall i :: 0 <= i < |chunks| ==> 1 <= |chunks[i]| <= 2
    ensures |r| == |chunks|
    ensures forall i {:trigger r[i]} :: 0 <= i < |r| ==> r[i] == Reduce(chunks[i])
  {
    if chunks == [] then [] else [Reduce(chunks[0])] + ReduceAll(chunks[1..])
  }

  /** `r` holds one output per chunk of `s`, in order. */
  ghost predicate ReducedChunks(s: seq<int>, chunks: seq<seq<int>>, r: seq<int>)
  {
    2 * |chunks| - 1 <= |s| <= 2 * |chunks| &&
    (forall i :: 0 <= i < |chunks| ==> chunks[i] == s[2 * i .. Min(2 * i + 2, |s|)]) &&
    (forall i :: 0 <= i < |chunks| ==> 1 <= |chunks[i]| <= 2) &&
    |r| == |chunks| &&
    (forall i :: 0 <= i < |r| ==> r[i] == Reduce(chunks[i]))
  }

  /** Output i of a level with a full pair at 2i and 2i + 1 is that pair's average. */
  lemma ReducedPair(s: seq<int>, chunks: seq<seq<int>>, r: seq<int>, i: nat)
    requires ReducedChunks(s, chunks, r) && 2 * i + 1 < |s|
    ensures i < |r| && r[i] == Avg(s[2 * i], s[2 * i + 1])
  {
    assert Min(2 * i + 2, |s|) == 2 * i + 2;
    assert chunks[i] == s[2 * i .. 2 * i + 2];
  }

  /** When the last chunk is a lone element, it is the last output unchanged. */
  lemma ReducedTail(s: seq<int>, chunks: seq<seq<int>>, r: seq<int>)
    requires ReducedChunks(s, chunks, r) && |s| == 2 * |chunks| - 1
    ensures r[|r| - 1] == s[|s| - 1]
  {
    var k := |chunks| - 1;
    assert Min(2 * k + 2, |s|) == |s|;
    assert chunks[k] == s[|s| - 1 ..];
  }

  /** ceil(n / 2) chunks, and a lone last element exactly when n is odd. */
  lemma ChunkCount(n: nat, c: nat)
    requires 2 * c - 1 <= n <= 2 * c
    ensures c == (n + 1) / 2
    ensures n % 2 == 1 <==> n == 2 * c - 1
    ensures n / 2 <= c
  {
  }

  /** Downsamples a level to ceil(|s| / 2) elements. */
  function Downsample(s: seq<int>): (r: seq<int>)
    ensures |r| == (|s| + 1) / 2
    ensures forall i {:trigger r[i]} :: 0 <= i < |s| / 2 ==> r[i] == Avg(s[2 * i], s[2 * i + 1])
    ensures |s| % 2 == 1 ==> r[|r| - 1] == s[|s| - 1]
  {
    var chunks := Chunks(s);
    var r := ReduceAll(chunks);
    assert ReducedChunks(s, chunks, r);
    ChunkCount(|s|, |chunks|);
    assert forall i {:trigger r[i]} :: 0 <= i < |s| / 2 ==> r[i] == Avg(s[2 * i], s[2 * i + 1]) by {
      forall i {:trigger r[i]} | 0 <= i < |s| / 2 ensures r[i] == Avg(s[2 * i], s[2 * i + 1]) {
        ReducedPair(s, chunks, r, i);
      }
    }
    if |s| == 2 * |chunks| - 1 then ReducedTail(s, chunks, r); r else r
  }

  /** The levels that construction stores for `source`, as a recursive definition. */
  function Pyramid(source: seq<int>): (levels: seq<seq<int>>)
    ensures |levels| >= 1 && levels[0] == source
    ensures |levels[|levels| - 1]| <= 1
    decreases |source|
  {
    if |source| <= 1 then [source] else [source] + Pyramid(Downsample(source))
  }

  /** The levels built so far: every level after the first is the downsampling of the
      one before it, and every level but the newest is longer than 1. */
  ghost predicate IsPartialPyramid(levels: seq<seq<int>>)
  {
    |levels| >= 1 &&
    (forall k :: 1 <= k < |levels| ==> levels[k] == Downsample(levels[k - 1])) &&
    (forall k :: 0 <= k < |levels| - 1 ==> |levels[k]| > 1)
  }

  /** The structural description of a well-formed pyramid, independent of how it is
      built: a partial pyramid whose last level is not longer than 1. */
  ghost predicate IsPyramid(levels: seq<seq<int>>)
  {
    IsPartialPyramid(levels) && |levels[|levels| - 1]| <= 1
  }

  /** The container: every level, finest first. */
  datatype MipMap1D = MipMap1D(data: seq<seq<int>>)
  {
    ghost predicate Valid()
    {
      IsPyramid(data)
    }

    /** The number of stored levels; a well-formed mipmap has at least one. */
    function NumLevels(): (n: nat)
      ensures n == |data|
      ensures Valid() ==> n >= 1
    {
      |data|
    }

    /** The level at `level`, or None when `level` is out of range. */
    function GetLevel(level: nat): (r: Option<seq<int>>)
      ensures r.None? <==> level >= NumLevels()
      ensures r.Some? ==> level < |data| && r.value == data[level]
    {
      if level >= NumLevels() then None else Some(data[level])
    }
  }

  /** One turn of the construction loop keeps the levels built so far a prefix of the
      pyramid, with the rest of the pyramid still to come from the newest level. */
  lemma PyramidStep(data: seq<seq<int>>, current: seq<int>, target: seq<seq<int>>)
    requires |current| > 1
    requires data + Pyramid(current)[1..] == target
    ensures (data + [Downsample(current)]) + Pyramid(Downsample(current))[1..] == target
  {
    var mipmap := Downsample(current);
    var rest := Pyramid(mipmap);
    assert Pyramid(current) == [current] + rest;
    assert Pyramid(current)[1..] == rest;
    assert rest == [mipmap] + rest[1..];
    ConcatShift(data, mipmap, rest[1..]);
  }

  lemma ConcatShift<T>(a: seq<T>, x: T, b: seq<T>)
    ensures a + ([x] + b) == (a + [x]) + b
  {
  }

  /** Appending the downsampling of the newest level, while that level is longer than 1,
      keeps a partial pyramid partial. */
  lemma ExtendPartialPyramid(levels: seq<seq<int>>)
    requires IsPartialPyramid(levels) && |levels[|levels| - 1]| > 1
    ensures IsPartialPyramid(levels + [Downsample(levels[|levels| - 1])])
  {
    var next := levels + [Downsample(levels[|levels| - 1])];
    forall k | 1 <= k < |next| ensures next[k] == Downsample(next[k - 1]) {
      if k < |levels| {
        assert next[k] == levels[k] && next[k - 1] == levels[k - 1];
      }
    }
  }

  /** Builds the mipmap: stores `source` as level 0, then keeps downsampling the most
      recent level and appending the result while that level is longer than 1. */
  method New(source: seq<int>) returns (m: MipMap1D)
    ensures m.data == Pyramid(source)
    ensures m.data[0] == source
    ensures m.Valid()
  {
    var data := [source];
    var current := source;
    while |current| > 1
      invariant IsPartialPyramid(data) && data[0] == source
      invariant current == data[|data| - 1]
      invariant data + Pyramid(current)[1..] == Pyramid(source)
      decreases |current|
    {
      var mipmap := Downsample(current);
      PyramidStep(data, current, Pyramid(source));
      ExtendPartialPyramid(data);
      current := mipmap;
      data := data + [mipmap];
    }
    assert Pyramid(current)[1..] == [];
    assert data + [] == data;
    m := MipMap1D(data);
  }
}
