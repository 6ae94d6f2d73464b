/** Properties of the mipmap model: how downsampling splits and shrinks a level, what
    the stored levels look like, how many there are, and how much they store. */
module MipMapProperties {
  import opened MipMap

  /** Concatenation of a sequence of slices. */
  function Flatten(chunks: seq<seq<int>>): seq<int>
  {
    if chunks == [] then [] else chunks[0] + Flatten(chunks[1..])
  }

  /** Splitting into chunks loses and reorders nothing. */
  lemma {:induction false} ChunksFlatten(s: seq<int>)
    ensures Flatten(Chunks(s)) == s
    decreases |s|
  {
    if |s| > 2 {
      var c := Chunks(s);
      assert c[0] == s[..2];
      assert c[1..] == Chunks(s[2..]) by {
        var rest := Chunks(s[2..]);
        assert |c[1..]| == |rest|;
        forall i | 0 <= i < |rest| ensures c[1..][i] == rest[i] {
          assert c[i + 1] == s[2 * (i + 1) .. Min(2 * (i + 1) + 2, |s|)];
        }
      }
      ChunksFlatten(s[2..]);
      assert s == s[..2] + s[2..];
    }
  }

  /** While a level is longer than 1, downsampling it gives a strictly shorter, non-empty
      level: the construction loop makes progress and never downsamples an empty level. */
  lemma DownsampleShrinks(s: seq<int>)
    requires |s| > 1
    ensures 1 <= |Downsample(s)| < |s|
  {
  }

  ghost predicate WithinRange(s: seq<int>, lo: int, hi: int)
  {
    forall i :: 0 <= i < |s| ==> lo <= s[i] <= hi
  }

  /** Downsampling never produces a value outside the range of its input. */
  lemma DownsampleWithinRange(s: seq<int>, lo: int, hi: int)
    requires WithinRange(s, lo, hi)
    ensures WithinRange(Downsample(s), lo, hi)
  {
  }

  /** Every level stored for a source lies within any range the source lies within. */
  lemma {:induction false} PyramidWithinRange(source: seq<int>, lo: int, hi: int)
    requires WithinRange(source, lo, hi)
    ensures forall k :: 0 <= k < |Pyramid(source)| ==> WithinRange(Pyramid(source)[k], lo, hi)
    decreases |source|
  {
    if |source| > 1 {
      var d := Downsample(source);
      DownsampleWithinRange(source, lo, hi);
      PyramidWithinRange(d, lo, hi);
      assert Pyramid(source) == [source] + Pyramid(d);
    }
  }

  /** The recursive definition meets the structural description. */
  lemma {:induction false} PyramidIsPyramid(source: seq<int>)
    ensures IsPyramid(Pyramid(source))
    decreases |source|
  {
    if |source| > 1 {
      var d := Downsample(source);
      PyramidIsPyramid(d);
      var p := Pyramid(source);
      assert p == [source] + Pyramid(d);
      forall k | 1 <= k < |p| ensures p[k] == Downsample(p[k - 1]) {
        if k > 1 {
          assert p[k] == Pyramid(d)[k - 1] && p[k - 1] == Pyramid(d)[k - 2];
        }
      }
      forall k | 0 <= k < |p| - 1 ensures |p[k]| > 1 {
        if k > 0 {
          assert p[k] == Pyramid(d)[k - 1];
        }
      }
    }
  }

  /** The structural description admits exactly one pyramid per first level, the one the
      recursive definition gives. */
  lemma {:induction false} PyramidUnique(levels: seq<seq<int>>)
    requires IsPyramid(levels)
    ensures levels == Pyramid(levels[0])
    decreases |levels|
  {
    if |levels| > 1 {
      var tail := levels[1..];
      assert IsPyramid(tail) by {
        forall k | 1 <= k < |tail| ensures tail[k] == Downsample(tail[k - 1]) {
          assert tail[k] == levels[k + 1] && tail[k - 1] == levels[k];
        }
        forall k | 0 <= k < |tail| - 1 ensures |tail[k]| > 1 {
          assert tail[k] == levels[k + 1];
        }
      }
      PyramidUnique(tail);
      assert levels == [levels[0]] + tail;
    }
  }

  /** A pyramid is exactly the levels built from its first level: the structural
      description and the recursive definition agree in both directions. */
  lemma PyramidCharacterization(levels: seq<seq<int>>, source: seq<int>)
    ensures (IsPyramid(levels) && levels[0] == source) <==> levels == Pyramid(source)
  {
    if IsPyramid(levels) && levels[0] == source {
      PyramidUnique(levels);
    }
    if levels == Pyramid(source) {
      PyramidIsPyramid(source);
    }
  }

  /** Each level after the first holds ceil(n / 2) elements of the n before it. */
  lemma LevelLengths(m: MipMap1D)
    requires m.Valid()
    ensures forall k :: 1 <= k < m.NumLevels() ==> |m.data[k]| == (|m.data[k - 1]| + 1) / 2
  {
  }

  /** An empty source gives exactly one empty level; any other source ends in a level of
      exactly one element. */
  lemma TerminalLevel(m: MipMap1D)
    requires m.Valid()
    ensures |m.data[0]| == 0 ==> m.data == [[]]
    ensures |m.data[0]| >= 1 ==> |m.data[m.NumLevels() - 1]| == 1
  {
    var n := m.NumLevels();
    if n > 1 {
      assert m.data[n - 1] == Downsample(m.data[n - 2]);
    }
  }

  function Pow2(k: nat): (p: nat)
    ensures p >= 1
  {
    if k == 0 then 1 else 2 * Pow2(k - 1)
  }

  /** k is ceil(log2 n): the least exponent whose power of two reaches n. */
  ghost predicate IsCeilLog2(n: nat, k: nat)
  {
    n <= Pow2(k) && (k == 0 || Pow2(k - 1) < n)
  }

  lemma {:induction false} Pow2Monotone(i: nat, j: nat)
    requires i <= j
    ensures Pow2(i) <= Pow2(j)
    decreases j
  {
    if i < j {
      Pow2Monotone(i, j - 1);
    }
  }

  /** IsCeilLog2 names at most one exponent for each n. */
  lemma CeilLog2Unique(n: nat, k1: nat, k2: nat)
    requires IsCeilLog2(n, k1) && IsCeilLog2(n, k2)
    ensures k1 == k2
  {
    if k1 < k2 {
      Pow2Monotone(k1, k2 - 1);
    } else if k2 < k1 {
      Pow2Monotone(k2, k1 - 1);
    }
  }

  /** A source of N >= 1 elements yields ceil(log2 N) + 1 levels. */
  lemma {:induction false} PyramidLevelCount(source: seq<int>)
    requires |source| >= 1
    ensures IsCeilLog2(|source|, |Pyramid(source)| - 1)
    decreases |source|
  {
    if |source| > 1 {
      var d := Downsample(source);
      PyramidLevelCount(d);
      var k := |Pyramid(d)| - 1;
      CeilLog2OfHalf(|source|, k);
      assert |Pyramid(source)| - 1 == k + 1;
    }
  }

  /** If ceil(n / 2) needs k doublings of 1 to be reached, n needs k + 1. */
  lemma CeilLog2OfHalf(n: nat, k: nat)
    requires n > 1 && IsCeilLog2((n + 1) / 2, k)
    ensures IsCeilLog2(n, k + 1)
  {
    assert Pow2(k + 1) == 2 * Pow2(k);
    if k > 0 {
      assert Pow2(k) == 2 * Pow2(k - 1);
    }
  }

  /** The number of levels of a well-formed mipmap of N >= 1 elements is
      ceil(log2 N) + 1. */
  lemma NumLevelsIsCeilLog2PlusOne(m: MipMap1D)
    requires m.Valid() && |m.data[0]| >= 1
    ensures IsCeilLog2(|m.data[0]|, m.NumLevels() - 1)
  {
    PyramidUnique(m.data);
    PyramidLevelCount(m.data[0]);
  }

  /** The total number of elements over a list of levels. */
  function TotalLength(levels: seq<seq<int>>): nat
  {
    if levels == [] then 0 else |levels[0]| + TotalLength(levels[1..])
  }

  /** The stored levels of N >= 1 elements hold at most 2N + (number of levels) - 2
      elements in all, and at most 2N + (number of levels) - 3 once N >= 2: about twice
      the source, but possibly a little more. */
  lemma {:induction false} PyramidStorageBound(source: seq<int>)
    requires |source| >= 1
    ensures TotalLength(Pyramid(source)) <= 2 * |source| + |Pyramid(source)| - 2
    ensures |source| >= 2 ==> TotalLength(Pyramid(source)) <= 2 * |source| + |Pyramid(source)| - 3
    decreases |source|
  {
    var p := Pyramid(source);
    if |source| == 1 {
      assert p[1..] == [];
    } else {
      var d := Downsample(source);
      PyramidStorageBound(d);
      assert p[1..] == Pyramid(d);
    }
  }

  /** The worked downsampling examples: an even-length and an odd-length level. */
  lemma DownsampleExamples()
    ensures Downsample([2, 4, 6, 8]) == [3, 7]
    ensures Downsample([2, 4, 6, 8, 9]) == [3, 7, 9]
  {
  }

  /** The worked construction example: five elements give four levels, and level 4 is
      absent. */
  lemma UnevenMipMapExample()
    ensures Pyramid([2, 4, 6, 8, 9]) == [[2, 4, 6, 8, 9], [3, 7, 9], [5, 9], [7]]
    ensures MipMap1D(Pyramid([2, 4, 6, 8, 9])).NumLevels() == 4
    ensures MipMap1D(Pyramid([2, 4, 6, 8, 9])).GetLevel(4) == None
    ensures TotalLength(Pyramid([2, 4, 6, 8, 9])) == 11
  {
    DownsampleExamples();
    var l2 := Downsample([3, 7, 9]);
    assert l2[0] == Avg(3, 7) && l2 == [5, 9];
    var l3 := Downsample([5, 9]);
    assert l3[0] == Avg(5, 9) && l3 == [7];
    assert Pyramid([7]) == [[7]];
    assert Pyramid([5, 9]) == [[5, 9], [7]];
    assert Pyramid([3, 7, 9]) == [[3, 7, 9], [5, 9], [7]];
  }
}
