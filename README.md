# mipmap-1d in Dafny

A model of `MipMap1D`, a one-dimensional mipmap: a pyramid of ever coarser copies of a
numeric sequence. Construction stores a copy of the source as level 0. It then keeps
downsampling the most recent level and appending the result, until that level has at
most one element. Downsampling splits a level into consecutive pairs, left to right. Each
full pair becomes its average, and a lone trailing element passes through unchanged.
`num_levels` counts the stored levels. `get_level` returns a level, or nothing when the
index is out of range.

Files:

- `mipmap.dfy`, module `MipMap`: the operations.
  - `Avg`, `Chunks`, `Reduce`, `ReduceAll` and `Downsample` model `downsample`.
  - `Pyramid` is the recursive definition of the levels that construction stores.
  - `IsPyramid` is the structural description of a well-formed pyramid.
  - The datatype `MipMap1D` holds the levels and has `NumLevels` and `GetLevel`.
  - The method `New` is the construction loop.
- `mipmap_properties.dfy`, module `MipMapProperties`: the lemmas. They cover splitting,
  value range, structure, uniqueness, level count, storage and the worked examples.

Design decisions:

- The element type is `int`, standing for a signed integer element type. The source
  averages a pair by converting the sum to a 64-bit float, halving it and converting
  back. For an integer type that conversion drops the fraction, so `Avg` is
  `(a + b) / 2` truncated toward zero. Hence `[5, 9]` gives `[7]` and `[-3, 0]`
  gives `[-1]`.
- `MipMap1D` is a value. The struct is never changed after `new` returns, and `new`
  builds its levels in local variables, so `New` is a method with the source's `while`
  loop. It returns the finished value.
- `New` is proved against `Pyramid` and `IsPyramid`. `PyramidCharacterization` shows
  that these two agree in both directions. Construction is a function of its input, so
  equal sources give equal pyramids.
- The code handles an empty level without any special case: `chunks(2)` of an empty
  slice yields nothing. `Downsample` therefore has no precondition. An empty source is
  never downsampled, because the loop guard needs length above 1. It yields a single
  empty level (`TerminalLevel`).
- The doc comment of `num_levels` (src/mipmap.rs:37) says `ceil(log2(len))`. The code and
  its tests give one more level than that, e.g. 4 levels for 5 elements. The model states
  the `ceil(log2 N) + 1` form the code has (`NumLevelsIsCeilLog2PlusOne`).
- The type doc (src/mipmap.rs:4) says the structure takes "2x space". That is only
  approximate. `PyramidStorageBound` gives an upper bound on the elements stored over all
  levels: at most `2N + levels - 2`, and at most `2N + levels - 3` once N >= 2. The
  second bound is reached at N = 2 (2 + 1 = 3 elements) and at N = 5 (5 + 3 + 2 + 1 = 11
  elements, `UnevenMipMapExample`). For 5 elements that is 11 > 2N = 10, more than twice
  the source.

## Model

| member | source | states |
|---|---|---|
| `MipMap.Avg` | src/mipmap.rs:60 | the average of a pair lies between the two values, and twice it is the pair's sum with the odd unit dropped toward zero (truncating conversion back from the float intermediate) |
| `MipMap.Chunks` | src/mipmap.rs:56-57 | `chunks(2)` yields ceil(n/2) slices; slice i is `s[2i..min(2i+2, n)]`; each has 1 or 2 elements and only the last can be short |
| `MipMapProperties.ChunksFlatten` | src/mipmap.rs:57 | concatenating the chunks gives back the level exactly: nothing is lost, duplicated or reordered |
| `MipMap.Reduce` | src/mipmap.rs:58-62 | a one-element chunk passes through unchanged; a two-element chunk becomes `Avg` of its two elements; no other chunk length is accepted |
| `MipMap.ReduceAll` | src/mipmap.rs:58-63 | the mapped outputs are one per chunk, in order: output i is `Reduce` of chunk i |
| `MipMap.Downsample` | src/mipmap.rs:53-64 | the result has ceil(n/2) elements; element i is the average of elements 2i and 2i+1 for every full pair; for odd n the last element is the source's last element unchanged |
| `MipMapProperties.DownsampleShrinks` | src/mipmap.rs:27-29 | a level longer than 1 downsamples to a strictly shorter, non-empty level, which is the loop's termination measure |
| `MipMapProperties.DownsampleWithinRange` | src/mipmap.rs:58-60 | downsampling never yields a value outside a range that holds every input value |
| `MipMapProperties.PyramidWithinRange` | src/mipmap.rs:23-34 | every stored level lies within any range that holds the source |
| `MipMap.Pyramid` | src/mipmap.rs:23-34 | the built levels start with the source itself and end with a level of length at most 1 |
| `MipMapProperties.PyramidIsPyramid` | src/mipmap.rs:23-34 | the built levels meet the structural description: each level after the first is the downsampling of the one before, every non-final level is longer than 1, the last is not |
| `MipMapProperties.PyramidUnique` | src/mipmap.rs:23-34 | any level list meeting the structural description is exactly the pyramid built from its first level |
| `MipMapProperties.PyramidCharacterization` | src/mipmap.rs:23-34 | a level list meets the structural description and starts with the source if and only if it is the pyramid built from that source |
| `MipMap.New` | src/mipmap.rs:23-34 | construction stores the source as level 0, every later level is the downsampling of the previous, only the last level has length at most 1, and the result equals the recursive definition |
| `MipMap.MipMap1D.NumLevels` | src/mipmap.rs:38-40 | the number of levels is the length of the stored level list `data`, and a well-formed mipmap has at least one |
| `MipMap.MipMap1D.GetLevel` | src/mipmap.rs:42-51 | the result is absent exactly when the index is at least the number of levels, including the index equal to it; otherwise it is the stored level at that index |
| `MipMapProperties.LevelLengths` | src/mipmap.rs:27-30 | in a well-formed mipmap each level after the first has ceil(n/2) elements, where n is the previous level's length |
| `MipMapProperties.TerminalLevel` | src/mipmap.rs:24-31 | an empty source gives exactly one empty level; a non-empty source ends in a level of exactly one element |
| `MipMapProperties.PyramidLevelCount` | src/mipmap.rs:27-31 | a source of N >= 1 elements is built into ceil(log2 N) + 1 levels |
| `MipMapProperties.NumLevelsIsCeilLog2PlusOne` | src/mipmap.rs:36-40 | the number of levels of a well-formed mipmap of N >= 1 elements is ceil(log2 N) + 1 |
| `MipMapProperties.CeilLog2Unique` | src/mipmap.rs:36-37 | the ceil(log2 N) used for the level count is a single well-defined exponent |
| `MipMapProperties.PyramidStorageBound` | src/mipmap.rs:3-4 | all levels of N >= 1 elements hold at most 2N + levels - 2 elements together, and at most 2N + levels - 3 once N >= 2; this can exceed 2N (11 elements for N = 5) |
| `MipMapProperties.DownsampleExamples` | src/mipmap.rs:71-81 | `[2,4,6,8]` downsamples to `[3,7]`, and `[2,4,6,8,9]` to `[3,7,9]` |
| `MipMapProperties.UnevenMipMapExample` | src/mipmap.rs:83-113 | `[2,4,6,8,9]` builds the levels `[2,4,6,8,9]`, `[3,7,9]`, `[5,9]`, `[7]`; that is 4 levels, level 4 is absent, and 11 elements are stored in all |

## Left out

- `Avg`: models an integer element type only. A floating-point element type averages exactly, rounding to the nearest representable value; that is not modelled.
- `Avg`: does not model a fixed element width. In the source, `pair[0] + pair[1]` is computed in the element type and can overflow, panicking or wrapping depending on the build. A conversion to or from `f64` that fails panics through `unwrap`. A sum above 2^53 in magnitude loses precision in `f64`. The model uses unbounded integers, so none of these happen.
- The generic numeric bounds (`Num`, `ToPrimitive`, `FromPrimitive`, `Copy`) are replaced by the concrete element type `int`.
- The `panic!("Unsound condition")` arm of `downsample` cannot be reached, because `chunks(2)` only yields slices of length 1 or 2. `Reduce` requires such a slice, and `Chunks` proves that every slice meets it.
- Ownership details are not modelled: `clone`, `clone_from`, and `get_level` returning a reference rather than a copy. Dafny sequences are values, so a caller sees the same levels either way.
