# PaintDotNet.Quantization in Dafny

A model of the colour-quantization core of PaintDotNet.Quantization, with its
properties proved. It covers:

- **the octree quantizer** (`OctreeQuantizer.GeneratePalette`). Every colour
  of a histogram goes into an eight-level octree; the tree is then reduced,
  deepest level first and smallest counts first, until at most the requested
  number of colour nodes remain; one colour is read off each node.
  Modules: `OctreeNodes`, `OctreePaths`, `OctreeTree`, `OctreeMerge`,
  `OctreeReduce`, `OctreeQuantizer`.
- **the palette maps** (`PaletteMaps`, `ProximityPaletteMap`, `ProximityRing`).
  This covers palette validation, the linear closest-colour search, the
  ProximityPaletteMap (a 16×16×16 grid of cube centres, each with its palette
  indices sorted by distance and searched with a ring cut-off), and the
  CachingPaletteMap decorator.
- **QuantizedBitmapSource** (`QuantizedBitmapSource`). This is the
  Indexed8 view of a Bgra32 bitmap, with serpentine Floyd–Steinberg error
  diffusion at dither levels 1 to 8 and a plain palette lookup at level 0.
  A row cursor is cached between CopyPixels calls. Within one cached state
  the cursor only moves forward; a request whose top row is above the cursor
  throws the state away and starts a fresh one at row 0. The statement that
  the output does not depend on earlier requests is about histories of
  successful calls: the model's failed call returns only the error, while
  the source keeps the partly advanced state (see "## Left out").
- **the histogram** (`ColorHistogram`), modelled as a multiset of colours.
- **the ListUtil sorts** (`ListUtil`, with the sortedness and permutation
  vocabulary in `SortSpec`): insertion sort, heapsort, introspective sort,
  quicksort and binary search.
- **the colour, pixel-format and geometry value types** (`Colors`,
  `ColorComponentUtil`, `ColorBgr24Util`, `PixelFormat`, `Geometry`).
- **the helpers**: `Int32Util`, `ComparableUtil`, `HashCodeUtil`,
  `BitmapUtil`, `EnumerableExtensions.Concat`, `Exceptions`, and a bitmap as
  a grid of rows (`Bitmaps`).
- **the two converters** to Bgra32 (`FormatConverters`). Bgr24 rows are
  widened in place; Indexed8 rows are looked up in the palette.

Conventions:

- Exceptions become `Wrappers.Result` errors named after the .NET exception
  type (`ArgumentOutOfRange`, `InvalidOperation`, `KeyNotFound`, …).
- Integers are unbounded. The source's 32-bit wrap-around is written out
  (`Int32Util.Wrap32`) where a value can leave the int range.
- A comparer (`IComparer<T>`) is an integer key: `a` precedes `b` when
  `key(a) < key(b)`.
- An object with mutable state (the octree, the caching map, the quantized
  source's cursor) is a value. Each operation returns the updated value.

The Floyd–Steinberg step in QuantizedBitmapSource.cs keeps its error rows
indexed in scan order for the current row and in reversed scan order for the
next one (the next row is scanned the other way). The comments at lines
244-247 send 7/16 of a pixel's error ahead in the same row, 5/16 below,
3/16 below and behind, and 1/16 below and ahead. The indices at lines
268-285 do something else. Lemma `QuantizedBitmapSource.ShareLanding` shows
where each share lands:

- share a (7/16) goes to the next pixel of the same row, as commented;
- share d (the remainder, about 1/16) goes directly below;
- share b (5/16) goes one column behind;
- share c (3/16) goes two columns behind.

Nothing goes below and ahead. So the code's next-row pattern is the
commented one shifted by one column against the scan direction. At x = 0,
share b lands in entry `width` of the next-row array, which no pixel reads,
so 5/16 of the first pixel's error in every row is dropped. At x = 1 share c
lands in that same entry, so 3/16 of the second pixel's error is dropped too. The model keeps
the code's indices, because it describes the output the program produces.
The intended indices and their landing columns are proved alongside them
(see "## Findings").

An accelerated search such as the proximity map would be expected to return
the same index as LinearSearchPaletteMap. The code only guarantees the same
distance. On a tie, its walk
replaces the best candidate on `<=` and so can answer with a later palette
index. `ProximityPaletteMap.AgreesWithLinearDistance` proves that the
distances are equal. `ProximityPaletteMap.TieGoesToLaterCandidate` gives a
two-colour palette on which the indices differ. The model follows the code.

## Model

| member | source | states |
|---|---|---|
| Int32Util.ClampToByte | PaintDotNet/Int32Util.cs:29-43 | values above 255 saturate to 255, negative values to 0, and values in [0, 255] pass through unchanged |
| Int32Util.ClampToByteMonotone | PaintDotNet/Int32Util.cs:29-43 | clamping never reverses the order of two ints and is the identity on the byte range |
| Int32Util.Log2Floor | PaintDotNet/Int32Util.cs:15-26 | the loop counts halvings: 0 for x <= 0, otherwise the bit length n of x, with 2^(n-1) <= x < 2^n (one more than floor(log2 x)) |
| Int32Util.BitLengthBounds | PaintDotNet/Int32Util.cs:19-23 | a positive number lies between 2^(n-1) and 2^n - 1 for its bit length n |
| Int32Util.Wrap32IsCongruent | PaintDotNet/Rendering/RectInt32.cs:342-348 | the unchecked int result differs from the exact sum by a multiple of 2^32 |
| Int32Util.Wrap32AddBack | PaintDotNet/Rendering/RectInt32.cs:342-348 | adding d and then the wrapped -d, both unchecked, returns the original int |
| Int32Util.ShiftRightIsFloor | PaintDotNet/Imaging/Quantization/QuantizedBitmapSource.cs:253-265 | `>>` on a signed int rounds toward minus infinity: q * 2^k <= x < (q + 1) * 2^k |
| ComparableUtil.CompareTrinary | PaintDotNet/ComparableUtil.cs:16-21 | the result is -1, 0 or +1 and has the sign of the comparison it normalises, in both directions |
| ComparableUtil.CompareTrinaryIntAntisymmetric | PaintDotNet/ComparableUtil.cs:16-21 | for ints, swapping the arguments negates the result, and 0 means the ints are equal |
| Colors.BgrRange | PaintDotNet/Imaging/ColorBgr24.cs:46-49 | the packed Bgr fits 24 bits and its three bytes read back as b, g and r |
| Colors.FromBgr | PaintDotNet/Imaging/ColorBgr24.cs:56-63 | the colour holds exactly the given three channels |
| Colors.Bgr24EqualsIsComponentwise | PaintDotNet/Imaging/ColorBgr24.cs:97-100 | equality of the packed values holds exactly when all three channels are equal |
| Colors.Bgr24Hash | PaintDotNet/Imaging/ColorBgr24.cs:117-120 | the hash code is the packed Bgr value |
| Colors.Bgr24HashRespectsEquals | PaintDotNet/Imaging/ColorBgr24.cs:97-120 | colours that are Equal have equal hash codes |
| Colors.Bgr24FromBgr32 | PaintDotNet/Imaging/ColorBgr24.cs:51-54 | the explicit conversion keeps B, G and R and drops X |
| Colors.FromBgrx | PaintDotNet/Imaging/ColorBgr32.cs:75-83 | the colour holds exactly the four given bytes |
| Colors.Bgr32FromBgr | PaintDotNet/Imaging/ColorBgr32.cs:85-93 | the three channels are kept and X is 255 |
| Colors.Bgr32FromBgr24 | PaintDotNet/Imaging/ColorBgr32.cs:65-68 | the implicit widening keeps the channels and sets X to 255 |
| Colors.Bgr32FromBgra32 | PaintDotNet/Imaging/ColorBgr32.cs:70-73 | the reinterpreting cast keeps all four bytes, so X takes A and the packed uint is unchanged |
| Colors.Bgr32EqualsIsComponentwise | PaintDotNet/Imaging/ColorBgr32.cs:132-135 | equality of the packed uints holds exactly when the colours are equal |
| Colors.Bgr24Bgr32RoundTrip | PaintDotNet/Imaging/ColorBgr24.cs:51-54 | widening to Bgr32 and converting back gives the original colour |
| Colors.FromBgra | PaintDotNet/Imaging/ColorBgra32.cs:75-83 | the colour holds exactly the four given bytes |
| Colors.PackedBytes | PaintDotNet/Imaging/ColorBgra32.cs:59-63 | the packed uint and the four bytes determine each other, least significant byte first |
| Colors.BgraFromUInt32RoundTrip | PaintDotNet/Imaging/ColorBgra32.cs:85-88 | FromUInt32 and the Bgra property are inverse to each other |
| Colors.Bgra32FromBgr32 | PaintDotNet/Imaging/ColorBgra32.cs:70-73 | the reinterpreting cast keeps all four bytes, so A takes X |
| Colors.Bgra32FromBgr24 | PaintDotNet/Imaging/ColorBgra32.cs:65-68 | converting through Bgr32 gives an opaque colour with the same channels |
| Colors.Bgr24FromBgra32 | PaintDotNet/Imaging/Quantization/PaletteMap.cs:83 | the opaque projection keeps B, G and R |
| Colors.Bgra32Bgr24RoundTrip | PaintDotNet/Imaging/ColorBgra32.cs:65-68 | Bgr24 to Bgra32 and back is the identity; Bgra32 to Bgr24 and back is the identity on opaque colours |
| Colors.Bgra32EqualsIsComponentwise | PaintDotNet/Imaging/ColorBgra32.cs:90-93 | equality of the packed uints holds exactly when the colours are equal |
| Colors.Bgra32Hash | PaintDotNet/Imaging/ColorBgra32.cs:110-113 | the hash is the packed uint reinterpreted as a signed int: itself below alpha 0x80, minus 2^32 from there on |
| Colors.Bgra32HashRespectsEquals | PaintDotNet/Imaging/ColorBgra32.cs:90-113 | colours that are Equal have equal hash codes |
| Colors.Indexed8FromByte | PaintDotNet/Imaging/ColorIndexed8.cs:28-31 | the explicit conversion wraps the byte |
| Colors.Indexed8RoundTrip | PaintDotNet/Imaging/ColorIndexed8.cs:28-36 | byte to index and back, and index to byte and back, are identities |
| Colors.Indexed8EqualsAndHash | PaintDotNet/Imaging/ColorIndexed8.cs:18-66 | Equals is value equality, equal values hash alike, and Zero wraps 0 |
| Colors.Black | PaintDotNet/Imaging/Colors.cs:13 | Black is opaque with all three channels 0 |
| Colors.HexStringSplit | PaintDotNet/Imaging/ColorBgra32.cs:115-118 | an n-digit upper-case hex string is the (n-2)-digit string of the higher part followed by the two digits of the low byte |
| Colors.Bgr24ToStringIsRGB | PaintDotNet/Imaging/ColorBgr24.cs:122-125 | ToString is "#" and six hex digits, red first and blue last |
| Colors.Bgra32ToStringIsARGB | PaintDotNet/Imaging/ColorBgra32.cs:115-118 | ToString is "#" and eight hex digits in the order alpha, red, green, blue |
| Colors.HexByteInjective | PaintDotNet/Imaging/ColorBgra32.cs:115-118 | two bytes that print the same are the same byte, so different colours print differently |
| ColorComponentUtil.Convert8UTo16U | PaintDotNet/Imaging/ColorComponentUtil.cs:9-12 | the byte is repeated in both halves of the ushort, i.e. it is multiplied by 257 |
| ColorComponentUtil.Convert16UTo8U | PaintDotNet/Imaging/ColorComponentUtil.cs:15-18 | the result is the high byte: the largest c with c * 256 <= v |
| ColorComponentUtil.Convert8To16RoundTrip | PaintDotNet/Imaging/ColorComponentUtil.cs:9-18 | widening to 16 bits and narrowing back is the identity |
| ColorComponentUtil.Convert8UTo16UStrictlyMonotone | PaintDotNet/Imaging/ColorComponentUtil.cs:9-12 | widening is strictly increasing and maps 0 and 255 to the ends of the 16-bit range |
| ColorBgr24Util.DistanceSquared | PaintDotNet/Imaging/ColorBgr24Util.cs:15-21 | the squared distance lies in [0, 3 * 255^2] |
| ColorBgr24Util.DistanceSquaredMetric | PaintDotNet/Imaging/ColorBgr24Util.cs:15-21 | the distance is symmetric and zero exactly for equal colours |
| Geometry.Point2Negate | PaintDotNet/Rendering/Point2Int32.cs:23-26 | unary minus wraps: each coordinate is the 32-bit wrap of its negation, which is the plain negation except at MinValue |
| Geometry.Point2NegateInvolution | PaintDotNet/Rendering/Point2Int32.cs:23-26 | negating twice gives back the point, MinValue included |
| Geometry.Point2Offset | PaintDotNet/Rendering/Point2Int32.cs:29-32 | each coordinate moves by its delta whenever the sum fits an int |
| Geometry.Point2OffsetInverse | PaintDotNet/Rendering/Point2Int32.cs:29-32 | offsetting by (dx, dy) and then by the wrapped negated deltas returns the point, even across wrap-around |
| Geometry.Point2IsZero | PaintDotNet/Rendering/Point2Int32.cs:69-76 | IsZero holds exactly for the origin |
| Geometry.Point2Equals | PaintDotNet/Rendering/Point2Int32.cs:88-92 | Equals holds exactly for equal points |
| Geometry.Point2FromSize | PaintDotNet/Rendering/Point2Int32.cs:17-20 | the conversion takes width to X and height to Y |
| Geometry.Point3Negate | PaintDotNet/Rendering/Point3Int32.cs:17-20 | unary minus wraps each of the three coordinates |
| Geometry.Point3NegateInvolution | PaintDotNet/Rendering/Point3Int32.cs:17-20 | negating twice gives back the point |
| Geometry.Point3Offset | PaintDotNet/Rendering/Point3Int32.cs:23-26 | each coordinate moves by its delta whenever the sum fits an int |
| Geometry.Point3OffsetInverse | PaintDotNet/Rendering/Point3Int32.cs:23-26 | offsetting and then offsetting by the wrapped negated deltas returns the point |
| Geometry.Point3IsZero | PaintDotNet/Rendering/Point3Int32.cs:79-86 | IsZero holds exactly for the origin |
| Geometry.Point3Equals | PaintDotNet/Rendering/Point3Int32.cs:99-105 | Equals holds exactly for equal points |
| Geometry.SizeFromPoint2 | PaintDotNet/Rendering/SizeInt32.cs:53-56 | the conversion takes X to width and Y to height, and converting back to a point gives the original point |
| Geometry.SizeArea | PaintDotNet/Rendering/SizeInt32.cs:76-83 | the 64-bit product never overflows; it is 0 exactly when a side is 0 and positive exactly when both sides have the same sign |
| Geometry.SizeHasZeroAreaIsStricterThanZeroArea | PaintDotNet/Rendering/SizeInt32.cs:85-101 | HasZeroArea (both sides 0) implies area 0 and HasPositiveArea implies positive area, but (0, 5) has area 0 without HasZeroArea |
| Geometry.SizeEquals | PaintDotNet/Rendering/SizeInt32.cs:131-135 | Equals holds exactly for equal sizes |
| Geometry.SizeHasZeroArea | PaintDotNet/Rendering/SizeInt32.cs:94-101 | HasZeroArea holds exactly for the Zero size, so it agrees with IsZero (lines 112-119) |
| Geometry.FromEdges | PaintDotNet/Rendering/RectInt32.cs:32-42 | the corners are ordered first; the result exists exactly when both checked differences fit an int (otherwise OverflowException), and then spans from the smaller to the larger edges |
| Geometry.FromEdgesSymmetric | PaintDotNet/Rendering/RectInt32.cs:32-42 | swapping the two corners gives the same rectangle |
| Geometry.ContainsIsHalfOpenBox | PaintDotNet/Rendering/RectInt32.cs:323-326 | when the right and bottom edges do not wrap, Contains is membership in [x, x + width) × [y, y + height) |
| Geometry.ContainsRectContainsPoints | PaintDotNet/Rendering/RectInt32.cs:335-339 | a point of a contained rectangle is a point of the containing one |
| Geometry.InflateNoWrap | PaintDotNet/Rendering/RectInt32.cs:342-348 | without overflow, Inflate moves left and top out by dx and dy and grows each size by twice the amount |
| Geometry.InflateInverse | PaintDotNet/Rendering/RectInt32.cs:342-348 | inflating by (dx, dy) and then by the wrapped negations restores the rectangle, even across wrap-around |
| Geometry.InflateEdges | PaintDotNet/Rendering/RectInt32.cs:54-61 | the five-argument Inflate builds its result through FromEdges, so a success has a non-negative size |
| Geometry.InflateEdgesNoWrap | PaintDotNet/Rendering/RectInt32.cs:54-61 | when no coordinate wraps and the moved edges stay in order, the five-argument Inflate succeeds with x - left, y - top, width + left + right and height + top + bottom |
| Geometry.Intersect | PaintDotNet/Rendering/RectInt32.cs:350-361 | the intersection starts at the larger left and top edges and has a size clamped at 0 |
| Geometry.IntersectContains | PaintDotNet/Rendering/RectInt32.cs:350-361 | for rectangles whose edges do not wrap, a point is in the intersection exactly when it is in both |
| Geometry.IntersectsWithIffPositiveIntersection | PaintDotNet/Rendering/RectInt32.cs:364-368 | for rectangles of positive size, IntersectsWith holds exactly when the intersection has positive area |
| Geometry.Offset | PaintDotNet/Rendering/RectInt32.cs:78-81 | the size is kept and the corner moves by (dx, dy) when the sums fit an int |
| Geometry.ScaleKeepsWidthNonNegative | PaintDotNet/Rendering/RectInt32.cs:384-402 | without overflow, a negative factor mirrors the rectangle and renormalises it, so the width stays non-negative and equals the absolute scaled width |
| Geometry.Union | PaintDotNet/Rendering/RectInt32.cs:404-416 | the union starts at the smaller left and top edges |
| Geometry.UnionContainsBoth | PaintDotNet/Rendering/RectInt32.cs:404-416 | for rectangles whose edges do not wrap, the union contains both and has a non-negative size |
| Geometry.RectArea | PaintDotNet/Rendering/RectInt32.cs:294-301 | the 64-bit area never overflows and is 0 exactly when HasZeroArea holds |
| Geometry.RectEqualityAndSentinels | PaintDotNet/Rendering/RectInt32.cs:14-29 | Equals is equality; Empty is (MaxValue, MaxValue, MinValue, MinValue) and has no positive area; Zero is all zeros |
| HashCodeUtil.StepIsTimes33 | PaintDotNet/HashCodeUtil.cs:11-12 | one combining step, `((result << 5) + result) ^ hash` in unchecked int arithmetic, is multiplication by 33 modulo 2^32 followed by xor |
| HashCodeUtil.Combine2 | PaintDotNet/HashCodeUtil.cs:9-14 | the two-argument combination is hash1 * 33 xor hash2 and equals the left fold over [hash1, hash2] |
| HashCodeUtil.Combine3 | PaintDotNet/HashCodeUtil.cs:17-23 | the three-argument overload equals the left fold of the step over its arguments in order |
| HashCodeUtil.Combine4 | PaintDotNet/HashCodeUtil.cs:26-33 | the four-argument overload equals the left fold of the step over its arguments in order |
| HashCodeUtil.CombineHashCodes | PaintDotNet/HashCodeUtil.cs:36-321 | every overload from 5 to 20 arguments equals the left fold of the step over its arguments in order |
| HashCodeUtil.LastArgumentFlipsBits | PaintDotNet/HashCodeUtil.cs:9-14 | the last argument enters only through the final xor, so flipping bits of it flips exactly those bits of the result |
| HashCodeUtil.FoldAppend | PaintDotNet/HashCodeUtil.cs:26-33 | combining a longer argument list continues from the combined hash of its prefix, so the overloads nest |
| Exceptions.IsOnlyIffAllLeaves | PaintDotNet/AggregateExceptionExtensions.cs:13-32 | the recursive scan of inner exceptions succeeds exactly when every non-aggregate exception reachable through nested aggregates is a T |
| Exceptions.IsOnlyEmptyAggregate | PaintDotNet/AggregateExceptionExtensions.cs:16-31 | an aggregate with no inner exceptions is vacuously "only T" |
| Exceptions.IsOnlyFalseOnForeignLeaf | PaintDotNet/AggregateExceptionExtensions.cs:25-28 | one direct non-aggregate inner exception that is not a T makes the answer false |
| Exceptions.IsOperationCanceledMeaning | PaintDotNet/ExceptionExtensions.cs:13-27 | a plain exception is canceled exactly when it is an OperationCanceledException; an aggregate exactly when all its leaves are; an empty aggregate counts as canceled |
| EnumerableExtensions.Concat | PaintDotNet/Collections/EnumerableExtensions.cs:15-23 | the sequence yields every item of the list in order and then the tail, one longer than the list |
| EnumerableExtensions.ConcatEmpty | PaintDotNet/Collections/EnumerableExtensions.cs:15-23 | appending to an empty list yields only the tail |
| Bitmaps.FullRect | PaintDotNet/Imaging/Bgr24ToBgra32FormatConverter.cs:38 | the default rectangle starts at the origin, has the bitmap's size and lies inside it |
| Bitmaps.RequestRect | PaintDotNet/Imaging/Quantization/QuantizedBitmapSource.cs:65 | a given rectangle is used as is; a missing one means the whole bitmap |
| Bitmaps.Window | PaintDotNet/Imaging/Bgr24ToBgra32FormatConverter.cs:48 | row i of a source rectangle holds width pixels taken from source row y + i starting at column x |
| Bitmaps.InsideBottom | PaintDotNet/Rendering/RectInt32.cs:199-204 | for a rectangle inside a bitmap, Bottom does not wrap and equals y + height |
| PixelFormat.GetBytesPerPixel | PaintDotNet/Imaging/PixelFormatExtensions.cs:14-39 | the declared formats have a positive byte size; every other enum value throws InvalidEnumArgumentException |
| PixelFormat.BytesPerPixelAgrees | PaintDotNet/Imaging/ColorBgra32.cs:120-124 | each pixel struct's PixelFormat is a declared format whose byte size is its BitsPerPixel divided by 8 |
| PixelFormat.DeclaredFormatsHavePixelTypes | PaintDotNet/Imaging/PixelFormat.cs:11-19 | every declared format is the PixelFormat of some pixel struct |
| BitmapUtil.TruncDiv | PaintDotNet/Imaging/BitmapUtil.cs:17 | C# long division rounds toward zero, also for negative numerators |
| BitmapUtil.GetBufferSizeChecked | PaintDotNet/Imaging/BitmapUtil.cs:15-18 | the size is (height - 1) strides plus the bytes of one row; the checked cast fails with OverflowException exactly when that value is outside uint |
| BitmapUtil.BufferSizeFitsInt64 | PaintDotNet/Imaging/BitmapUtil.cs:17 | every intermediate of the long computation fits a long, so only the final uint cast can overflow |
| BitmapUtil.LastRowIsCeiling | PaintDotNet/Imaging/BitmapUtil.cs:17 | for a non-negative row, (width * bpp + 7) / 8 is the least number of bytes holding width * bpp bits |
| BitmapUtil.SingleRowIgnoresStride | PaintDotNet/Imaging/BitmapUtil.cs:15-18 | with one row the stride does not affect the buffer size |
| BitmapUtil.GetBufferSizeCheckedFor | PaintDotNet/Imaging/BitmapUtil.cs:27-31 | for a whole-byte pixel struct and a non-negative width, the size is (height - 1) * stride + width * bytes per pixel, or an overflow when that is outside uint |
| ListUtil.SwapElements | PaintDotNet/Collections/ListUtil.cs:18-27 | the two positions exchange their elements, every other position is unchanged, and the list is a permutation of the original |
| ListUtil.SwapElementsPermOn | PaintDotNet/Collections/ListUtil.cs:18-27 | a swap of two positions inside a range permutes that range and leaves the rest alone |
| ListUtil.SwapIfGreater | PaintDotNet/Collections/ListUtil.cs:548-556 | afterwards the key at i is at most the key at j; the pair is either unchanged or exchanged and nothing else moves |
| ListUtil.SortThree | PaintDotNet/Collections/ListUtil.cs:497-499 | three compare-exchanges (lo, b), (lo, hi), (b, hi) leave the three positions in key order and permute the range between them |
| ListUtil.InsertionSort | PaintDotNet/Collections/ListUtil.cs:530-545 | the inclusive range lo..hi ends up sorted by key and a permutation of its former contents; the rest of the list is unchanged |
| ListUtil.DownHeap | PaintDotNet/Collections/ListUtil.cs:469-492 | if the subtrees below node i are max-heaps, sifting node i down makes the subtree at i a max-heap by permuting only the heap's range |
| ListUtil.HeapRootIsMax | PaintDotNet/Collections/ListUtil.cs:462-466 | the root of a max-heap holds a largest key of the heap, which is why the extraction loop moves it to the end |
| ListUtil.Heapsort | PaintDotNet/Collections/ListUtil.cs:453-467 | building a heap and extracting the maximum n - 1 times leaves lo..hi sorted and a permutation of its former contents |
| ListUtil.ExtractMax | PaintDotNet/Collections/ListUtil.cs:462-466 | one extraction step keeps the invariant: the tail from j is sorted and at least every heap key, and the first j - 1 nodes form a heap |
| ListUtil.PickPivotAndPartition | PaintDotNet/Collections/ListUtil.cs:494-528 | the returned index holds the pivot; everything before it has a key at most the pivot's and everything after at least, and the range is permuted |
| ListUtil.PartitionScan | PaintDotNet/Collections/ListUtil.cs:505-524 | the two-sided scan around the pivot parked at hi - 1 stops at a point with keys at most the pivot before it and at least the pivot from it on |
| ListUtil.IntrospectiveSortRange | PaintDotNet/Collections/ListUtil.cs:412-451 | for any depth limit, the inclusive range lo..hi ends up sorted and a permutation of its former contents |
| ListUtil.SortSmall | PaintDotNet/Collections/ListUtil.cs:417-437 | ranges of 2, 3 and up to 16 elements are sorted by compare-exchanges or insertion sort |
| ListUtil.IntrospectiveSort | PaintDotNet/Collections/ListUtil.cs:406-410 | with the depth limit 2 * Log2Floor(count), the range [startIndex, startIndex + length) is sorted and permuted |
| ListUtil.Sort | PaintDotNet/Collections/ListUtil.cs:74-100 | a range of length 0 or 1 is left alone; any other range ends up sorted and a permutation of itself, and the whole list keeps its multiset |
| ListUtil.SortAll | PaintDotNet/Collections/ListUtil.cs:55-61 | sorting the whole list gives a sorted permutation of it |
| ListUtil.QuickSortPartition | PaintDotNet/Collections/ListUtil.cs:348-383 | after the median of three and the crossing scans, keys left of lo are at most the pivot and keys right of hi at least, with hi < lo |
| ListUtil.QuickSortImpl | PaintDotNet/Collections/ListUtil.cs:344-404 | recursing into the smaller side and looping on the larger leaves left..right sorted and a permutation of its former contents |
| ListUtil.QuickSort | PaintDotNet/Collections/ListUtil.cs:255-274 | a range of length 0 or 1 is left alone; any other range ends up sorted and a permutation of itself |
| ListUtil.InternalBinarySearch | PaintDotNet/Collections/ListUtil.cs:558-584 | a non-negative answer is an index in the range whose key equals the value's; a negative answer r is the complement of an insertion point -r - 1, with smaller keys before it and larger keys from it on when the range is sorted |
| ListUtil.BinarySearchFindsPresentKeys | PaintDotNet/Collections/ListUtil.cs:558-584 | on a sorted range the search reports "not found" exactly when no element has the value's key |
| ColorHistogram.CountRow | PaintDotNet/Imaging/ColorHistogram.cs:126-134 | each pixel of the row that passes the predicate adds its selected colour once to the builder; nothing else is added |
| ColorHistogram.SelectedMembers | PaintDotNet/Imaging/ColorHistogram.cs:126-134 | a colour is counted from a row exactly when some pixel of the row passes the predicate and projects to it |
| ColorHistogram.AllSelectedMembers | PaintDotNet/Imaging/ColorHistogram.cs:107-137 | a colour is in the histogram exactly when some pixel of some row passes the predicate and projects to it |
| ColorHistogram.SelectedIdentity | PaintDotNet/Imaging/ColorHistogram.cs:33-51 | with the always-true predicate and the identity selector a row contributes every pixel, in order |
| ColorHistogram.AllSelectedIdentity | PaintDotNet/Imaging/ColorHistogram.cs:27-31 | with the always-true predicate and the identity selector every pixel of the image is counted |
| ColorHistogram.UnionIntoLarger | PaintDotNet/Imaging/ColorHistogram.cs:195-205 | the merged builder holds the counts of both; it is built into builder1 exactly when builder1 has at least as many distinct colours |
| ColorHistogram.UnionKeepsLarger | PaintDotNet/Imaging/ColorHistogram.cs:195-205 | the merged builder has at least as many distinct colours as either input |
| ColorHistogram.MergePartials | PaintDotNet/Imaging/ColorHistogram.cs:142-185 | pairing the pool into merge tasks and merging tasks pairwise yields the sum of all partial builders; an empty pool makes Single() throw InvalidOperationException |
| ColorHistogram.CreateWith | PaintDotNet/Imaging/ColorHistogram.cs:83-193 | the histogram counts, for each colour, how many pixels pass the predicate and project to it; an image with no rows fails as the final Single() does |
| ColorHistogram.Create | PaintDotNet/Imaging/ColorHistogram.cs:21-31 | the histogram of a non-empty image counts every pixel once |
| ColorHistogram.Bgr24Selector | PaintDotNet/Imaging/ColorHistogram.cs:73-81 | reinterpreting the first three bytes keeps blue, green and red and drops alpha |
| ColorHistogram.CreateOpaque | PaintDotNet/Imaging/ColorHistogram.cs:53-81 | only pixels with alpha 255 are counted, as their BGR part; a BGR colour is present exactly when such a pixel has it |
| OctreeNodes.Create | PaintDotNet/Imaging/Quantization/OctreeQuantizer.cs:495-514 | a count below 1 throws ArgumentOutOfRangeException; otherwise the leaf has that count, no children, colour information, and sums of count copies of the colour |
| OctreeNodes.AddNodeInfo | PaintDotNet/Imaging/Quantization/OctreeQuantizer.cs:627-634 | a simple node throws NotSupportedException; a full node adds the other node's count and component sums and keeps its children |
| OctreeNodes.AddColorInfo | PaintDotNet/Imaging/Quantization/OctreeQuantizer.cs:636-642 | a simple node throws NotSupportedException; a full node adds count pixels of the colour to its count and sums and keeps its children |
| OctreeNodes.TryGetChild | PaintDotNet/Imaging/Quantization/OctreeQuantizer.cs:644-652 | a child is returned exactly for an occupied slot of a full node, and it is a smaller tree |
| OctreeNodes.GetChild | PaintDotNet/Imaging/Quantization/OctreeQuantizer.cs:471-480 | an occupied slot gives its child; an empty slot throws KeyNotFoundException |
| OctreeNodes.SetChild | PaintDotNet/Imaging/Quantization/OctreeQuantizer.cs:654-668 | a simple node throws NotSupportedException; otherwise the slot holds the new child, every other slot and the colour information are unchanged |
| OctreeNodes.RemoveChild | PaintDotNet/Imaging/Quantization/OctreeQuantizer.cs:670-687 | no slot array throws InvalidOperationException and an empty slot ArgumentOutOfRangeException; otherwise only that slot is emptied, and the node still has children exactly when another slot is occupied |
| OctreeNodes.SetThenRemove | PaintDotNet/Imaging/Quantization/OctreeQuantizer.cs:654-687 | filling an empty slot and removing it again restores the node, including dropping the slot array when it becomes empty |
| OctreeNodes.RoundedQuotient | PaintDotNet/Imaging/Quantization/OctreeQuantizer.cs:449-460 | the mean sum / count rounded half away from zero: within half a unit of the exact quotient, with ties going away from zero |
| OctreeNodes.NodeColor | PaintDotNet/Imaging/Quantization/OctreeQuantizer.cs:449-460 | for consistent sums, each channel of the palette colour is the rounded mean of that channel over the node's pixels |
| OctreeNodes.QuotientBounds | PaintDotNet/Imaging/Quantization/OctreeQuantizer.cs:449-460 | the rounded mean of byte values is itself a byte, so the clamp in ColorBgr24.Round never changes it |
| OctreeNodes.LeafColorRoundTrip | PaintDotNet/Imaging/Quantization/OctreeQuantizer.cs:495-514 | the palette colour of a new leaf is the leaf's own colour |
| OctreeNodes.AddNodeInfoConsistent | PaintDotNet/Imaging/Quantization/OctreeQuantizer.cs:627-634 | merging consistent colour information keeps each sum between 0 and 255 times the count |
| OctreeNodes.AddColorInfoConsistent | PaintDotNet/Imaging/Quantization/OctreeQuantizer.cs:636-642 | adding pixels of one colour keeps each sum between 0 and 255 times the count |
| OctreePaths.GetColorOffset | PaintDotNet/Imaging/Quantization/OctreeQuantizer.cs:158-168 | the slot on level l takes bit 7 - l of red as bit 0, of green as bit 1 and of blue as bit 2 |
| OctreePaths.OffsetsFrom | PaintDotNet/Imaging/Quantization/OctreeQuantizer.cs:123-137 | the route of a colour from level l on lists the slot of each deeper level in order |
| OctreePaths.PathRoundTrip | PaintDotNet/Imaging/Quantization/OctreeQuantizer.cs:158-168 | the eight slots on a colour's route spell out all 24 bits of the colour, so the colour can be read back from its route |
| OctreePaths.PathOfInjective | PaintDotNet/Imaging/Quantization/OctreeQuantizer.cs:158-168 | two colours share a route exactly when they are equal, so distinct colours end in distinct leaves |
| OctreeTree.AddColorSpec | PaintDotNet/Imaging/Quantization/OctreeQuantizer.cs:123-155 | inserting a colour into an open node keeps the tree's shape, puts the colour's information at the end of its route, changes no other route, and counts one more colour exactly when that route was empty |
| OctreeTree.StagedColorNodes | PaintDotNet/Imaging/Quantization/OctreeQuantizer.cs:178-184 | while the tree is reduced to level L, the nodes with colour information are exactly the nodes on level L |
| OctreeMerge.MergeChildSpec | PaintDotNet/Imaging/Quantization/OctreeQuantizer.cs:309-322 | folding a coloured leaf into its parent empties exactly that slot, adds the child's pixel count and r/g/b sums to the parent's, and keeps the colour count equal to the number of coloured nodes |
| OctreeMerge.MergeLevelSpec | PaintDotNet/Imaging/Quantization/OctreeQuantizer.cs:274-307 | merging level L into its parents turns the shape for level L into the shape for L - 1, keeps every level above, and keeps the colour count in step with the coloured nodes |
| OctreeMerge.GatherColorsLength | PaintDotNet/Imaging/Quantization/OctreeQuantizer.cs:360-386 | the palette has exactly one entry per node with colour information |
| OctreeReduce.GetLevelNodeCountsSpec | PaintDotNet/Imaging/Quantization/OctreeQuantizer.cs:248-272 | on a tree of at most nine levels the nine counters hold the number of nodes on each level |
| OctreeReduce.LevelCountBound | PaintDotNet/Imaging/Quantization/OctreeQuantizer.cs:255-272 | a node has at most 8^d nodes d levels below it |
| OctreeReduce.GatherSpec | PaintDotNet/Imaging/Quantization/OctreeQuantizer.cs:324-358 | the gathered list has one entry for every node of the level, each with its own route, found at its parent's slot |
| OctreeReduce.PartialMergeStep | PaintDotNet/Imaging/Quantization/OctreeQuantizer.cs:238-243 | one fold of the partial merge removes exactly that node from its level, keeps the level above, and lowers the colour count by at most one |
| OctreeReduce.MergeInOrder | PaintDotNet/Imaging/Quantization/OctreeQuantizer.cs:238-243 | nodes are folded in list order while the colour count is above the target; a folded node is gone, later nodes stay, and the loop stops at the target or at the end of the list |
| OctreeReduce.MergeWholeLevels | PaintDotNet/Imaging/Quantization/OctreeQuantizer.cs:179-184 | whole levels are folded from level 8 upwards while the level above has more nodes than the target; afterwards that level has at most target nodes |
| OctreeReduce.MergeLastLevel | PaintDotNet/Imaging/Quantization/OctreeQuantizer.cs:188-243 | the partial merge never raises the colour count and leaves it at most the target, or at most the node count of the level above |
| OctreeReduce.Reduce | PaintDotNet/Imaging/Quantization/OctreeQuantizer.cs:170-246 | for a positive target the colour count ends at most the target; a tree at or below the target is left unchanged; a non-empty tree keeps at least one colour |
| OctreeQuantizer.EnumeratesCount | PaintDotNet/Imaging/Quantization/OctreeQuantizer.cs:80-89 | a histogram's entries are as many as its distinct colours |
| OctreeQuantizer.BuildOctree | PaintDotNet/Imaging/Quantization/OctreeQuantizer.cs:80-89 | inserting the histogram entries gives one leaf per colour, at the colour's route, carrying its pixel count, and a colour count equal to the number of entries |
| OctreeQuantizer.ColoredNodeInPalette | PaintDotNet/Imaging/Quantization/OctreeQuantizer.cs:365-386 | every node with colour information anywhere in the tree contributes its colour to the palette |
| OctreeQuantizer.BuiltPalette | PaintDotNet/Imaging/Quantization/OctreeQuantizer.cs:78-107 | before any reduction the palette is exactly the histogram's colours, each once |
| OctreeQuantizer.GeneratePaletteImpl | PaintDotNet/Imaging/Quantization/OctreeQuantizer.cs:78-107 | the palette has at most maxColorCount colours and at least one for a non-empty histogram; a histogram that already fits comes back as exactly its colours |
| OctreeQuantizer.GeneratePalette | PaintDotNet/Imaging/Quantization/OctreeQuantizer.cs:42-76 | a count outside [1, 256] throws; an empty histogram gives black (plus transparent); otherwise every entry is opaque, a transparent black is appended when asked, the size stays within the limit, and a fitting histogram is reproduced exactly |
| OctreeQuantizer.GeneratePaletteFromBitmap | PaintDotNet/Imaging/Quantization/OctreeQuantizer.cs:26-40 | a count outside [2, 256] throws ArgumentOutOfRangeException; an image with no rows fails as the histogram does; otherwise the palette of the opaque-pixel histogram has between 1 and maxColorCount entries |
| PaletteMaps.PackedZero | PaintDotNet/Imaging/Quantization/PaletteMap.cs:43 | the packed Bgra value is 0 exactly for transparent black, the only non-opaque entry the constructor accepts |
| PaletteMaps.ValidateFrom | PaintDotNet/Imaging/Quantization/PaletteMap.cs:35-53 | the validation loop throws ArgumentException at the first entry that is neither opaque nor a transparent black in last place, and a transparent last entry beyond index 255 fails the checked byte cast |
| PaletteMaps.Create | PaintDotNet/Imaging/Quantization/PaletteMap.cs:27-60 | an empty list throws ArgumentOutOfRangeException, a bad entry ArgumentException, a transparent 257th-or-later last entry OverflowException; otherwise the map keeps the colours, the opaque list is the BGR of every entry but a transparent last one, and the transparent index is set exactly then |
| PaletteMaps.OpaquePrefix | PaintDotNet/Imaging/Quantization/PaletteMap.cs:55-59 | every entry that goes into the opaque list is opaque |
| PaletteMaps.CreateRecovers | PaintDotNet/Imaging/Quantization/PaletteMap.cs:27-60 | building a map from the colours of a valid map gives that map back, so the validated fields are determined by the colours |
| PaletteMaps.PaletteReassembles | PaintDotNet/Imaging/Quantization/PaletteMap.cs:55-59 | widening the opaque list back to opaque Bgra and appending transparent black when there is a transparent index rebuilds the colour list |
| PaletteMaps.FindClosestPaletteIndex | PaintDotNet/Imaging/Quantization/PaletteMap.cs:76-84 | a translucent target goes to the transparent index when there is one; every other target is looked up by its B, G and R alone |
| PaletteMaps.AnswerIgnoresAlpha | PaintDotNet/Imaging/Quantization/PaletteMap.cs:76-84 | two targets that differ only in alpha, and are not sent to the transparent index, get the same answer |
| PaletteMaps.ClosestSameDistance | PaintDotNet/Imaging/Quantization/LinearSearchPaletteMap.cs:22-40 | two closest palette colours are equally far from the target |
| PaletteMaps.FirstClosestUnique | PaintDotNet/Imaging/Quantization/LinearSearchPaletteMap.cs:22-40 | the first index of a closest colour is unique |
| PaletteMaps.ClosestOfMember | PaintDotNet/Imaging/Quantization/LinearSearchPaletteMap.cs:22-40 | a target that is in the palette is matched at distance 0, by its own colour |
| PaletteMaps.LinearOnFind | PaintDotNet/Imaging/Quantization/LinearSearchPaletteMap.cs:22-40 | an empty opaque list fails on index 0; otherwise the answer is the first index of a closest colour (the strict < keeps earlier ties), truncated to a byte |
| PaletteMaps.LinearFindClosest | PaintDotNet/Imaging/Quantization/LinearSearchPaletteMap.cs:14-40 | the linear map sends translucent targets to the transparent index and every other target to the first closest opaque colour, its index truncated to a byte (`(byte)i`), so it names that colour exactly when there are at most 256 opaque colours |
| PaletteMaps.CreateCaching | PaintDotNet/Imaging/Quantization/CachingPaletteMap.cs:22-27 | the caching map has the inner map's colours and an empty cache |
| PaletteMaps.CachingOverSamePalette | PaintDotNet/Imaging/Quantization/CachingPaletteMap.cs:22-27 | over a valid inner map the caching map's base validation succeeds and it wraps that palette |
| PaletteMaps.CachingOnFind | PaintDotNet/Imaging/Quantization/CachingPaletteMap.cs:29-38 | the answer equals the inner map's answer for the opaque target; the target is cached afterwards, other cache entries are unchanged, and a cached answer leaves the map unchanged |
| PaletteMaps.CachingFindClosest | PaintDotNet/Imaging/Quantization/CachingPaletteMap.cs:29-38 | the caching map answers every target as the inner map answers its opaque version, and the cache stays in agreement with the inner map |
| PaletteMaps.CachingIsTransparent | PaintDotNet/Imaging/Quantization/CachingPaletteMap.cs:29-38 | any sequence of queries gets the same answers as asking the inner map directly, so the cache is invisible |
| ProximityPaletteMap.Coordinate | PaintDotNet/Imaging/Quantization/ProximityPaletteMap.cs:113-116 | each channel shifted right by 4 is the cube coordinate: the channel lies in [16 k, 16 k + 16) |
| ProximityPaletteMap.CheckedByte | PaintDotNet/Imaging/Quantization/ProximityPaletteMap.cs:119-121 | the checked byte cast succeeds exactly on [0, 255] and otherwise throws OverflowException |
| ProximityPaletteMap.CenterComponentFits | PaintDotNet/Imaging/Quantization/ProximityPaletteMap.cs:119-121 | the centre component 16 k + 8 never overflows the checked cast and is at most 248 |
| ProximityPaletteMap.CenterOf | PaintDotNet/Imaging/Quantization/ProximityPaletteMap.cs:118-121 | the centre lies in the target's cube, within 8 of the target in each channel |
| ProximityPaletteMap.CoordinateIndex | PaintDotNet/Imaging/Quantization/ProximityPaletteMap.cs:123 | the or-packed index x, y << 4, z << 8 is x + 16 y + 256 z, a slot of the 4096-entry map |
| ProximityPaletteMap.OrIsSum | PaintDotNet/Imaging/Quantization/ProximityPaletteMap.cs:123 | for 4-bit coordinates the bitwise or of the shifted parts equals their sum |
| ProximityPaletteMap.BucketIdentifiesCube | PaintDotNet/Imaging/Quantization/ProximityPaletteMap.cs:113-124 | two colours share a slot of the proximity map exactly when they lie in the same cube |
| ProximityPaletteMap.BucketCenter | PaintDotNet/Imaging/Quantization/ProximityPaletteMap.cs:118-124 | the centre computed from a colour is the centre of its slot, so a cached list is always sorted for the right centre |
| ProximityPaletteMap.CreateTemplate | PaintDotNet/Imaging/Quantization/ProximityPaletteMap.cs:49-53 | the template is 0, 1, ..., n - 1; more than 256 opaque colours throws OverflowException in the checked byte cast |
| ProximityPaletteMap.DistancesFrom | PaintDotNet/Imaging/Quantization/ProximityPaletteMap.cs:130-135 | the cache holds each opaque colour's squared distance from the centre |
| ProximityPaletteMap.ProximityListEntries | PaintDotNet/Imaging/Quantization/ProximityPaletteMap.cs:127-138 | a sorted copy of the template holds every opaque index exactly once |
| ProximityPaletteMap.ProximityListOrder | PaintDotNet/Imaging/Quantization/ProximityPaletteMap.cs:137-138 | along a proximity list the distance from the centre never decreases |
| ProximityPaletteMap.CreateProximity | PaintDotNet/Imaging/Quantization/ProximityPaletteMap.cs:46-56 | construction fails as the base validation does, or with OverflowException for more than 256 opaque colours; otherwise the map is valid with no list built yet |
| ProximityPaletteMap.GetPaletteIndices | PaintDotNet/Imaging/Quantization/ProximityPaletteMap.cs:111-143 | the list for the colour's cube holds every opaque index once, sorted by distance from the cube centre; it is built on first use and reused afterwards |
| ProximityPaletteMap.SearchFrom | PaintDotNet/Imaging/Quantization/ProximityPaletteMap.cs:73-106 | the loop keeps the last closest colour seen (<= lets later ties win) and stops at the end or when the next ring is farther than the best |
| ProximityPaletteMap.Search | PaintDotNet/Imaging/Quantization/ProximityPaletteMap.cs:65-106 | the result is at least as close as every colour examined and strictly closer than every colour examined after it |
| ProximityPaletteMap.SearchBeatsWholeList | PaintDotNet/Imaging/Quantization/ProximityPaletteMap.cs:88-104 | the early exit is safe: no colour after the stopping point is closer than the result |
| ProximityPaletteMap.SearchFindsClosest | PaintDotNet/Imaging/Quantization/ProximityPaletteMap.cs:58-109 | over a proximity list the search returns a closest opaque colour |
| ProximityPaletteMap.OnFindClosestPaletteIndex | PaintDotNet/Imaging/Quantization/ProximityPaletteMap.cs:58-109 | an empty opaque list fails on index 0; otherwise the answer is a closest opaque colour, found through the target's cube list, which is cached |
| ProximityPaletteMap.FindClosestPaletteIndex | PaintDotNet/Imaging/Quantization/PaletteMap.cs:76-84 | the proximity map sends translucent targets to the transparent index and every other target to a closest opaque colour |
| ProximityPaletteMap.AgreesWithLinearDistance | PaintDotNet/Imaging/Quantization/LinearSearchPaletteMap.cs:22-40 | the proximity answer is exactly as far from the target as the linear search's answer |
| ProximityPaletteMap.TieGoesToLaterCandidate | PaintDotNet/Imaging/Quantization/ProximityPaletteMap.cs:79 | on a tie the proximity search keeps the later candidate while the linear search keeps the earlier one, so their indices can differ |
| ProximityRing.RingBreakExact | PaintDotNet/Imaging/Quantization/ProximityPaletteMap.cs:95-103 | the integer test with square roots removed is equivalent to the real test abs(sqrt A - sqrt B) > sqrt C |
| ProximityRing.RingBound | PaintDotNet/Imaging/Quantization/ProximityPaletteMap.cs:88-104 | once the ring test fires for a colour, every colour at least as far from the centre is farther from the target than the best so far |
| ProximityRing.RingBreakSound | PaintDotNet/Imaging/Quantization/ProximityPaletteMap.cs:88-104 | in colour space: the ring test firing means no colour with a larger ring is closer to the target than the best |
| QuantizedBitmapSource.Create | PaintDotNet/Imaging/Quantization/QuantizedBitmapSource.cs:30-46 | a dither level below 0 or above 8 throws ArgumentOutOfRangeException; otherwise the source keeps the bitmap, the palette map and the level |
| QuantizedBitmapSource.Corrected | PaintDotNet/Imaging/Quantization/QuantizedBitmapSource.cs:226-232 | the target component is the source component minus level/8 of the accumulated error, clamped to a byte: unchanged without error or at level 0, never raised by a positive error nor lowered by a negative one |
| QuantizedBitmapSource.Target | PaintDotNet/Imaging/Quantization/QuantizedBitmapSource.cs:226-232 | the target colour keeps the source pixel's alpha and equals the pixel when no error has accumulated |
| QuantizedBitmapSource.Share | PaintDotNet/Imaging/Quantization/QuantizedBitmapSource.cs:249-265 | shares a, b and c are 7/16, 5/16 and 3/16 of the error rounded toward minus infinity, as an arithmetic shift right by 4 does, and a zero error has zero shares |
| QuantizedBitmapSource.SharesSplitTheError | PaintDotNet/Imaging/Quantization/QuantizedBitmapSource.cs:249-266 | the four shares add up to exactly the error, and share d is about 1/16 of it (within 3) |
| QuantizedBitmapSource.ShareRgb | PaintDotNet/Imaging/Quantization/QuantizedBitmapSource.cs:253-265 | no error, no shares, on every channel |
| QuantizedBitmapSource.AddAt | PaintDotNet/Imaging/Quantization/QuantizedBitmapSource.cs:268-285 | adding a share to an error row keeps its length |
| QuantizedBitmapSource.DitherPixel | PaintDotNet/Imaging/Quantization/QuantizedBitmapSource.cs:224-290 | one pixel step keeps both error rows at width + 1 entries |
| QuantizedBitmapSource.DitherPixelLooksUpTarget | PaintDotNet/Imaging/Quantization/QuantizedBitmapSource.cs:226-240 | the step fails exactly when the palette lookup of the corrected target fails (with the lookup's own error) or returns an index outside the palette's colours (ArgumentOutOfRangeException from the IReadOnlyList indexer); otherwise it writes that index, the target keeps the pixel's alpha, and in the current error row only entry x + 1 changes |
| QuantizedBitmapSource.ShareLanding | PaintDotNet/Imaging/Quantization/QuantizedBitmapSource.cs:268-285 | as written: with the next row scanned the other way, share a lands on the next pixel of this row, d directly below, b one column behind and c two behind; at x = 0 share b, and at x = 1 share c, goes to entry width, which no pixel reads |
| QuantizedBitmapSource.IntendedShareLanding | PaintDotNet/Imaging/Quantization/QuantizedBitmapSource.cs:244-247 | with the commented entries, b lands directly below, c one column behind and d one column ahead, each in an entry the next row reads |
| QuantizedBitmapSource.WrittenIsIntendedShifted | PaintDotNet/Imaging/Quantization/QuantizedBitmapSource.cs:272-285 | each written next-row entry is the intended one plus one; for the first pixel, share b goes to entry width instead of width - 1 |
| QuantizedBitmapSource.DitherRowFrom | PaintDotNet/Imaging/Quantization/QuantizedBitmapSource.cs:224-291 | the pixel loop of a row finishes with one palette index per column and both error rows at width + 1 |
| QuantizedBitmapSource.Advance | PaintDotNet/Imaging/Quantization/QuantizedBitmapSource.cs:234-235 | storing a pixel's index sets exactly the destination column it was read from and appends it to the scan-order list |
| QuantizedBitmapSource.DitherRowFromPlaces | PaintDotNet/Imaging/Quantization/QuantizedBitmapSource.cs:209-224 | the k-th pixel of the scan is written to column k on even rows and to column width - 1 - k on odd rows |
| QuantizedBitmapSource.RowIsSerpentine | PaintDotNet/Imaging/Quantization/QuantizedBitmapSource.cs:211-222 | a destination row filled in serpentine order is the scan-order list on even rows and its reverse on odd rows |
| QuantizedBitmapSource.Fresh | PaintDotNet/Imaging/Quantization/QuantizedBitmapSource.cs:115-131 | a new CopyPixelsImpl has error rows of width + 1 zeros, a destination row of the image's width and its cursor at row 0 |
| QuantizedBitmapSource.DitherRow | PaintDotNet/Imaging/Quantization/QuantizedBitmapSource.cs:203-303 | a dithered row advances the cursor by one, clears the next-row errors after the swap and finds one index per column |
| QuantizedBitmapSource.DitherRowIsSerpentine | PaintDotNet/Imaging/Quantization/QuantizedBitmapSource.cs:211-222 | the destination row of a dithered row is its scan order on even rows and the reverse on odd rows |
| QuantizedBitmapSource.RowLoop | PaintDotNet/Imaging/Quantization/QuantizedBitmapSource.cs:201-309 | the row loop moves the cursor to the requested bottom (or leaves it where it is when already past), producing one row per step, numbered consecutively from the cursor |
| QuantizedBitmapSource.LoopsCompose | PaintDotNet/Imaging/Quantization/QuantizedBitmapSource.cs:201-309 | running the loop to a middle row and then on to the bottom gives the same state and the same rows as running it to the bottom at once |
| QuantizedBitmapSource.RunRows | PaintDotNet/Imaging/Quantization/QuantizedBitmapSource.cs:201-303 | dithering from a state to a bottom row yields one consecutive row per step and leaves the cursor at the bottom |
| QuantizedBitmapSource.RunsCompose | PaintDotNet/Imaging/Quantization/QuantizedBitmapSource.cs:201-303 | dithering in two stretches gives the same state and the same rows as dithering in one |
| QuantizedBitmapSource.InRange | PaintDotNet/Imaging/Quantization/QuantizedBitmapSource.cs:305-308 | the callback's guard keeps only rows whose number lies in [top, bottom) |
| QuantizedBitmapSource.InRangeOfConsecutive | PaintDotNet/Imaging/Quantization/QuantizedBitmapSource.cs:305-308 | of rows numbered consecutively from the cursor, the guard keeps exactly the suffix starting at row top |
| QuantizedBitmapSource.InRangeAllAbove | PaintDotNet/Imaging/Quantization/QuantizedBitmapSource.cs:305-308 | when the cursor is already at or past top, every produced row is handed on |
| QuantizedBitmapSource.InRangeRun | PaintDotNet/Imaging/Quantization/QuantizedBitmapSource.cs:305-308 | the rows handed on are exactly bottom - top consecutive rows starting at top |
| QuantizedBitmapSource.ForwardRows | PaintDotNet/Imaging/Quantization/QuantizedBitmapSource.cs:186-309 | a top row above the cursor throws InvalidOperationException ("we can go forward but never backward"); otherwise bottom - top consecutive rows from top are handed on and the cursor ends at the bottom |
| QuantizedBitmapSource.CopyRowsFloydSteinberg | PaintDotNet/Imaging/Quantization/QuantizedBitmapSource.cs:181-312 | the Floyd–Steinberg path refuses to go backward with InvalidOperationException and otherwise hands on the rows top to bottom - 1, one per row, with the cursor left at the bottom |
| QuantizedBitmapSource.ResumeLoop | PaintDotNet/Imaging/Quantization/QuantizedBitmapSource.cs:186-309 | resuming from any state the loop reached, at a top at or below its cursor, hands on exactly the rows a fresh run from row 0 would produce from top on, and ends in the same state |
| QuantizedBitmapSource.ResumeRows | PaintDotNet/Imaging/Quantization/QuantizedBitmapSource.cs:186-309 | resumed rows are the suffix from top of the rows of a fresh run, which has one consecutive row per image row up to the bottom |
| QuantizedBitmapSource.ResumeMatchesFresh | PaintDotNet/Imaging/Quantization/QuantizedBitmapSource.cs:181-312 | a forward-only request served from a cached state gives the same rows and state as dithering the image from its first row |
| QuantizedBitmapSource.LookupRow | PaintDotNet/Imaging/Quantization/QuantizedBitmapSource.cs:169-174 | without dithering, every pixel of a row is replaced by the palette map's index for it |
| QuantizedBitmapSource.LookupRowFails | PaintDotNet/Imaging/Quantization/QuantizedBitmapSource.cs:169-174 | a row fails exactly when the palette lookup fails for one of its pixels |
| QuantizedBitmapSource.CopyRowsNoDithering | PaintDotNet/Imaging/Quantization/QuantizedBitmapSource.cs:149-179 | the undithered path hands on rows top to bottom - 1, each the per-pixel lookup of the source row, and leaves the cursor and the error rows untouched |
| QuantizedBitmapSource.NoDitheringFails | PaintDotNet/Imaging/Quantization/QuantizedBitmapSource.cs:149-179 | the undithered path fails exactly when some pixel in rows top to bottom - 1 has no palette index |
| QuantizedBitmapSource.CopyRowsBy | PaintDotNet/Imaging/Quantization/QuantizedBitmapSource.cs:133-147 | whichever path runs, bottom - top consecutive rows from top are handed on, and with dithering a top above the cursor is refused with InvalidOperationException |
| QuantizedBitmapSource.CopyRows | PaintDotNet/Imaging/Quantization/QuantizedBitmapSource.cs:133-147 | dither level 0 takes the lookup path and every other level takes the Floyd–Steinberg path |
| QuantizedBitmapSource.WriteRows | PaintDotNet/Imaging/Quantization/QuantizedBitmapSource.cs:78-89 | writing rows keeps the buffer's line count and the length (stride) of every line |
| QuantizedBitmapSource.WriteRowsFills | PaintDotNet/Imaging/Quantization/QuantizedBitmapSource.cs:78-89 | the columns [left, left + width) of the row numbered top + i are copied to the start of buffer line i and the rest of that line keeps its bytes; lines no row reached keep their contents |
| QuantizedBitmapSource.Impl | PaintDotNet/Imaging/Quantization/QuantizedBitmapSource.cs:67-74 | a new CopyPixelsImpl is made when there is none or when the request starts above its cursor; otherwise the cached one is reused |
| QuantizedBitmapSource.CopyRect | PaintDotNet/Imaging/Quantization/QuantizedBitmapSource.cs:76-92 | producing and writing a rectangle's rows keeps the buffer's line count and the state's shape |
| QuantizedBitmapSource.WriteRun | PaintDotNet/Imaging/Quantization/QuantizedBitmapSource.cs:76-92 | a failed row run fails the request with the run's error (the state it had reached is not returned), and a successful one writes its rows into the buffer and becomes the cached state |
| QuantizedBitmapSource.CopyPixels | PaintDotNet/Imaging/Quantization/QuantizedBitmapSource.cs:60-93 | a successful CopyPixels keeps the buffer's line count and leaves a well-shaped cached state; a failed one returns only the error |
| QuantizedBitmapSource.CopyPixelsBy | PaintDotNet/Imaging/Quantization/QuantizedBitmapSource.cs:60-93 | the same for any row function that steps the cursor by one |
| QuantizedBitmapSource.CopyRectRows | PaintDotNet/Imaging/Quantization/QuantizedBitmapSource.cs:76-92 | a rectangle copy succeeds exactly when the row run from its top to its bottom does, caches the run's final state and writes the run's rows into the buffer |
| QuantizedBitmapSource.CopyRectWidths | PaintDotNet/Imaging/Quantization/QuantizedBitmapSource.cs:86-89 | every buffer line keeps its length (the stride) |
| QuantizedBitmapSource.CopyPixelsByRect | PaintDotNet/Imaging/Quantization/QuantizedBitmapSource.cs:65-92 | a missing rectangle means the whole image, and the rows are produced from the state Impl chooses for the rectangle's top |
| QuantizedBitmapSource.ImplIsReachable | PaintDotNet/Imaging/Quantization/QuantizedBitmapSource.cs:67-74 | the state a request starts from is always one a fresh run reaches, and its cursor is at or above the requested top |
| QuantizedBitmapSource.HistoryFreeRect | PaintDotNet/Imaging/Quantization/QuantizedBitmapSource.cs:67-92 | from any reachable state at or above the rectangle, the copy succeeds, leaves a reachable state, and copies exactly the slices of a fresh run's rows to the start of the buffer lines, leaving the rest of each line as it was |
| QuantizedBitmapSource.CopyRectReachable | PaintDotNet/Imaging/Quantization/QuantizedBitmapSource.cs:67-92 | a dithered rectangle copy from a reachable state leaves a reachable state |
| QuantizedBitmapSource.CopyRectResumes | PaintDotNet/Imaging/Quantization/QuantizedBitmapSource.cs:67-92 | a dithered rectangle copy from a reachable state writes the rectangle's slices of the rows of a fresh run |
| QuantizedBitmapSource.CopyRectFromRun | PaintDotNet/Imaging/Quantization/QuantizedBitmapSource.cs:76-92 | when the rows handed on are the suffix from top of a whole run, the buffer holds that run's slices |
| QuantizedBitmapSource.HistoryFreeBy | PaintDotNet/Imaging/Quantization/QuantizedBitmapSource.cs:60-93 | with dithering, what CopyPixels writes does not depend on earlier successful requests: the start of each buffer line gets the slice of a run from row 0, whatever reachable state the cache held, and the rest of the line is kept |
| QuantizedBitmapSource.CopyPixelsIsHistoryFree | PaintDotNet/Imaging/Quantization/QuantizedBitmapSource.cs:60-93 | a dithered CopyPixels copies the rectangle's slice of the rows dithered from the image's first row to the start of each buffer line, keeping the rest of the line, whatever state earlier successful requests left in the cache, and leaves a reachable cache |
| QuantizedBitmapSource.WithoutDitheringRect | PaintDotNet/Imaging/Quantization/QuantizedBitmapSource.cs:149-179 | at level 0 a rectangle copy fails exactly when a pixel of its full rows has no palette index, keeps the cursor, and writes the looked-up indices of the rectangle to the start of each buffer line, keeping the rest of the line |
| QuantizedBitmapSource.WithoutDitheringBy | PaintDotNet/Imaging/Quantization/QuantizedBitmapSource.cs:139-179 | at level 0 CopyPixels fails exactly on a missing palette index in the requested rows and otherwise writes each pixel's looked-up index at the start of its buffer line, keeping the rest of the line |
| QuantizedBitmapSource.CopyPixelsWithoutDithering | PaintDotNet/Imaging/Quantization/QuantizedBitmapSource.cs:139-179 | at level 0 CopyPixels fails exactly on a missing palette index in the requested rows and otherwise writes each pixel's looked-up index at the start of its buffer line, keeping the rest of the line, for the concrete row function |
| QuantizedBitmapSource.AnsweredRowFrom | PaintDotNet/Imaging/Quantization/QuantizedBitmapSource.cs:224-291 | when the palette answers every colour with an index inside its colour list, the pixel loop of a row never fails, whatever the error rows hold |
| QuantizedBitmapSource.AnsweredRunRows | PaintDotNet/Imaging/Quantization/QuantizedBitmapSource.cs:201-303 | against such a palette the row loop reaches the requested bottom from any state of the image's shape |
| QuantizedBitmapSource.AnsweredCopyRect | PaintDotNet/Imaging/Quantization/QuantizedBitmapSource.cs:76-92 | against such a palette a dithered rectangle copy from a state whose cursor is at or above the rectangle succeeds |
| QuantizedBitmapSource.AnsweredCopyPixels | PaintDotNet/Imaging/Quantization/QuantizedBitmapSource.cs:60-93 | against such a palette CopyPixels succeeds at every level and from every kept state, so only a palette that fails on some colour can leave the source with a partly advanced state |
| QuantizedBitmapSource.ExactPixelStep | PaintDotNet/Imaging/Quantization/QuantizedBitmapSource.cs:226-285 | a pixel whose colour the palette holds exactly, met with no accumulated error, is looked up unchanged and adds no error anywhere |
| QuantizedBitmapSource.ExactStep | PaintDotNet/Imaging/Quantization/QuantizedBitmapSource.cs:226-285 | the same for every pixel when the palette holds every colour of the image |
| QuantizedBitmapSource.ExactRowFrom | PaintDotNet/Imaging/Quantization/QuantizedBitmapSource.cs:224-291 | with such a palette and no accumulated error, a row's pixel loop succeeds, adds no error and finds each pixel's own lookup |
| QuantizedBitmapSource.ExactRow | PaintDotNet/Imaging/Quantization/QuantizedBitmapSource.cs:203-303 | with such a palette, a dithered row is the plain per-pixel lookup of the source row and leaves no error behind |
| QuantizedBitmapSource.ExactPaletteNeedsNoDithering | PaintDotNet/Imaging/Quantization/QuantizedBitmapSource.cs:201-303 | with such a palette, dithering any stretch of rows from an error-free state succeeds and gives each pixel its lookup |
| QuantizedBitmapSource.LoopLooksUp | PaintDotNet/Imaging/Quantization/QuantizedBitmapSource.cs:201-309 | a row loop whose every error-free step is an exact lookup produces looked-up rows |
| QuantizedBitmapSource.LookedUpDetermines | PaintDotNet/Imaging/Quantization/QuantizedBitmapSource.cs:169-174 | two runs of consecutive looked-up rows from the same top are equal |
| QuantizedBitmapSource.ExactPaletteMatchesLevelZero | PaintDotNet/Imaging/Quantization/QuantizedBitmapSource.cs:139-179 | when the palette holds every colour of the image, Floyd–Steinberg dithering and the level-0 lookup give the same rows |
| FormatConverters.WidenRow | PaintDotNet/Imaging/Bgr24ToBgra32FormatConverter.cs:49-52 | widening a row in place from the last pixel to the first leaves every pixel j in bytes [4j, 4j + 4) as the Bgra32 form of the 3-byte pixel j the row held before, opaque, and the bytes past the widened pixels untouched |
| FormatConverters.ForwardWideningCorruptsRow | PaintDotNet/Imaging/Bgr24ToBgra32FormatConverter.cs:49-52 | the loop must run backward: the same stores first pixel first overwrite a 3-byte pixel before it is read, so pixel 1 of a two-pixel row comes out wrong |
| FormatConverters.ConvertBgr24Row | PaintDotNet/Imaging/Bgr24ToBgra32FormatConverter.cs:46-52 | one row: the source's 3-byte pixels are written at the start of the buffer row and widened, so its first 4·width bytes hold the window's pixels as Bgra32 and the rest of the row keeps its bytes |
| FormatConverters.WidenedBytes | PaintDotNet/Imaging/Bgr24ToBgra32FormatConverter.cs:49-52 | the widened bytes of a row are exactly the memory image of the converted pixels |
| FormatConverters.ConvertBgr24 | PaintDotNet/Imaging/Bgr24ToBgra32FormatConverter.cs:36-56 | CopyPixels (a missing rectangle meaning the whole image) fills buffer line i with the Bgra32 form of the source's row top + i, columns [left, left + width), and keeps each line's bytes beyond them |
| FormatConverters.CreateIndexed8 | PaintDotNet/Imaging/Indexed8ToBgra32FormatConverter.cs:22-26 | the converter keeps its source and reads the source's palette once, when it is built |
| FormatConverters.LookupRow | PaintDotNet/Imaging/Indexed8ToBgra32FormatConverter.cs:53-56 | a row of indices converts exactly when every index is inside the palette, each pixel becoming its palette entry; an index past the palette throws ArgumentOutOfRangeException |
| FormatConverters.ConvertIndexed8From | PaintDotNet/Imaging/Indexed8ToBgra32FormatConverter.cs:49-59 | the row loop from line dstY produces one output line per remaining rectangle row |
| FormatConverters.ConvertIndexed8FromSpec | PaintDotNet/Imaging/Indexed8ToBgra32FormatConverter.cs:43-61 | the row loop succeeds exactly when every index in the remaining rows is inside the palette, and then line i holds the palette entries of the source's row top + i in its first width pixels and keeps the rest |
| FormatConverters.ConvertIndexed8 | PaintDotNet/Imaging/Indexed8ToBgra32FormatConverter.cs:38-41 | a successful CopyPixels keeps the buffer's line count |
| FormatConverters.ConvertIndexed8Spec | PaintDotNet/Imaging/Indexed8ToBgra32FormatConverter.cs:38-61 | CopyPixels (a missing rectangle meaning the whole image) fails with ArgumentOutOfRangeException exactly when an index in the requested rows is past the palette, and otherwise writes each requested pixel's palette entry |

## Left out

- Concurrency and cancellation: the parallel histogram build, SortParallel
  (modelled by the sequential `ListUtil.SortAll`) and the cancellation token
  checks. The model is sequential.
- I/O and memory layout: strides, pointers, `fixed` buffers and
  `BufferUtil.Copy`. A buffer is a sequence of lines, each as long as the
  stride, and a line is a sequence of bytes or pixels.
- ImagingFactory is not part of this model. The converters are modelled
  directly.
- Floating point. ColorRgb96Float, ColorBgr48 and the float conversions
  (Ceiling, Floor, Round, Truncate, Convert8UTo32F, Convert16UTo32F) are
  not modelled as members of their own. Two float paths are modelled exactly
  with only the float rounding dropped. `ProximityRing` models the
  MathF.Sqrt ring test over the reals (`ProximityRing.RingBreakExact`).
  `OctreeNodes.NodeColor` and `OctreeNodes.RoundedQuotient` model the
  octree's node.Color followed by ColorBgr24.Round as the exact mean
  rounded half away from zero.
- ColorBgr32.FromUInt32, ColorBgr32.GetHashCode, and the GetHashCode helpers
  of Point2Int32, Point3Int32, SizeInt32 and RectInt32: hash values only.
  `HashCodeUtil` models the combining function they use.
- OctreeReduce.Reduce: the comparer that orders nodes by count breaks ties
  with a hash of their float colour, which is left out. Nodes are ordered by
  count only, and every property proved holds whatever the tie order.
- OctreeReduce.Reduce: takes only a tree built by AddColor, or the empty
  root, which is every tree GeneratePalette hands it.
- OctreeQuantizer.GeneratePalette: maxColorCount 1 with the transparent
  colour requested reduces toward 0 colours. The reduced tree still has one
  colour, so this is the InternalErrorException branch, as in the code.
- The int64 counts of the histogram and the octree are unbounded integers;
  their overflow is not modelled.
- The order in which a histogram enumerates its entries is not fixed by the
  source and is a parameter (`es`) of the octree build.
- ColorHistogram.MergePartials: merges in one fixed order, not the parallel
  schedule. The result does not depend on the order.
- Debug.Assert checks are not modelled as errors.
- ListUtil: the argument validation that is commented out in the source is
  not modelled.
- PaletteMaps.CachingFindClosest: the inner map is a pure function from
  colour to index. The cache is a map, and any inner PaletteMap fits.
- QuantizedBitmapSource: the palette map is a pure lookup function plus its
  colour list.
- QuantizedBitmapSource.DitherPixel: the error accumulators are unbounded.
  The int32 overflow of the error rows is not modelled; errors stay far
  inside the int range for byte images.
- QuantizedBitmapSource.CopyPixelsIsHistoryFree: stated through the rows of
  a run from row 0 (`RunLines`), not as a closed formula of the pixels.
- QuantizedBitmapSource.InRange: states only the row-number bounds of the
  rows it keeps. `InRangeOfConsecutive` gives the exact suffix for the rows
  the loop produces.
- QuantizedBitmapSource.RowFn: a state of the wrong shape gives an
  ArgumentOutOfRange error that no caller reaches.
- An exception part-way through CopyPixels leaves the rows already written
  in the caller's buffer. The model returns only the error.
- A null palette, a null source and Dispose are not modelled.
- QuantizedBitmapSource.Request, FormatConverters.Bgr24Request and
  FormatConverters.Indexed8Request: CopyPixels is modelled only for a
  rectangle inside the image (`Inside`). The source does not check the
  rectangle. A rectangle outside the image makes the inner source's
  CopyPixels throw, or makes the pointer copy read or write out of bounds.
  The model does not describe that behaviour.
- QuantizedBitmapSource.Request, FormatConverters.Bgr24Request and
  FormatConverters.Indexed8Request: also ask that every buffer line has room
  for the rectangle's row of pixels (`LinesFit`). With a smaller stride the
  source writes past the end of the line, into the next line or out of the
  buffer; the model does not describe that.
- The converters' PixelFormat, Size and GetPalette members are constants or
  delegations to the source. They are not modelled.
- Geometry.ContainsIsHalfOpenBox: holds only for rectangles whose right and
  bottom edges do not wrap around (`NoOverflow`).
- Geometry.ContainsRectContainsPoints: holds only when neither rectangle's
  right or bottom edge wraps around (`NoOverflow`).
- Geometry.IntersectContains: proved for rectangles of non-negative size
  with edges in [-2^30, 2^30) (`Moderate`), where no sum wraps.
- Geometry.IntersectsWithIffPositiveIntersection: proved under `Moderate`
  only, for the same reason.
- Geometry.UnionContainsBoth: proved under `Moderate` only, for the same
  reason.
- Geometry.SizeHasZeroAreaIsStricterThanZeroArea: SizeInt32.HasZeroArea
  tests width == 0 && height == 0, so a 0×5 size has zero area without
  having HasZeroArea. The model follows the code.
- QuantizedBitmapSource.DitherPixel: its own contract gives only the shape
  of the error rows. What it looks up and where each share goes are stated
  by `DitherPixelLooksUpTarget`, `ShareLanding` and `SharesSplitTheError`.
- QuantizedBitmapSource.AddAt: its own contract gives only the length. The
  entries it changes are stated by `DitherPixelLooksUpTarget`.
- QuantizedBitmapSource.ShareRgb: its own contract covers only the zero
  error. The per-channel shares are those of `Share`.
- QuantizedBitmapSource.DitherRowFrom: its own contract gives only shapes.
  The placement of the indices is stated by `DitherRowFromPlaces`.
- QuantizedBitmapSource.DitherRow: its own contract gives the cursor step
  and the cleared next-row errors. The row's contents are stated by
  `DitherRowIsSerpentine` and, for an exact palette, by `ExactRow`.
- QuantizedBitmapSource.WriteRows: its own contract gives only the line
  count. The written contents are stated by `WriteRowsFills`.
- QuantizedBitmapSource.CopyRect: its own contract gives only shapes. The
  contents are stated by `CopyRectRows`, `CopyRectResumes` and
  `WithoutDitheringRect`.
- QuantizedBitmapSource.CopyPixels: its own contract gives only shapes.
  The contents are stated by `CopyPixelsIsHistoryFree` (dithering) and
  `CopyPixelsWithoutDithering` (level 0).
- QuantizedBitmapSource.CopyPixelsBy: its own contract gives only shapes.
  The contents are stated by `HistoryFreeBy` and `WithoutDitheringBy`.
- QuantizedBitmapSource.CopyPixels: a failed call returns only the error.
  In the source an exception thrown while a row is dithered leaves the new or
  reused CopyPixelsImpl in the cache, with its cursor at the failing row and
  its error rows already holding the shares of that row's earlier pixels. A
  later request at or below that cursor resumes from it, and its dithered
  rows can differ from a fresh run. The model does not describe that state.
  `HistoryFreeBy` and `CopyPixelsIsHistoryFree` hold over histories of
  successful calls only. `AnsweredCopyPixels` shows that a call fails only
  when the palette fails on some colour.
- QuantizedBitmapSource.CopyPixelsBy: the same loss of the partly advanced
  state on a failed call.
- QuantizedBitmapSource.WriteRun: a failed run passes on only its error,
  not the state the loop had reached, which the source keeps.
- FormatConverters.ConvertIndexed8From: its own contract gives only the line
  count. The contents and the error case are stated by
  `ConvertIndexed8FromSpec`.
- FormatConverters.ConvertIndexed8: its own contract gives only the line
  count. The contents and the error case are stated by
  `ConvertIndexed8Spec`.
- FormatConverters.CreateIndexed8: the constructor only stores its
  arguments, so its contract says no more than that.

## Findings

| source | as written | input that shows it | evidently intended | confidence | as-written member | corrected member |
|---|---|---|---|---|---|---|
| PaintDotNet/Imaging/Quantization/QuantizedBitmapSource.cs:268-285 | the next-row shares go to entries width - x (5/16), width - x + 1 (3/16, skipped at x = 0) and width - x - 1 (remainder): one column behind, two behind and directly below | width 2, row 0, first pixel (x = 0) with error e: 5e>>4 goes to entry 2 of the next-row array, which no pixel reads, and the remainder goes directly below instead of below and ahead; at the second pixel (x = 1) 3e>>4 goes to that same unread entry | the commented Floyd–Steinberg pattern at lines 244-247: entries width - x - 1 (5/16, below), width - x (3/16, behind, for x >= 1) and width - x - 2 (1/16, ahead, for x + 1 < width) | medium, not executed | QuantizedBitmapSource.ShareLanding | QuantizedBitmapSource.IntendedShareLanding |
