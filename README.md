# A verified model of the rust-engine-3d core

This project models the deterministic core of `rust-engine-3d`, a small software renderer written in Rust, in Dafny. It takes in these parts of the renderer:

- **TGA decoding.** Header dispatch by image type, the run-length decoder `read_rle`, pixel packing in `create_canvas`, the vertical flip driven by image-descriptor bit `0x20`, and `get_pixel`. These follow the raw and run-length packet layout of the Truevision TGA 2.0 format.
- **Rasterisation in `main.rs`.** The Bresenham line walk `_line_math` and the scanline fill `_triangle_math`.
- **OBJ parsing in `Model::read`.** Lines are classified by their `"v "` / `"f "` prefix, split on whitespace and `/`, and face indices are made 0-based.
- **The vector and matrix algebra of `geometry.rs`.** Element-wise operations, dot and cross products, and the homogeneous conversions. Also `Matrix::new`, `identity`, `trunspose`, `mul` and the Gauss-Jordan `inverse`.
- **The frame buffers of `scene.rs`.** `Scene::new` and `set`, the clamped bounding box, `barycentric` and `cross`, the perspective renormalisation, and the depth-checked write of one fragment.

Modelling rules:
- **Form.** Code that loops and mutates is modelled as Dafny methods with loops and local arrays or sequences. Each is proved equal to a specification function, and the properties are proved as lemmas about those functions. `Scene` is a class whose `scene` and `zbuffer` fields its methods update.
- **Numbers.** `f32` is an exact `real`. `i32` and `usize` are unbounded integers. Their ranges are written out only for the `i32` parser and the `- 1` on face indices; the arithmetic of `_line_math` and the `cast::<i32>` of `_triangle_math` are unbounded (see "Left out").
- **Panics.** A Rust panic that depends on data inside a modelled operation is the `Panic` outcome of `Common.Outcome`. This covers an index out of bounds that the operation computes, `unwrap` on an error, and the `- 1` overflow of a face index in a debug build. Where the caller supplies an index that the operation uses as it is (`Scene::set`, `get_pixel`), the member requires it to be in range instead.

The model reproduces the code as written, including these quirks:
- `trunspose` copies the diagonal (`Matrices.TrunsposeIsNotTranspose`).
- `Matrix::<4, 1>::from` puts `x` in row 2 (`Matrices.Matrix41RoundTrip`).
- The generic `^` on `Vector<N, T>` panics for every `N >= 1` (`Geometry.Cross`).
- `mul` writes into a matrix with `COLS` rows (`Matrices.OuterProductPanics`).
- A grey pixel is packed as `513 * i` (`Tga.Grey`).
- `set` indexes rows by `x` (`Scene.WideScenePanics`).
- The renormalisation divides by `bc_clip[1] + bc_clip[1] + bc_clip[0]` (`Scene.ClipWeightsSum`).

Functions that only compute a source operation and carry no `ensures` have no row of their own. The rows of the lemmas about them cover them:
- `Tga.GetPixel` (`get_pixel`, src/tga.rs:101-103) is covered by `Tga.GetPixelDecoded`.
- `Matrices.Vector3DFrom` (`Vector3D::from`, src/geometry.rs:388-394) is covered by `Matrices.Matrix41RoundTrip` and `Matrices.HomogeneousRoundTrip`.
- `Inversion.GaussJordan` is covered by `Inversion.Inverse` and `Inversion.InverseIsRightInverse`.
- `Geometry.Add2D`, `Sub2D`, `Scale2D`, `Add3D`, `Sub3D` and `Scale3D` are covered by `Geometry.Ops2DAreElementwise` and `Geometry.Ops3DAreElementwise`.

Some members are proof devices with no counterpart in the source and have no row either, for example `Geometry.AsVector`, `Matrices.ScaledMatrix` and `Matrices.QuotientScaleFree`.

Files:
- `common.dfy` (module `Common`): `Option`, `Outcome` and a few arithmetic facts.
- `tga.dfy` (module `Tga`)
- `raster.dfy` (module `Raster`)
- `objmodel.dfy` (module `ObjModel`)
- `geometry.dfy` (module `Geometry`)
- `matrix.dfy` (module `Matrices`)
- `inverse.dfy` (module `Inversion`)
- `scene.dfy` (module `Scene`)

## Model

| member | source | states |
|---|---|---|
| Tga.DecodePacket | src/tga.rs:60-78 | a decoded packet advances the input position, covers 1 to 128 pixels and yields exactly `count * bytespp` bytes |
| Tga.ReadPacket | src/tga.rs:60-78 | one iteration of the `read_rle` loop, with its raw-copy and run-repeat inner loops, computes `DecodePacket`; an input byte past the end is a panic |
| Tga.ReadRle | src/tga.rs:52-81 | the `while pix < pixelcount` loop appends to `encoded` exactly what `RleDecode` yields, or panics with it |
| Tga.DecodeStep | src/tga.rs:58-80 | one packet of decoding either panics or moves its bytes to the output and continues from the next position |
| Tga.DecodeFromCount | src/tga.rs:58-80 | decoding stops at the first pixel count `>= pixelcount`, overshooting by less than 128, and yields `bytespp` bytes per decoded pixel |
| Tga.ReadRleAppends | src/tga.rs:52-81 | earlier contents of `encoded` are untouched; `bytespp * decoded` bytes are appended with `pixelcount <= decoded < pixelcount + 128`, and nothing when `pixelcount` is 0 |
| Tga.DecodeEncodedPacket | src/tga.rs:60-78 | a raw packet with header `h < 128` copies the next `(h + 1) * bytespp` bytes; a run packet repeats the next `bytespp` bytes `h - 127` times and advances only past them |
| Tga.DecodeEncodedStep | src/tga.rs:58-80 | decoding an encoded packet followed by a decodable rest yields the packet's pixels followed by the rest |
| Tga.DecodeEncode | src/tga.rs:58-80 | decoding a well-formed packet stream gives back the pixels it encodes (round trip) |
| Tga.Grey | src/tga.rs:87-89 | a grey pixel `i + (i << 8) + (i << 8)` is `513 * i` |
| Tga.Rgb | src/tga.rs:90-95 | three bytes pack below `2^24` with `b0`, `b1`, `b2` recoverable from bits 0, 8 and 16 |
| Tga.PixelAt | src/tga.rs:86-96 | pixel `(ix, iy)` reads the bytes at `(iy * width + ix) * bytespp`; depths 3 and 4 give the same 24-bit value (the 4th byte ignored), depth 1 gives `513 * i`, other depths give 0 |
| Tga.PixelIndexBound | src/tga.rs:88-95 | the bytes of every pixel in the image lie within `width * height * bytespp` |
| Tga.CanvasFitsIff | src/tga.rs:85-96 | the buffer covers every pixel exactly when it holds `width * height * bytespp` bytes (or the depth is not packed) |
| Tga.PackPixel | src/tga.rs:87-95 | one pixel panics exactly when its byte slice is out of range, and is otherwise `PixelAt` |
| Tga.CreateCanvas | src/tga.rs:83-100 | the nested loops panic exactly when a packed depth's buffer is shorter than `width * height * bytespp`, and otherwise give `width` columns of `height` pixels (`Canvas`) |
| Tga.FlipTwice | src/tga.rs:37-44 | flipping every column in y twice is the identity |
| Tga.FlipRows | src/tga.rs:39-43 | the in-place swaps of rows `iy` and `height - 1 - iy` for `iy < height / 2` reverse every column |
| Tga.ReadFile | src/tga.rs:21-50 | `read_file` after the header and bytes are read: `bytespp = bitsperpixel >> 3`, type dispatch, canvas, then flip when bit `0x20` is set |
| Tga.ImageDataByType | src/tga.rs:24-32 | types 2 and 3 copy the rest of the input raw, types 10 and 11 RLE-decode `width * height` pixels (with overshoot below 128, and no bytes when there are no pixels), and any other type leaves the buffer empty |
| Tga.GetPixelDecoded | src/tga.rs:101-103 | for `0 <= x < width`, `0 <= y < height`, `get_pixel(x, y)` is the packed value of the bytes for column `x` and row `y`, taken from row `height - 1 - y` when the image is stored top to bottom |
| Raster.RiseWithinRun | src/main.rs:98-109 | after the steep swap, the change of the minor coordinate is at most the run of the driving one |
| Raster.ClimbBounds | src/main.rs:124-128 | the closed-form step count keeps the error term in `(-dx, dx]` |
| Raster.ClimbUnique | src/main.rs:124-128 | the step count is the only one that keeps the error term in `(-dx, dx]` |
| Raster.ErrorStep | src/main.rs:123-129 | one iteration's `error += derror; if error > dx { y += ±1; error -= 2 * dx }` advances the closed-form step count by 0 or 1 and keeps the error invariant |
| Raster.LineMath | src/main.rs:95-131 | `_line_math` appends exactly `LinePoints(p0, p1)` to `points` and leaves earlier entries unchanged |
| Raster.StepLine | src/main.rs:108-130 | the while loop, proved with the error-term invariant, pushes the closed-form walk |
| Raster.LineLength | src/main.rs:104-130 | a line has exactly `max(abs(dx), abs(dy)) + 1` points |
| Raster.WalkEnds | src/main.rs:114-130 | the walk starts at its start point and ends exactly at its end point |
| Raster.LineEnds | src/main.rs:98-130 | the first point is the endpoint with the smaller driving coordinate and the last is the other endpoint, in the original orientation |
| Raster.WalkStep | src/main.rs:116-129 | between consecutive points x grows by 1 and y changes by 0 or by 1 toward the far endpoint, staying between the endpoints |
| Raster.LineSteps | src/main.rs:98-129 | between consecutive points of a line the driving coordinate grows by 1 and the other changes by 0 or by 1 toward the far endpoint |
| Raster.ClimbAtMostRise | src/main.rs:124-128 | the minor coordinate never passes the far endpoint |
| Raster.WalkAccuracy | src/main.rs:114-129 | each walk point is within half a pixel of the ideal line: `abs(2 * dx * (y - y0) - 2 * dy * t) <= dx` |
| Raster.LineAccuracy | src/main.rs:98-129 | each point of a line is within half a pixel of the ideal line |
| Raster.Trunc | src/main.rs:157-158 | `as i32` truncates toward zero |
| Raster.CompareSwapOrders | src/main.rs:146-148 | one compare-and-swap orders its two entries by y, permutes the sequence and leaves all other entries alone |
| Raster.SortByYSorts | src/main.rs:146-148 | the three compare-and-swaps leave a permutation of the input with `p[0].y <= p[1].y <= p[2].y` |
| Raster.Span | src/main.rs:157-159 | after the swap, row `i` spans from the smaller to the larger of the two interpolated x values |
| Raster.SpanPoints | src/main.rs:160-162 | the span `lo..=hi` pushes `hi - lo + 1` points, or none when `lo > hi` |
| Raster.TriangleMath | src/main.rs:143-164 | `_triangle_math` appends exactly `TrianglePoints(p)` to `points` |
| Raster.FillRows | src/main.rs:152-163 | the row loop appends the spans of rows `0..trunc(p[2].y - p[0].y)` in order |
| Raster.RowEnds | src/main.rs:153-159 | the per-row interpolation and swap give the span ends |
| Raster.PushSpan | src/main.rs:160-162 | the inner loop appends the points of one span in order |
| Raster.Interpolation | src/main.rs:153-156 | in every row the segment height is positive, `0 <= alpha < 1` and `0 <= beta <= 1`, so no division is by zero |
| Raster.RowsCover | src/main.rs:152-163 | a point is pushed exactly when it lies in some row `i` at `y = trunc(p[0].y) + i` between that row's span ends |
| Raster.TriangleCover | src/main.rs:144-163 | a flat triangle pushes nothing; otherwise a point is pushed exactly when it lies in some row's span |
| ObjModel.TokenLength | src/model.rs:21 | the first token of a string ends at its first whitespace character |
| ObjModel.SplitWhitespace | src/model.rs:21 | `split_whitespace` yields non-empty tokens free of Unicode whitespace, and at least one token when the line starts with a non-whitespace character |
| ObjModel.SplitJoin | src/model.rs:21 | splitting words joined by spaces gives back the words |
| ObjModel.FirstField | src/model.rs:36-37 | `t[0]` of `split("/")` is the longest prefix with no `'/'`, followed by `'/'` or the end |
| ObjModel.FirstFieldIgnoresRest | src/model.rs:36-37 | later `/` fields of a face token play no part |
| ObjModel.ParseI32 | src/model.rs:37 | `parse::<i32>` only succeeds with a value in the `i32` range |
| ObjModel.ParseShow | src/model.rs:37 | every `i32` written in decimal parses back to itself (round trip) |
| ObjModel.OutOfRangeFails | src/model.rs:37 | a number outside the `i32` range does not parse |
| ObjModel.FaceIndex | src/model.rs:37 | a face index is an `i32`, whatever the token |
| ObjModel.CollectAll | src/model.rs:35-39 | collected indices have one entry per token |
| ObjModel.CollectAllPanics | src/model.rs:35-39 | collecting panics exactly when one token's outcome does |
| ObjModel.CollectAllElementwise | src/model.rs:35-39 | otherwise index `k` is token `k`'s |
| ObjModel.TokenIndices | src/model.rs:35-38 | one outcome per token, in order |
| ObjModel.OtherLinesSkipped | src/model.rs:20-41 | a line starting with neither `"v "` nor `"f "` (`"vt "`, `"vn "`, comments, blank lines) contributes nothing |
| ObjModel.VertexFromTokens | src/model.rs:20-29 | a `"v "` line succeeds exactly when tokens 1 to 3 exist and parse, and then gives the vertex built from them; further tokens are ignored |
| ObjModel.FirstToken | src/model.rs:31-32 | on a line starting `"f "` the token removed by `parts.remove(0)` is `"f"` |
| ObjModel.FaceLineTokens | src/model.rs:30-40 | a `"f "` line is the collected indices of the tokens after `"f"` |
| ObjModel.FaceFromTokens | src/model.rs:30-40 | a face has one index per token after `"f"`, of any number, each the integer before the token's first `/` minus one, with no range check |
| ObjModel.FacePanics | src/model.rs:35-38 | a face line panics exactly when some token's integer is missing, malformed, out of range, or `i32::MIN` (whose `- 1` overflows) |
| ObjModel.PanicPersists | src/model.rs:18-42 | once a line panics, reading the file panics |
| ObjModel.ReadLinesStep | src/model.rs:18-42 | reading one more line adds exactly what that line contributes |
| ObjModel.Read | src/model.rs:10-48 | the loop over lines pushing into `verticates` and `faces` computes `ReadLines` |
| ObjModel.ReadFace | src/model.rs:33-40 | the loop over face tokens pushing into `x` computes `FaceIndices` |
| ObjModel.ReadLinesConcat | src/model.rs:18-42 | reading is compositional in file order: the vertices and faces of a concatenation are those of the parts, concatenated, and it panics if either part does |
| ObjModel.ReadLinesPanics | src/model.rs:18-42 | reading panics exactly when some line panics |
| ObjModel.ReadLinesCounts | src/model.rs:20-41 | a successful read has one vertex per `"v "` line and one face per `"f "` line |
| Geometry.Add | src/geometry.rs:72-81 | vector `+` is element-wise for every `i < N` |
| Geometry.Sub | src/geometry.rs:88-96 | vector `-` is element-wise for every `i < N` |
| Geometry.Scale | src/geometry.rs:103-112 | vector times scalar multiplies every element |
| Geometry.DotProduct | src/geometry.rs:118-125 | the loop accumulates `Σ self[i] * other[i]` from zero in index order (`Dot`) |
| Geometry.Cross | src/geometry.rs:134-145 | the generic `^` panics for every `N >= 1` (the index `b` reaches `N`) and gives the empty vector for `N = 0` |
| Geometry.PlusMinus | src/geometry.rs:72-96 | subtracting what was added gives the vector back |
| Geometry.DotUpToSymmetric | src/geometry.rs:118-125 | partial dot sums are symmetric |
| Geometry.DotUpToScaled | src/geometry.rs:118-125 | partial dot sums are linear in a scaled factor |
| Geometry.DotUpToPlus | src/geometry.rs:118-125 | partial dot sums distribute over `+` |
| Geometry.DotLaws | src/geometry.rs:118-125 | the dot product is symmetric, homogeneous and additive |
| Geometry.Dot3DIsDot | src/geometry.rs:368-370 | the explicit `Vector3D` dot equals the accumulated `Vector<3>` dot |
| Geometry.CrossOrthogonal | src/geometry.rs:378-384 | `(a ^ b) * a = 0` and `(a ^ b) * b = 0` |
| Geometry.CrossAntisymmetric | src/geometry.rs:378-384 | `b ^ a = -(a ^ b)` |
| Geometry.Ops2DAreElementwise | src/geometry.rs:201-231 | the `Vector2D` `+`, `-` and scalar `*` are the element-wise operations of `Vector<2, T>`, and subtracting what was added gives the vector back |
| Geometry.Ops3DAreElementwise | src/geometry.rs:329-363 | the `Vector3D` `+`, `-` and scalar `*` are the element-wise operations of `Vector<3, T>`, and subtracting what was added gives the vector back |
| Geometry.Cross2DIsPlanarCross | src/geometry.rs:236-241 | both components of `Vector2D ^` are `self.y * other.x - self.x * other.y`, the negated z of the planar cross product |
| Matrices.New | src/geometry.rs:572-578 | `Matrix::new` is all zeros with the given shape |
| Matrices.Identity | src/geometry.rs:663-672 | `identity` has 1 exactly on the diagonal and 0 elsewhere |
| Matrices.Trunspose | src/geometry.rs:585-593 | `trunspose` panics exactly when `0 < COLS < ROWS`, and otherwise sets every `m[j][i]` to `self[i][i]` |
| Matrices.Transposed | src/geometry.rs:585-593 | the transpose that the name suggests, with swapped shape |
| Matrices.TransposeTwice | src/geometry.rs:585-593 | transposing twice is the identity |
| Matrices.TrunsposeIsNotTranspose | src/geometry.rs:585-593 | on `[[1, 2], [3, 4]]` `trunspose` gives `[[1, 4], [1, 4]]`, not the transpose |
| Matrices.Mul | src/geometry.rs:694-707 | the triple loop computes `Product`: `Σ_k self[i][k] * other[k][j]` into a matrix with `COLS` rows, panicking when `N > 0` and `ROWS > COLS` |
| Matrices.MatrixProduct | src/geometry.rs:697-705 | the product has `ROWS` rows and `N` columns |
| Matrices.SquareProduct | src/geometry.rs:690-707 | for a square left factor `mul` never panics and is the ordinary product |
| Matrices.OuterProductPanics | src/geometry.rs:690-707 | a 4×1 by 1×4 product panics, although the ordinary product of outer-product entries exists |
| Matrices.DotUnit | src/geometry.rs:663-672 | a row dotted with an identity column picks one entry |
| Matrices.UnitDot | src/geometry.rs:663-672 | an identity row dotted with a column picks one entry |
| Matrices.IdentityNeutral | src/geometry.rs:663-672 | the identity is neutral for the product on both sides |
| Matrices.Associative | src/geometry.rs:697-705 | the product is associative: `(a * b) * c == a * (b * c)` |
| Matrices.SquareMulAssociative | src/geometry.rs:690-707 | for square factors `mul` never panics and is associative |
| Matrices.VectorFrom | src/geometry.rs:148-156 | `Vector::<N>::from` divides the first `N - 1` rows by the last, leaves the last element 0, and panics for `N = 0` |
| Matrices.SingleRowFrom | src/geometry.rs:148-156 | for `N = 1` nothing is divided and the result is `[0]`, whatever the entry |
| Matrices.DehomogenizedScaleFree | src/geometry.rs:148-156 | scaling a column by a non-zero factor does not change the vector it converts to |
| Matrices.Matrix41From | src/geometry.rs:711-718 | `Matrix::<4, 1>::from` is a column with 1 in row 3 |
| Matrices.Homogeneous | src/geometry.rs:711-718 | the evidently intended embedding `[x, y, z, 1]` is a column with 1 in row 3 |
| Matrices.Matrix41RoundTrip | src/geometry.rs:711-718 | converting back with `Vector3D::from` gives `(x, y, x)`, so the round trip fails whenever `z != x` |
| Matrices.HomogeneousRoundTrip | src/geometry.rs:388-394 | `Vector3D::from` inverts `[x, y, z, 1]`, and also any non-zero multiple of it |
| Inversion.Augmented | src/geometry.rs:605-613 | `[A | I]` has `N` rows of `2 * N` entries |
| Inversion.PivotUpTo | src/geometry.rs:618-623 | the chosen pivot row lies in `col..N` |
| Inversion.SwapRows | src/geometry.rs:631-633 | a row swap keeps the shape |
| Inversion.Normalized | src/geometry.rs:636-639 | dividing the pivot row keeps the shape |
| Inversion.EliminatedRow | src/geometry.rs:644-647 | eliminating a row keeps its length |
| Inversion.EliminateUpTo | src/geometry.rs:642-649 | elimination keeps the shape and leaves the pivot row unchanged |
| Inversion.Step | src/geometry.rs:616-649 | a successful column step keeps the shape of `[A | I]` |
| Inversion.Reduce | src/geometry.rs:616-650 | the column loop keeps the shape |
| Inversion.RightHalf | src/geometry.rs:653-658 | the extracted inverse is `N` by `N` |
| Inversion.Inverse | src/geometry.rs:602-661 | `inverse` computes `GaussJordan`: `None` as soon as a pivot is below `1e-10`, otherwise the right half of the reduced `[A | I]` |
| Inversion.Augment | src/geometry.rs:605-613 | the nested loops build `[A | I]` |
| Inversion.FindPivot | src/geometry.rs:618-623 | the pivot loop computes `PivotUpTo` |
| Inversion.NormalizeRow | src/geometry.rs:636-639 | the row division computes `Normalized` |
| Inversion.EliminateColumn | src/geometry.rs:642-649 | the elimination loops compute `EliminateUpTo` |
| Inversion.Extract | src/geometry.rs:653-658 | the extraction loop copies the right half |
| Inversion.PivotIsFirstMaximum | src/geometry.rs:618-623 | the pivot is the first row at or below the diagonal with maximal `abs(a[row][col])` |
| Inversion.StepRejects | src/geometry.rs:626-628 | a column step fails exactly when every candidate below the diagonal has magnitude below `1e-10` |
| Inversion.ZeroColumnSingular | src/geometry.rs:616-628 | a matrix whose first column is zero has no inverse |
| Inversion.ZeroRowSingular | src/geometry.rs:602-661 | a matrix with a zero row has no inverse: `inverse` returns `None` |
| Inversion.SwapKeeps | src/geometry.rs:631-633 | a row swap keeps the relation `S * aug = [A | I]` with the matching column swap of `S` |
| Inversion.NormalizeKeeps | src/geometry.rs:636-639 | dividing the pivot row keeps the relation with the pivot column of `S` scaled |
| Inversion.EliminateOneKeeps | src/geometry.rs:644-647 | eliminating one row keeps the relation with a column of `S` added |
| Inversion.EliminateKeeps | src/geometry.rs:642-649 | the whole elimination of a column keeps the relation |
| Inversion.StepKeeps | src/geometry.rs:616-649 | one column step keeps the relation and makes the column a unit column |
| Inversion.ReduceKeeps | src/geometry.rs:616-650 | the column loop keeps the relation and leaves the left half the identity |
| Inversion.InitiallyRecovers | src/geometry.rs:605-613 | `[A | I]` satisfies the relation with `S = I`, and no column is reduced yet |
| Inversion.FinallyInverse | src/geometry.rs:652-658 | when the left half is the identity, `S` is `A` and `A` times the right half is `I` |
| Inversion.InverseIsRightInverse | src/geometry.rs:602-661 | under exact arithmetic a `Some` result `R` satisfies `A * R = I` |
| Scene.AsUsize | src/scene.rs:104 | `as usize` of a finite value truncates, with negative values giving 0 |
| Scene.SetPixel | src/scene.rs:67-69 | `scene[x][y] = color` changes that entry and no other, and keeps the shape |
| Scene.Scene.constructor | src/scene.rs:34-36 | `new` makes `height` rows of `width` zeros and `width * height` depths of `f32::MIN` |
| Scene.Scene.Set | src/scene.rs:67-69 | `set` changes only `scene[x][y]` and leaves `zbuffer` alone |
| Scene.Scene.Fragment | src/scene.rs:101-111 | one pixel of the scan updates both fields as `Commit` says, and reports a panic exactly when `Commit` panics; the buffers keep the shape `new` gave them, and on a square scene no pixel of the clamped box panics |
| Scene.DepthTest | src/scene.rs:101-106 | the `continue` test panics exactly when the pixel is inside and its index is beyond `zbuffer`, and passes exactly when all weights are `>= 0` and the stored depth is `<= frag_depth` |
| Scene.CommitEffect | src/scene.rs:101-111 | a pixel outside, behind the stored depth or discarded leaves both buffers unchanged; a passing pixel gets `zbuffer[idx] := frag_depth` and `scene[p0][p1] := color`, nothing else |
| Scene.EqualDepthPasses | src/scene.rs:101-110 | a fragment at exactly the stored depth is written |
| Scene.DepthNeverDecreases | src/scene.rs:101-111 | no stored depth ever decreases, and both buffers keep their shape |
| Scene.GreaterDepthWins | src/scene.rs:101-111 | of two fragments inside their triangles at one pixel, the one with the greater depth ends up in both buffers whichever is committed first, and the other then changes nothing |
| Scene.IndexInRange | src/scene.rs:104 | inside the clamped box of a square scene the depth index is below `width * height` |
| Scene.SquareNeverPanics | src/scene.rs:104-110 | on a square scene no pixel of the clamped box panics |
| Scene.WideScenePanics | src/scene.rs:104-110 | on a scene 2 wide and 1 high, a pixel in the box passes the depth test and then panics in `set`, which indexes rows by `x` |
| Scene.BoundingBox | src/scene.rs:79-88 | the nested clamping loops compute `ClampedBox`, `max(0, min_i pts2[i][j])` and `min(clamp[j], max_i pts2[i][j])` with the `f32::MAX` start values, and panic on `width - 1` or `height - 1` for an empty scene |
| Scene.BoundStep | src/scene.rs:85-86 | clamping after every vertex equals clamping once after all of them |
| Scene.RunningBounds | src/scene.rs:83-88 | after three vertices the running bounds are the three-way minimum and maximum |
| Scene.BoxOnScreen | src/scene.rs:79-88 | the box exists exactly for a non-empty scene and lies between pixel 0 and the last column and row |
| Scene.BoxCoversVertices | src/scene.rs:83-88 | every on-screen vertex coordinate lies inside the box |
| Scene.Cross | src/scene.rs:177-183 | `cross` gives a vector of length 3 |
| Scene.CrossIsCross3D | src/scene.rs:177-183 | `cross` is the standard cross product, orthogonal to both factors |
| Scene.EdgeRow | src/scene.rs:163-167 | each row of `s` has three entries |
| Scene.Normal | src/scene.rs:168 | `u` has three entries |
| Scene.BarycentricOf | src/scene.rs:160-175 | `barycentric` is `(-1, 1, 1)` when `abs(u[2]) <= 1e-2` and otherwise has components summing to 1 |
| Scene.Barycentric | src/scene.rs:160-175 | the loop filling `s` and the arithmetic after it compute `BarycentricOf` |
| Scene.NormalOrthogonal | src/scene.rs:163-168 | `u` is orthogonal to both rows of `s` |
| Scene.BarycentricReproduces | src/scene.rs:163-174 | for a triangle that is not degenerate the weights reproduce the point: `r[0] * a + r[1] * b + r[2] * c = p` |
| Scene.ClipWeights | src/scene.rs:97-98 | the renormalised weights have three components |
| Scene.ClipWeightsSum | src/scene.rs:97-98 | the renormalised weights sum to 1 exactly when the second and third perspective-divided weights are equal |

## Left out

- File I/O (`File::open`, `read_exact`, `read_to_end`, `BufReader::lines`): the model takes the bytes of a file, or its lines, as inputs.
- The `transmute` of the 18-byte TGA header: the header fields are inputs. The conversion of the `i8`/`i16` fields to `usize` is not modelled; `Tga.ReadFile` requires a non-negative `bitsperpixel` below 128. The Image ID and colour map are never skipped, as in the source.
- `f32` rounding, infinities and NaN: every `f32` is an exact real. `Scene.ClipWeights` returns `None` where an `f32` division by zero would give a value that is not finite. `Scene.AsUsize` ignores the saturation of `as usize` above `usize::MAX`.
- `parse::<f32>` is a function parameter of `ObjModel.Read` and `ObjModel.ParseLine`; its format is not modelled.
- `ObjModel.FaceIndex`: the `- 1` on `i32::MIN` is a panic, as in a debug build; a release build wraps instead.
- `NumCast`-based `round` and the general `cast`: these are floating-point conversions. Only the `cast::<i32>` of `_triangle_math` is modelled, as truncation toward zero by `Raster.Trunc`.
- `norm` and `normalize`: these take a square root.
- `get_color` and `get_color_from_rgb`: these are conversions to SDL colours.
- `Vector4D` and `Vector4D::from` (src/geometry.rs:398-560): nothing in `main.rs`, `model.rs` or `scene.rs` uses them.
- SDL plumbing: window creation, texture locking, `update`, `wait_for_exit`, `main`, and the `line` and `triangle` wrappers that call `draw_points`. The `_test_line` test is also left out.
- The scan loops of `Scene::triangle` (src/scene.rs:94-116) never terminate on a rejected pixel, because `continue` skips `p[1] += 1.0`. Only one iteration of their body is modelled, as `Scene.Scene.Fragment`. The transformation of the vertices before the box (src/scene.rs:71-76) is not modelled. `frag_depth` is an input: the dot product `clipc[2] * bc_clip`. The shader's `fragment` call is replaced by its two results, `discard` and `color`.
- `src/scene.rs` and `src/tga.rs` are not part of the crate, because `main.rs` declares only `mod model` and `mod geometry`. `Scene::triangle` would not type-check as written either:
  - Indexing a `Matrix` yields `[f32; COLS]` (src/geometry.rs:676-681). So `barycentric(pts2[0], …)` (src/scene.rs:96) receives arrays where it expects vectors, and `clipc[2] * bc_clip` (line 99) has no `Mul` impl.
  - Line 98 divides a `Vector` by an `f32`, and no `Div` is defined.
  - Line 107 calls `shader.fragment`, which the `Shader` trait does not declare.
  - Line 75 calls `proj` and line 161 calls `Vector::empty`, neither of which exists.

  `Scene.Scene.Fragment`, `Scene.ClipWeights`, `Scene.BoundingBox` and `Scene.Barycentric` model what the text evidently means: matrix rows taken as vectors, division component by component, and `s` starting from zeros.
- `Scene.Scene.Fragment`: when the source panics, the method says nothing about the buffers, because the program has stopped.
- `src/shader.rs` declares two accessors and has no behaviour.
- `Inversion.InverseIsRightInverse`: only `A * R = I` is proved; `R * A = I` is not stated.
- `Matrices.VectorFrom` and `Matrices.Vector3DFrom`: for more than one row, a zero last entry is excluded by the precondition. The `f32` division then gives an infinity or NaN, which the real-number model has no value for.
- `Matrices.SquareMulAssociative`: associativity of `mul` is stated only for square factors. For others, `mul`'s result with `COLS` rows either panics or pads the true product with zero rows (`Matrices.OuterProductPanics`), so `(a * b) * c` and `a * (b * c)` need not both exist. `Matrices.Associative` states associativity for the true product of any shapes.
- `Raster.LineMath`: the `i32` arithmetic of `_line_math` is unbounded here, so the model never panics where a debug build does. Examples:
  - `x += 1` past `i32::MAX`, for instance with `p0 = p1 = (i32::MAX, 0)`.
  - `(p0.x - p1.x).abs()` for `p0.x = i32::MIN` and `p1.x = 1`.
  - `dy.abs() * 2` for `|dy| > 2^30`.
- `Raster.Trunc`: `cast::<i32>().unwrap()` panics on a value outside the `i32` range, but the model truncates every real.
