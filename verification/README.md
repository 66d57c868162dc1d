# UVC camera driver core: pose algebra, status guard, slot accessors, depth colouring

This project models in Dafny the pure logic of an early librealsense UVC camera
driver and of its C# capture example:

- **Pose algebra** (`linear_algebra.dfy`, module `LinearAlgebra`). The driver's
  "tiniest linear algebra library" has 3-vectors (`float3`), column-major 3x3
  matrices (`float3x3`) and rigid poses (`pose`: orientation plus position).
  It provides vector addition and scaling, matrix-vector and matrix-matrix
  products, transpose, pose application, pose composition and pose inversion.
  Scalars are `real`.
- **Camera records and guards** (`uvc_camera.dfy`, module `UvcCamera`). This
  covers `MAX_STREAMS` and the `CheckUVC` status guard (a negative libuvc
  status becomes an error). It also covers the `ResolutionMode` and
  `CalibrationInfo` records, the user stream with its front/middle/back
  buffers, the camera's fixed table of stream slots, and the
  `IsStreamEnabled` / `GetImagePixels` accessors over that table.
- **Depth colouring** (`depth_histogram.dfy`, module `DepthHistogram`). On every
  tick the capture example turns a `width * height` frame of 16-bit depths
  into a BGR byte image by histogram equalisation. It counts every depth into
  65536 bins. It accumulates the bins from bin 1 upwards, with bin 0 ("no
  depth") left out. Each non-zero depth `d` gets the intensity
  `f = hist[d] * 255 / hist[0xFFFF]` and the bytes `(f, 0, 255 - f)`. Zero
  depth gets `(0, 5, 20)`. The three loops are methods over arrays with loop
  invariants. Their results are tied to a reference count `CountIn(s, lo, hi)`,
  the number of samples in `[lo, hi]`.
- `integers.dfy` (module `Integers`) holds the fixed-width integer types the
  other modules share.

The model follows the code, except at the two defects listed under Findings.
There it keeps both versions and the rest of the model uses the corrected one:
- Pose composition as written in the header does not satisfy
  `(a * b) * v == a * (b * v)`. `ComposeAsWritten` is the header's code, and
  `Compose` is the composition that satisfies that law. The laws are proved
  about `Compose`, and lemmas relate the two.
- The colouring's `histogram[d] * 255` wraps in 32 bits. `Intensity32` is the
  example's formula and `Intensity` the exact one. `Paint` and `ColorizeDepth`
  paint the exact intensity and prove that it equals the wrapped one whenever
  the product cannot overflow.

## Model

The header's operators and the example's formula map to members as follows:
- `float3 + float3` is `LinearAlgebra.Add` and `float3 * float` is `LinearAlgebra.Scale`, both at src/UVCCamera.h:58-59.
- `float3x3 * float3` is `MulVec` (line 60), `float3x3 * float3x3` is `MatMul` (line 61) and `transpose` is `Transpose` (line 62).
- `pose * float3` is `LinearAlgebra.Apply` (line 63). Its laws are carried by `ComposeApply`, `InverseApply` and `ComposeAsWrittenApply`.
- `pose * pose` is `LinearAlgebra.ComposeAsWritten` (line 64), with `LinearAlgebra.Compose` as the corrected version. Its laws are carried by `ComposeAsWrittenDoublesTranslation`, `ComposeAsWrittenApply`, `ComposeAsWrittenNotAssociative` and `InverseComposeAsWritten`.
- `inverse(pose)` is `LinearAlgebra.Inverse` (line 65). Its laws are carried by `InverseApply`, `InverseCompose`, `InverseComposeAsWritten` and `InverseComposeAsWrittenCounterexample`.
- The intensity `histogram[d] * 255 / histogram[0xFFFF]` of examples/cs-capture.cs:74 is `DepthHistogram.Intensity32` as written and `DepthHistogram.Intensity` corrected. Their laws are carried by `Intensity32Exact`, `Intensity32InRange` and `Intensity32Overflow`.

| member | source | states |
|---|---|---|
| `LinearAlgebra.MulVec` | src/UVCCamera.h:60 | the column combination `a.x*b.x + a.y*b.y + a.z*b.z` has row `i` of `a` dotted with `b` as its component `i` |
| `LinearAlgebra.MatMul` | src/UVCCamera.h:61 | the column-by-column product has entry `(i, j)` equal to row `i` of `a` dotted with column `j` of `b` |
| `LinearAlgebra.Transpose` | src/UVCCamera.h:56-62 | with column-major `M(i, j)` (component `i` of column `j`), `transpose(M)(i, j) == M(j, i)` for every `i, j` |
| `LinearAlgebra.TransposeInvolution` | src/UVCCamera.h:62 | `transpose(transpose(M)) == M` |
| `LinearAlgebra.MulVecAdditive` | src/UVCCamera.h:58-60 | `M * (u + v) == M * u + M * v` |
| `LinearAlgebra.MulVecHomogeneous` | src/UVCCamera.h:59-60 | `M * (v * k) == (M * v) * k` |
| `LinearAlgebra.MatMulApply` | src/UVCCamera.h:60-61 | `(A * B) * v == A * (B * v)` |
| `LinearAlgebra.MatMulAssociative` | src/UVCCamera.h:61 | `(A * B) * C == A * (B * C)` |
| `LinearAlgebra.ComposeApply` | src/UVCCamera.h:63-64 | for the intended composition, applying `a * b` to `v` applies `b` and then `a` |
| `LinearAlgebra.ComposeAssociative` | src/UVCCamera.h:64 | the intended pose composition is associative |
| `LinearAlgebra.IdentityPoseNeutral` | src/UVCCamera.h:64 | the identity pose is a left and right unit of the intended composition |
| `LinearAlgebra.InverseApply` | src/UVCCamera.h:65 | if `transpose(R) * R == I`, then `inverse(a) * (a * v) == v` |
| `LinearAlgebra.InverseCompose` | src/UVCCamera.h:65 | for the intended composition: if `transpose(R) * R == I`, then `inverse(a) * a` has identity orientation and zero position |
| `LinearAlgebra.ComposeAsWrittenDoublesTranslation` | src/UVCCamera.h:63-64 | the header's `a * b` is the intended `a * b` translated once more by `a.position`, so the two agree exactly when `a.position` is zero |
| `LinearAlgebra.ComposeAsWrittenApply` | src/UVCCamera.h:63-64 | applying the header's `a * b` to `v` gives `a * (b * v) + a.position`, which differs from `a * (b * v)` whenever `a.position` is non-zero |
| `LinearAlgebra.InverseComposeAsWritten` | src/UVCCamera.h:64-65 | for an orthonormal orientation, the header's `inverse(a) * a` has the identity orientation but keeps `inverse(a)`'s position |
| `LinearAlgebra.ComposeAsWrittenNotAssociative` | src/UVCCamera.h:63-64 | for untranslated `b` and `c`, the header's `a * (b * c)` translates by `2 * a.position` and `(a * b) * c` by `4 * a.position`, so the two differ whenever `a.position` is non-zero |
| `LinearAlgebra.InverseComposeAsWrittenCounterexample` | src/UVCCamera.h:64-65 | for a pure non-zero translation `a`, the header's `inverse(a) * a` is a translation by `-a.position`, not the identity |
| `UvcCamera.CheckUvc` | src/UVCCamera.h:14-20 | fails exactly when `status < 0`; the exception's message starts with the call name and ends with libuvc's text for the status (the error's `call` and `status` fields are the model's, see Left out) |
| `UvcCamera.IsStreamEnabled` | src/UVCCamera.h:132 | true exactly when channel slot `stream` holds a channel |
| `UvcCamera.GetImagePixels` | src/UVCCamera.h:137 | `None` exactly when user slot `stream` is empty, otherwise the contents of that user stream's front buffer (a value, not the source's pointer, see Left out) |
| `UvcCamera.AccessorsReadOnlyTheirSlot` | src/UVCCamera.h:132-137 | the two accessors depend only on slot `stream` of the tables |
| `DepthHistogram.Intensity` | examples/cs-capture.cs:74 | for the exact (corrected) intensity: for `0 < hist[d] <= hist[0xFFFF]` it lies in `[0, 255]`, and it is 255 when `hist[d] == hist[0xFFFF]` |
| `DepthHistogram.IntensityMonotone` | examples/cs-capture.cs:74 | for the exact (corrected) intensity: a larger cumulative count never gives a smaller intensity |
| `DepthHistogram.Intensity32Exact` | examples/cs-capture.cs:74 | when `hist[d] * 255` fits in 32 bits, the wrapping unsigned product gives the exact intensity |
| `DepthHistogram.Intensity32InRange` | examples/cs-capture.cs:74-77 | for `0 < hist[d] <= hist[0xFFFF]` the wrapped intensity still lies in `[0, 255]`, so the `(byte)` casts keep `f` and `255 - f` unchanged |
| `DepthHistogram.Intensity32Overflow` | examples/cs-capture.cs:74-77 | with `hist[d] == hist[0xFFFF] == 16843010` the wrapped product gives intensity 0 and bytes `(0, 0, 255)` (red, in B, G, R order); the exact intensity is 255 with bytes `(255, 0, 0)` (blue) |
| `DepthHistogram.DepthIntensity` | examples/cs-capture.cs:65-74 | for the exact (corrected) intensity: a non-zero depth present in the frame has an intensity in `[0, 255]`; the division is never by zero |
| `DepthHistogram.CountDepths` | examples/cs-capture.cs:63-64 | bin `v` of the result holds the number of pixels of depth `v`, and the bins sum to the number of pixels |
| `DepthHistogram.Accumulate` | examples/cs-capture.cs:65 | bin 0 keeps its own count, and every bin `v >= 1` holds the sum of the input bins `1..v` |
| `DepthHistogram.CumulativeCounts` | examples/cs-capture.cs:63-65 | after both loops, bin 0 counts the zero-depth pixels and bin `v >= 1` counts the pixels with depth in `[1, v]` |
| `DepthHistogram.Paint` | examples/cs-capture.cs:68-85 | the image has three bytes per pixel; the bytes `3i..3i+2` are `(f, 0, 255 - f)` for a non-zero depth and `(0, 5, 20)` for zero depth, where `f` is the exact intensity; when `cum[0xFFFF] * 255` fits in 32 bits those bytes are also the ones of the example's wrapping formula |
| `DepthHistogram.ColorizeDepth` | examples/cs-capture.cs:59-85 | the image has length `3 * width * height`; a non-zero depth pixel gets the bytes of its histogram rank, a zero depth pixel gets `(0, 5, 20)`, and whenever the number of non-zero pixels times 255 fits in 32 bits the bytes equal those of the wrapping 32-bit formula |
| `DepthHistogram.DepthIntensityMonotone` | examples/cs-capture.cs:65-74 | for the exact (corrected) intensity: for non-zero depths `d1 <= d2` in the frame, `f(d1) <= f(d2)` |
| `DepthHistogram.LargestDepthIsFullIntensity` | examples/cs-capture.cs:65-74 | for the exact (corrected) intensity: the largest depth present in the frame maps to `f == 255` |
| `DepthHistogram.DepthIntensity32Monotone` | examples/cs-capture.cs:65-74 | for the example's wrapped intensity, while the number of non-zero pixels times 255 fits in 32 bits: non-zero depths `d1 <= d2` in the frame get `f(d1) <= f(d2)` |
| `DepthHistogram.LargestDepthIsFullIntensity32` | examples/cs-capture.cs:65-74 | for the example's wrapped intensity, under the same bound: the largest depth present in the frame maps to `f == 255` |

## Left out

- Floating point: scalars are `real`, so `float` rounding error is not modelled. Non-orthonormal orientations are allowed as inputs, but the inverse laws assume orthonormality.
- `LinearAlgebra.InverseCompose`: only `inverse(a) * a` is proved to be the identity. `a * inverse(a)` also needs `R * transpose(R) == I`. That follows from `transpose(R) * R == I` only by a determinant argument, which is not carried out.
- The triple buffer's `set_mode` and `update_image`, the stream channel's `set_mode`, `on_frame`, `start_streaming` and `stop_streaming`, and the camera's constructor, destructor, `EnableStream`, `StartStreaming`, `StopStreaming`, `WaitAllStreams`, `GetStreamIntrinsics` and `GetStreamExtrinsics`: the header only declares them, and their bodies are not part of this model. The triple buffer's purpose is also mutex-guarded concurrency.
- The device hooks `GetStreamSubdeviceNumber`, `RetrieveCalibration` and `SetStreamIntent`: they are pure virtual and implemented per device elsewhere.
- libuvc calls (`uvc_open2`, `uvc_stop_streaming`, `uvc_close`, `uvc_strerror`): these are foreign I/O. `CheckUvc` takes the text `uvc_strerror` would return as a parameter.
- The stream channel's constructor and destructor (src/UVCCamera.h:105-106): their bodies consist only of libuvc calls. The constructor passes `uvc_open2`'s status through `CheckUVC`, which is `UvcCamera.CheckUvc`; the destructor calls `uvc_stop_streaming` and `uvc_close`.
- `GetCameraName`, `GetDepthScale`, `get_mode` and `get_image`: each is a single field read of the records above. `GetImagePixels` covers `get_image`.
- `rs_intrinsics` and `uvc_frame_format` are declared in headers that are not part of this model. Intrinsics are an opaque list of reals, and formats are integers.
- `UvcCamera.IsStreamEnabled` and `UvcCamera.GetImagePixels` require `0 <= stream < MAX_STREAMS`, because the source indexes its slot arrays without a bounds check.
- `DepthHistogram.ColorizeDepth` requires `3 * width * height` to fit in a C# `int`. Larger frames overflow the example's `int` size arithmetic and its allocations throw; that is not modelled.
- The histogram bins are `nat`, while the example's `histogram` is `uint[]`, with 32-bit unsigned `++` and `+=` at examples/cs-capture.cs:64-65. These cannot wrap. Every bin, before and after accumulation, is a count of pixels, so it is at most `|depth|` (the `ensures` of `CountIn` and `CumulativeCounts`). Under `ColorizeDepth`'s `requires`, `|depth| <= INT32_MAX / 3 < 2^32`.
- `DepthHistogram.ColorizeDepth` computes the intensity with an exact product (the corrected formula, see Findings). It is proved equal to the example's wrapping 32-bit formula whenever the number of non-zero pixels (`histogram[0xFFFF]` after accumulation) times 255 fits in 32 bits. Beyond that bound the two can differ. The wrapped intensity still lies in `[0, 255]` (`DepthHistogram.Intensity32InRange`), so the example's `(byte)` casts never truncate and its pixel bytes are `(f, 0, 255 - f)` for the wrapped `f`.
- `DepthHistogram.Paint` paints the exact intensity, not line 74's wrapping `uint` product. It is proved equal to the wrapped one whenever `cum[0xFFFF] * 255` fits in 32 bits. For larger counts the two differ (for example `cum[1] == cum[0xFFFF] == 16843010` gives `(255, 0, 0)` here and `(0, 0, 255)` in the example, see Findings).
- `UvcCamera.GetImagePixels` returns the contents of the front buffer, not the pointer `front.data()`. So two things are not modelled. First, for an occupied slot whose front buffer is empty, `data()` may be null, while the model returns an empty sequence; `None` means only that the slot is empty. Second, the pointer aliases a buffer that the triple buffer later swaps, which a value cannot show.
- `UvcCamera.CheckUvc`: the `std::runtime_error` of the source carries only its message. The `call` and `status` fields of `RuntimeError` are a modelling convenience, so that the contract can name what the message is built from.
- The C# user interface (`Form`, `Timer`, `Bitmap`, `PictureBox` layout), `Marshal.Copy` and `GCHandle` pinning, and camera enumeration and error dialogs in `Main`. The depth frame is a sequence of `uint16`, standing for the `(ushort)` reading of the copied `short`s.

## Findings

| source | as written | input that shows it | evidently intended | confidence | as-written member | corrected member |
|---|---|---|---|---|---|---|
| src/UVCCamera.h:64 | `pose * pose` has position `a.position + a * b.position`, and `a * b.position` already adds `a.position` | `a` a translation by `(1, 0, 0)` with identity orientation, `b` the identity pose, `v` zero: `(a * b) * v == (2, 0, 0)` but `a * (b * v) == (1, 0, 0)`; `inverse(a) * a` translates by `(-1, 0, 0)` | position `a * b.position`, so that `(a * b) * v == a * (b * v)` and `inverse(a) * a` is the identity | high; not executed | `LinearAlgebra.ComposeAsWrittenApply` | `LinearAlgebra.ComposeApply` |
| examples/cs-capture.cs:74 | `histogram[d] * 255` is an unsigned 32-bit product and wraps | a frame of exactly 16843010 pixels (2 x 8421505) all at depth 1: `f` is 0 (red) instead of 255 (blue) | `f` in `[0, 255]` by histogram rank, as the line's comment says | medium, since only frames of at least 16843010 pixels are affected; not executed | `DepthHistogram.Intensity32Overflow` | `DepthHistogram.Intensity` |
