# Image tensor preprocessing of an ONNX Runtime C sample

This project models, in Dafny, the logic of the ONNX Runtime C sample that the
sample owns itself. All of it is index bookkeeping around one fixed-shape
three-channel image tensor:

- **Layout conversion** (`src/main.c`). `hwc_to_chw` turns an interleaved byte
  image into a planar tensor of `3 * h * w` values. In the interleaved image,
  the channel varies fastest. In the planar tensor, all of channel 0 comes
  first, then channel 1, then channel 2. `chw_to_hwc` turns a planar tensor
  back into bytes. A value below 0 or above 255 becomes 0, not the nearest
  bound. Any other value is truncated.
- **Normalisation** (`src/image_file_libpng.c`). `normalize` rewrites the
  planar tensor in place. It keeps a block counter `j`. Element `i` is
  transformed with the constants `mean[2 - j]` and `stddev[2 - j]`.
- **Size guards.**
  - `read_image_file` accepts only a decoded size of `224 * 224 * 3` bytes.
  - `run_inference` accepts only a 720 by 720 image.

The model has four modules:

- `Layout` (`layout.dfy`) holds the two index maps `HwcIndex(i, c) = i * 3 + c`
  and `ChwIndex(i, c, stride) = c * stride + i`. Each map carries its inverse in
  its contract. The module also holds the functions `ChwOf` and `HwcOf`, which
  give the contents the conversions produce, and the two conversion methods
  over arrays with their loop invariants.
- `ImageFile` (`image_file.dfy`) holds:
  - the constants;
  - `Block(n, i) = i / (n / 3)`, the reference definition of the counter;
  - `CounterAt`, the counter exactly as the loop computes it, for any length;
  - the in-place `Normalize` method;
  - `ReadImageFile`.
- `Inference` (`inference.dfy`) holds the `run_inference` guard and the return
  path.
- `Wrappers` (`wrappers.dfy`) holds `Option`.

Tensor values are mathematical reals and bytes are the integers 0 to 255. The
PNG decoder is an abstract `PngSource`. It records:

- whether the file opens;
- the header's height and width;
- whether decoding finishes;
- the bytes it delivers, in `PNG_FORMAT_BGR` order.

The inference engine is a parameter `engine` of function type, mapping the
input tensor to the output tensor. The encoder's outcome is a boolean
parameter.

Four points about what the code does:

- The size check in `read_image_file` compares only the byte count
  `height * width * 3` with `150528`. It does not compare each dimension with
  224, so a 112 by 448 image passes too (`ImageFile.SizeCheckAcceptsNonSquare`).
- The constant index `2 - j` counts down while the planar block counts up.
  The decoder is asked for BGR, so planar block 0 is blue. Blue gets the
  constants at index 2, the entry the source comments as B. Block 2 is red and
  gets index 0, commented R. The indexing thus matches the colours
  (`ImageFile.NormalizedChannels`).
- The round trip bytes → planar → bytes holds for every byte buffer
  (`Layout.HwcOfChwOf`). The round trip planar → bytes → planar holds exactly
  for buffers of whole numbers in [0, 255] (`Layout.ChwOfHwcOf`).
- The two size guards exclude each other. No image that `read_image_file`
  accepts is 720 by 720, so in this build every call of `run_inference` returns
  -1 (`Inference.NoImagePassesBothGuards`, `Inference.RunInference`).
  - `RunInference` takes the model's side as a parameter `side`, so that the
    code after the guard stays reachable and verified.
  - The shipped value is `ModelSide = 720`.
  - The contract states what that value implies.

## Model

| member | source | states |
|---|---|---|
| Layout.HwcIndex | src/main.c:30 | the interleaved position of channel c of pixel i; dividing it by 3 gives back the pixel, the remainder gives back the channel |
| Layout.ChwIndex | src/main.c:30 | the planar position of channel c of pixel i lies below 3 * stride; dividing it by the stride gives back the channel, the remainder gives back the pixel |
| Layout.ChwIndexBijection | src/main.c:28-31 | ChwIndex is a bijection onto [0, 3 * stride): every planar position k has exactly one preimage, pixel k % stride of channel k / stride, so hwc_to_chw writes each output slot exactly once |
| Layout.HwcIndexBijection | src/main.c:46-52 | HwcIndex is a bijection onto [0, 3 * stride): every interleaved position k has exactly one preimage, pixel k / 3 of channel k % 3, so chw_to_hwc writes each output byte exactly once |
| Layout.ChwOf | src/main.c:25-31 | the planar contents have length 3 * stride, and position c * stride + i holds input byte i * 3 + c as a value |
| Layout.ToByte | src/main.c:49-51 | a value below 0 or above 255 becomes 0 (clamp to zero, not to the bound); a value in [0, 255] becomes its truncation, so 255.0 stays 255; the result is always a byte |
| Layout.HwcOf | src/main.c:46-52 | the interleaved contents have length 3 * stride, and byte i * 3 + c is ToByte of planar value c * stride + i |
| Layout.ToByteOfByte | src/main.c:50-51 | every byte value, including 255, passes through the clamp and truncation unchanged |
| Layout.HwcOfChwOf | src/main.c:24-55 | round trip: converting a byte buffer of length 3 * stride to planar values and back gives the same buffer |
| Layout.ChwOfHwcOf | src/main.c:24-55 | round trip the other way: a planar buffer survives bytes-and-back exactly when each of its values is a whole number in [0, 255] |
| Layout.HwcToChw | src/main.c:24-34 | hwc_to_chw: output_count is 3 * h * w, and the fresh output array holds ChwOf of the input |
| Layout.ChwToHwc | src/main.c:43-55 | chw_to_hwc: the output array has 3 * h * w bytes, equal to HwcOf of the input (clamp to zero, truncation, interleaved order) |
| ImageFile.Block | src/image_file_libpng.c:13 | for a length n divisible by 3, the block i / (n / 3) of element i is 0, 1 or 2, and it is the planar channel of i (i == ChwIndex(i % (n / 3), block, n / 3)) |
| ImageFile.Normalized | src/image_file_libpng.c:12-14 | normalize leaves the length unchanged; its definition gives each of the first n elements the constants of index 2 - block and keeps the rest |
| ImageFile.QuotientStep | src/image_file_libpng.c:13 | stepping i by one, i / q grows by one exactly when i reaches q * ((i - 1) / q + 1), the test the loop makes before incrementing j |
| ImageFile.CounterIsQuotient | src/image_file_libpng.c:11-13 | whenever n / 3 > 0, the counter as the loop computes it equals i / (n / 3) at every element i |
| ImageFile.CounterIsBlock | src/image_file_libpng.c:11-14 | for n divisible by 3 and i < n, the counter equals Block(n, i), so the constant index 2 - j is in [0, 2] |
| ImageFile.CounterShortBuffer | src/image_file_libpng.c:11-13 | for n below 3 the counter is 1 at every element |
| ImageFile.CounterInBounds | src/image_file_libpng.c:13-14 | for n > 0, the constant index stays in [0, 2] for all elements if and only if n is divisible by 3 or below 3 |
| ImageFile.CounterOverrunsAtFour | src/image_file_libpng.c:13-14 | with n = 4 the counter reaches 3 at element 3, so the source would read mean[-1] |
| ImageFile.Normalize | src/image_file_libpng.c:5-17 | normalize rewrites the array in place into Normalized of its old contents; the loop keeps the counter invariant j == i / (n / 3) |
| ImageFile.NormalizedChannels | src/image_file_libpng.c:6-14 | in a tensor built from interleaved bytes, channel c of every pixel is normalised with the constants of index 2 - c |
| ImageFile.NormalizedEnds | src/image_file_libpng.c:7-14 | the first element is normalised with 0.406 / 0.225 (index 2), the last with 0.485 / 0.229 (index 0) |
| ImageFile.SizeCheckAcceptsNonSquare | src/image_file_libpng.c:45-46 | a 112 by 448 BGR image has exactly the accepted decoded size |
| ImageFile.ReadImageFile | src/image_file_libpng.c:35-61 | returns 0 exactly when the file opens, its decoded size is 224 * 224 * 3 and decoding finishes, and -1 otherwise; on success it sets the dimensions from the header, output_count to 150528 and the tensor to the normalised CHW form of the decoded bytes |
| Inference.NoImagePassesBothGuards | src/main.c:67 | no image whose decoded size passes the read check is 720 by 720 |
| Inference.RunInference | src/main.c:57-104 | returns -1 unless reading succeeds and the image is side by side; the image goes to the encoder exactly then, as chw_to_hwc of the engine's output on the normalised tensor; the result is 0 exactly when the encoder also succeeds; with side = 720 every run returns -1 and nothing is written |

## Left out

- ONNX Runtime is not modelled: memory info, tensor creation, `IsTensor`, `Run`, `GetTensorMutableData`, the releases and the `ORT_ABORT_ON_ERROR` abort path are foreign calls. The engine is the parameter `engine`: a total function from input tensor to output tensor, every output having 3 * side * side values.
- libpng is not modelled. `png_image_begin_read_from_file` and `png_image_finish_read` become the fields of `PngSource`. `PNG_IMAGE_SIZE` becomes `DecodedSize`, for the 8-bit three-channel BGR format the source selects. `write_image_file` and `png_image_write_to_file` become the boolean `writeSucceeds`.
- `convert_c_to_wc` and `convert_wc_to_c` are not modelled. They wrap `mbstowcs_s` and `wcstombs_s` with fixed 100-entry buffers.
- `main` in `src/main.c` is not modelled: argument handling, session set-up, `usage`. It checks `argc < 3` but reads `argv[3]`. The root `main.c` only prints the runtime version.
- Diagnostic `printf` output is not modelled.
- Values are reals, not IEEE floats. The model does not capture rounding in the normalisation formula, its double-precision intermediate, or NaN in `chw_to_hwc`.
- Memory management is not modelled: `malloc`, `free`, `memset`, and the leak of `buffer` when decoding fails.
- Integers are unbounded. The model does not capture `size_t` overflow of `h * w * 3`, or the narrowing of the decoded size to `int` when it is passed to `normalize`. Neither can happen at the accepted size.
- Top-10 score selection is not part of this model. It appears in none of the source files modelled here.
- Normalize: requires the length to be divisible by 3 (or not positive). The source also stays in bounds for lengths 1 and 2; `CounterInBounds` covers those lengths.
- RunInference: takes the model's side as a parameter rather than the constant 720 of the source; the shipped constant is `ModelSide`, and the contract's last clause is the source's behaviour.
- ReadImageFile: on failure the source leaves the out-parameters unset. The model returns placeholder values, and its contract says nothing about them.
