# Postprocessing of a single-image segmentation run on an RKNN accelerator

The program loads a compiled network onto a Rockchip NPU, runs one inference on one resized
image and turns the output into a coloured segmentation mask. This project models the
postprocessing stage of `src/main.cc`. That stage has two loops over byte buffers.

- **Channel argmax** (`main`, lines 229-247). The output tensor is `out_h x out_w x out_c`
  unsigned bytes in NHWC layout. The scores of pixel `(h, w)` are the `out_c` bytes starting at
  `(h * out_w + w) * out_c`. For each pixel the loop keeps `max_class`, which starts at channel 0
  and moves to channel `c` only when `val > max_val`. It stores that channel at
  `seg_mask[h * out_w + w]`. So the first maximal channel wins, and a tie goes to the lowest index.
  `max_class` is an `int` stored into a `uint8_t`. `Bytes.Narrow` models that conversion modulo
  256. The mask value is always `< out_c`. It equals the pixel's argmax exactly when that argmax
  is below 256. That always holds when `out_c <= 256`, which is the case `ReducedAtPixel` states;
  with more channels, a pixel whose first maximum is at channel 256 or later gets a wrapped value.
- **Palette encoding** (`save_mask_as_png`, lines 87-107). This fills a `width * height * 3`
  buffer. Bytes `3i, 3i+1, 3i+2` get the colour of mask entry `i` from a two-row table:
  class 0 is (255, 0, 255) and class 1 is (0, 0, 0). The palette lookup is unchecked, so every
  entry must be 0 or 1.

Modules:

- `Bytes` (`bytes.dfy`) holds `uint8` and the `int -> uint8_t` narrowing.
- `ArgmaxReducer` (`argmax.dfy`) holds the first-maximum characterisation (`IsFirstMax`), the
  specification functions `FirstMax`, `ArgmaxAt` and `Reduced`, and the loops `PixelArgmax` and
  `Reduce`. Those loops are imperative methods over `array<uint8>`, proved against the
  specification functions.
- `MaskEncoder` (`mask_encoder.dfy`) holds the palette, the specification function `Encoded`
  with its pointwise, concatenation, locality and injectivity lemmas, and the loop
  `EncodePixels` over `n` entries. `Encode` runs it with `n = width * height`.
- `Postprocess` (`postprocess.dfy`) holds the sequence `main` runs: reduce, then encode with
  `(width, height) = (out_w, out_h)`. It also has a worked example on a 2 x 2 x 2 tensor.

The code does not reject a zero height, width or channel count. A zero height or width gives an
empty mask and an empty image. A zero channel count makes `output_data[base]` read past the end
of an empty buffer. So `out_h` and `out_w` may be 0 in the model, and `out_c >= 1` is a
precondition, because the source reads the first channel of every pixel unconditionally.

## Model

| member | source | states |
|---|---|---|
| `Bytes.Narrow` | src/main.cc:245 | storing the `int` class into the `uint8_t` mask keeps values below 256 unchanged and never increases a value |
| `ArgmaxReducer.FirstMax` | src/main.cc:235-244 | the channel the scan picks is a maximal score, and every earlier channel scores strictly lower |
| `ArgmaxReducer.FirstMaxUnique` | src/main.cc:238-243 | a position is the scan's result if and only if it is the first maximal position, so the characterisation determines the result |
| `ArgmaxReducer.TieGoesToLowest` | src/main.cc:240-243 | with strict `>`, a later channel that only ties an earlier one is never chosen |
| `ArgmaxReducer.TieExample` | src/main.cc:240-243 | the scores `[200, 200, 50]` give class 0 |
| `ArgmaxReducer.ArgmaxAt` | src/main.cc:234-244 | the class chosen for a pixel is a valid channel index (`< out_c`) and the first maximum of the pixel's `out_c` scores starting at `base` |
| `ArgmaxReducer.ArgmaxAtLocal` | src/main.cc:234-239 | only the bytes `[base, base + out_c)` decide the pixel's class: two buffers that agree there give the same class |
| `ArgmaxReducer.PixelLayout` | src/main.cc:232-245 | pixel `(h, w)` is stored at `h * out_w + w`, which lies below `out_h * out_w`, and distinct pixels get distinct mask entries |
| `ArgmaxReducer.PixelCovers` | src/main.cc:229-233 | every one of the `out_h * out_w` mask entries is some pixel's entry, so the nested loops fill the whole mask |
| `ArgmaxReducer.Reduced` | src/main.cc:229-247 | the mask has exactly `out_h * out_w` entries, and every entry is a valid channel index (`< out_c`) |
| `ArgmaxReducer.ReducedAtPixel` | src/main.cc:232-245 | when `out_c <= 256`, the entry at `h * out_w + w` is the first maximum of exactly the scores at `[(h * out_w + w) * out_c, (h * out_w + w) * out_c + out_c)` |
| `ArgmaxReducer.PixelArgmax` | src/main.cc:234-244 | the channel loop of one pixel returns the pixel's argmax `ArgmaxAt` |
| `ArgmaxReducer.Reduce` | src/main.cc:229-247 | the nested loops produce a newly allocated mask of `out_h * out_w` entries equal to `Reduced` of the score buffer, reading but never changing the buffer |
| `MaskEncoder.Encoded` | src/main.cc:95-107 | the image has exactly three bytes per mask entry |
| `MaskEncoder.EncodedAt` | src/main.cc:102-107 | bytes `3i, 3i+1, 3i+2` of the image are the palette colour of mask entry `i` |
| `MaskEncoder.EncodedAppend` | src/main.cc:102-107 | encoding a concatenation of masks gives the concatenation of their images, so pixels are encoded independently and in order |
| `MaskEncoder.EncodedLocal` | src/main.cc:102-107 | each pixel's three bytes depend only on its own mask entry |
| `MaskEncoder.EncodedInjective` | src/main.cc:89-92 | the two palette rows differ, so two in-palette masks with the same image are equal |
| `MaskEncoder.EncodePixels` | src/main.cc:95-107 | over `n` mask entries, the loop fills a newly allocated `n * 3` buffer equal to `Encoded` of those entries and does not change the mask; it requires every such entry to be a palette row (0 or 1) |
| `MaskEncoder.Encode` | src/main.cc:94-107 | the newly allocated buffer has `width * height * 3` bytes and equals `Encoded` of the first `width * height` mask entries, so the same mask always yields the same image; it requires every such entry to be a palette row (0 or 1) |
| `Postprocess.TwoClassesInPalette` | src/main.cc:89-92 | with at most two output channels, every reduced mask entry is a palette row, so the encoder's precondition holds |
| `Postprocess.Postprocess` | src/main.cc:228-250 | reducing and then encoding with `(out_w, out_h)` gives a new mask equal to `Reduced` and a new image of `out_h * out_w * 3` bytes that is `Encoded` of that mask |
| `Postprocess.ExampleMask` | src/main.cc:232-247 | per-pixel scores (10,200), (200,10), (5,5), (0,255) give the mask `[1, 0, 0, 1]` |
| `Postprocess.ExampleImage` | src/main.cc:102-107 | the mask `[1, 0, 0, 1]` gives the image black, magenta, magenta, black |

## Left out

- `load_file` and `load_and_resize_image` (src/main.cc:25-64) are left out. They are file I/O and calls into the stb image decoder and resizer, which this model cannot see.
- `get_time_us` and the timing arithmetic are left out. They are wall-clock telemetry in `float` milliseconds and have no effect on results.
- All `rknn_*` calls (init, query, create_mem, set_io_mem, run, destroy) are left out. They belong to the opaque accelerator runtime. The output dimensions they report are parameters of `Reduce` and `Postprocess`. `out_h` and `out_w` are naturals, `out_c >= 1` is required, and the buffer length must be `out_h * out_w * out_c`.
- `stbi_write_png` and the `printf` diagnostics in `save_mask_as_png` are left out. They are image serialisation and console output.
- The `malloc` failure branch of `save_mask_as_png` (lines 96-99) is left out. Allocation in the model cannot fail, and the branch only prints and returns.
- The command-line check, the early returns and the `free`/`rknn_destroy_mem` calls of `main` are left out. They are plumbing around foreign handles. The source does not release buffers on its error paths, so there is no release discipline to verify.
- C `int` overflow of `out_h * out_w * out_c`, `width * height * 3` and `i * 3` is not modelled. Dimensions are unbounded naturals.
- Encode and Postprocess: the behaviour for a mask entry of 2 or more is left out. The source then reads past its two-row palette, which is undefined behaviour. The model requires every entry to be 0 or 1. For `Postprocess`, that means the reduced mask must be in the palette, which holds whenever `out_c <= 2`.
