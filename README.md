# 24-bit BMP loader of the EGL DMA-buf test

This project models the logic of the EGL zero-copy texture test: `loadBMP`, which
reads a 24-bit Windows bitmap into a host pixel buffer, and the reporting switch
that runs when `eglCreateImageKHR` fails to import the DMA-buf. Everything else in
the program drives the kernel DMA heap, GBM, EGL and GL, and is left out.

Modules:

- `Wrappers`: `Option` and `Result`, which stand for the loader's `-1` returns.
- `Stdio`: an opened file is a `Stream` of bytes with a read position.
  - `Read` is `fread(p, n, 1, f)`. It succeeds only when `n > 0` and all `n` bytes remain.
  - On a short read the position moves to the end of the file.
  - `ReadInto` is the same call reading into an allocated array.
  - `SeekCur` and `SeekSet` are `fseek`.
- `BmpHeader`: `LoadHeader` follows the loader's reads and seeks exactly. Its contract
  says that the result is the same as `ParseHeaderAt`, which reads the fields at fixed
  byte positions:
  - magic "BM" at 0;
  - data offset (u32) at 10;
  - width and height (signed 32-bit) at 18 and 22;
  - planes (u16) at 26;
  - bits per pixel (u16) at 28.

  The checks run in the source's order: magic, then planes, then bit count.
- `Pixels`: the BGR to RGB swap. `SwapRedBlue` is a function on sequences. The lemmas
  about it give the per-pixel result, show that it is an involution and show that it
  is a permutation. `SwapRedBlueInPlace` is the source's `for` loop on an array, with
  a `temp` swap, proved equal to the function.
- `Loader`:
  - `Load` is the loader as a function, with one addition: it rejects a header whose
    `width * height * 3` does not fit 32 bits (see "## Findings").
  - `LoadBmp` is the imperative `loadBMP`. It fills a `TextureImage` record and returns 0 or -1.
  - The lemmas say when a file loads, which error a rejected file gets, and which input
    bytes end up in which output bytes.
  - It also holds both halves of the finding below.
- `EglImageError`: `Classify` maps an EGL error code to one of five named reasons or to
  `Unmapped`. `OnImportFailure` returns that reason together with the program status
  -ENODEV.

A file that cannot be opened is modelled as the input `None`. A file that exists is its
bytes. The host is assumed to be little-endian, as the loader's `fread` of multi-byte
fields into integers requires.

## Model

| member | source | states |
|---|---|---|
| `Stdio.Read` | egl-test.c:63-66 | `fread` of one `n`-byte element succeeds iff `n > 0` and `n` bytes remain; it then yields exactly those bytes; a short read leaves the position at or past the end of the file |
| `Stdio.ReadInto` | egl-test.c:121-125 | reading `imagesize` bytes into the malloc'd buffer succeeds exactly when `Read` does, and the buffer then holds those bytes |
| `Stdio.FailedReadIsSticky` | egl-test.c:88-107 | after a short read, every later read (after forward seeks) also fails; this is why the unchecked width/height reads cannot lead to a result |
| `BmpHeader.U16Le` | egl-test.c:63-69 | a 2-byte little-endian field is a value in [0, 2^16) |
| `BmpHeader.U32Le` | egl-test.c:78-82 | the 4-byte data offset is a value in [0, 2^32) |
| `BmpHeader.U32LeDigits` | egl-test.c:78-94 | the 4-byte fields are little-endian: byte i of the field is the i-th base-256 digit of its value, lowest first |
| `BmpHeader.I32Le` | egl-test.c:88-94 | width and height are 32-bit signed: in [-2^31, 2^31) and congruent to the unsigned reading mod 2^32 |
| `BmpHeader.U16LeDigits` | egl-test.c:68-72 | a 16-bit field equals `v` iff its low byte is `v % 256` and its high byte `v / 256` (so 0x4d42 iff the bytes are "BM") |
| `BmpHeader.LoadHeader` | egl-test.c:63-113 | the header read by successive `fread`s and relative `fseek`s gives the same outcome as reading magic at 0, offset at 10, width at 18, height at 22, planes at 26 and bit count at 28, with the checks in the source's order |
| `BmpHeader.HeaderAccepted` | egl-test.c:63-113 | the header is accepted iff the file has 30 bytes, starts with "BM", has 1 plane and 24 bpp; fewer than 2 bytes gives a read error, a bad magic gives NotBitmap, a bad plane count gives BadPlanes whatever the bit count, and a bad bit count gives BadBitCount |
| `Pixels.SwapRedBlue` | egl-test.c:127-132 | the converted buffer has the same length as the input |
| `Pixels.SwapRedBluePixel` | egl-test.c:127-132 | for every whole pixel k: out[3k] = in[3k+2], out[3k+1] = in[3k+1], out[3k+2] = in[3k] |
| `Pixels.SwapRedBlueAllPixels` | egl-test.c:127-132 | every whole pixel of the converted buffer is the input pixel with its first and third bytes exchanged |
| `Pixels.SwapRedBlueInvolution` | egl-test.c:127-132 | converting twice gives back the original buffer |
| `Pixels.SwapRedBluePermutes` | egl-test.c:127-132 | the converted buffer is a permutation of the input (same multiset of bytes) |
| `Pixels.SwapRedBlueInPlace` | egl-test.c:127-132 | the in-place loop over a buffer whose length is a multiple of 3 leaves exactly `SwapRedBlue` of the old contents |
| `Loader.ImageSize` | egl-test.c:115-116 | the image size `width * height * 3` is a whole number of 3-byte pixels |
| `Loader.Load` | egl-test.c:46-136 | a missing file gives FileNotFound; on success the image size is `width * height * 3`, positive, below 2^32, and equals the number of pixel bytes |
| `Loader.LoadPixels` | egl-test.c:115-133 | after an accepted header, it succeeds iff `width * height * 3` is in (0, 2^32) and the file holds that many bytes from the data offset. Otherwise it gives SizeOverflow or DataReadFailed. On success it keeps the header's width and height and holds exactly `ImageSize` bytes: the file's bytes from the data offset, with red and blue exchanged in every pixel |
| `Loader.LoadSucceedsIff` | egl-test.c:57-125 | a file loads iff its header is a one-plane 24-bpp bitmap header, `width * height * 3` is in (0, 2^32), and the file holds that many bytes from the data offset on |
| `Loader.LoadErrors` | egl-test.c:57-125 | a rejected header gives that header's error; an out-of-range size gives SizeOverflow; an empty image or too few bytes after the offset gives DataReadFailed |
| `Loader.LoadedPixels` | egl-test.c:115-133 | the loaded pixel k is bytes off+3k..off+3k+2 of the file with the first and third exchanged, where off is the u32 at byte 10; width and height are the fields at 18 and 22 |
| `Loader.LoadBmp` | egl-test.c:46-136 | returns 0 iff `Load` succeeds, else -1; on success the record holds the loaded width, height, size and a fresh buffer with the converted pixels |
| `Loader.LoadPixelsInto` | egl-test.c:115-135 | stores the dimensions, allocates, seeks, reads and converts in place; returns 0 iff `LoadPixels` succeeds, and the record then describes its image |
| `Loader.ImageSizeAsWritten` | egl-test.c:116 | the size as the C code computes it is below 2^32 and congruent to `width * height * 3` mod 2^32; it equals the product only when the product fits |
| `Loader.SwapLoopInBoundsIff` | egl-test.c:128-132 | every index `i` the loop visits has `i + 2 < size` iff `size` is a multiple of 3 |
| `Loader.WrappedSizeOverrunsBuffer` | egl-test.c:116-132 | for a 37838 x 37838 24-bpp header the computed size wraps to 175436, and the swap at i = 175434 touches byte 175436, past the buffer; `Load` rejects that file with SizeOverflow |
| `Loader.LoadedSwapInBounds` | egl-test.c:116-132 | for every file `Load` accepts, the size is a multiple of 3 and every swap index stays inside the buffer |
| `EglImageError.Classify` | egl-test.c:439-458 | BAD_DISPLAY, BAD_PARAMETER, BAD_MATCH, BAD_ACCESS and BAD_ALLOC get their own reasons and every other code is Unmapped (iff); the reason's code is the input code |
| `EglImageError.OnImportFailure` | egl-test.c:435-460 | whatever the code, the status is -ENODEV (-19); the reported reason is `Classify` of the code and carries that code |
| `EglImageError.ClassifyErrorCode` | egl-test.c:439-458 | classifying a named reason's code gives that reason back, so the five reasons are distinct |
| `EglImageError.ClassifyInjective` | egl-test.c:439-458 | two codes get the same reason iff they are the same code |

## Left out

- `printf` diagnostics. The model returns a `LoadError` value where the source prints a message.
- `fopen` is not modelled as a call. Its failure is the input `None`.
- fseek: the offset is assumed to fit a 64-bit `long`. With a 32-bit `long`, a data
  offset of 2^31 or more would make `fseek` fail. The pixels would then be read from byte 30.
- malloc: the model assumes it succeeds. The source does not check its result.
- LoadHeader: the unchecked width and height reads get the value 0 when they come up short.
  That value never reaches a result (see `FailedReadIsSticky`).
- LoadHeader: a short planes read is reported as `ReadFailed`. The C code would compare
  an uninitialised value in that case. The result is -1 either way.
- Stdio.ReadInto: does not say what a short read leaves in the buffer. The loader
  returns -1 without using that buffer.
- LoadBmp: on failure the contract says nothing about the record. The C code may already
  have stored width and height, and `main` does not read the record after a failure.
- SwapRedBlueInPlace: the loop index is unbounded. The source's `int i` would overflow
  for images of 2^31 bytes or more.
- Load: adds a size check the program does not have. When `width * height * 3` is outside
  [0, 2^32), the program carries on with the product modulo 2^32, while `Load` returns
  `SizeOverflow`. Some such files load without an overrun in the program: 65537 x 65537
  wraps to 393219 bytes, a whole number of pixels, and `Load` rejects that file.
  `ImageSizeAsWritten` models the wrapped size.
- ImageSizeAsWritten: signed overflow in `width * height` is undefined behaviour in C.
  The model uses the two's-complement wrap-around that compilers produce in practice.
- Negative heights (top-down bitmaps) and row padding are not handled by the source, so
  they are not modelled. Negative dimensions whose product is in range load as they would in C.
- The DMA-heap allocation, GBM/EGL bootstrap, shader compilation, geometry and draw
  calls, DMA-buf export, `mmap`/`memcpy` and teardown are not modelled. They are
  calls into the kernel, EGL and GL with no logic of their own beyond error returns.
- The rest of the pipeline imports the buffer as a 4-byte-per-pixel format. The loader
  produces 3 bytes per pixel (`width * height * 3`), and the model follows the loader.

## Findings

| source | as written | input that shows it | evidently intended | confidence | as-written member | corrected member |
|---|---|---|---|---|---|---|
| egl-test.c:116-132 | `biSizeImage = width * height * 3` wraps modulo 2^32. The wrapped size need not be a multiple of 3. The swap loop `i < biSizeImage; i += 3` then touches `data[i + 2]` past the malloc'd buffer. | A 24-bpp header with width = height = 37838 and at least 175436 bytes after the data offset. The size wraps to 175436 ≡ 2 (mod 3). The last iteration, i = 175434, swaps byte 175434 with byte 175436, one past the end. | Reject a header whose `width * height * 3` does not fit the 32-bit size. Every accepted image then has exactly `width * height * 3` bytes, and the loop stays in bounds. | not executed; the wrap assumes two's-complement `int` overflow | `Loader.WrappedSizeOverrunsBuffer` | `Loader.LoadedSwapInBounds` |
