# LSB image steganography, modelled in Dafny

The modelled program hides a text message in a picture. The text is drawn as
white glyphs on a black image of the carrier's size (the stencil). The
embedder (`encode_image`) then writes a new image. Each pixel gets the
carrier's green and blue. Its red is the carrier's red with the
least-significant bit replaced by the stencil's bit: 1 for a white stencil
pixel, 0 for a black one. The extractor (`decode_image`) writes a new image
that is black where the red value is even and white where it is odd.

The model has three modules:

- `Pixels` (`pixels.dfy`): 8-bit channels, RGB pixels, black and white,
  the red-LSB rewrite `SetLsb` and the per-pixel decoder `DecodePixel`.
- `PythonBinary` (`python_binary.dfy`): the string forms the code works on.
  `Bin` is Python's `bin(n)`, `IntBase2` is `int(s, 2)`. The lemmas show that
  taking `bin(red)[:-1] + "1"` (or `"0"`) and reading it back is the same as
  `SetLsb`, and that `bin(red)[-1:]` is the parity digit of red.
- `Steganography` (`steganography.dfy`): image values (`Image`, indexed
  `[x][y]`), the specification functions `Encoded` and `Decoded`, and the
  methods `EncodeImage` and `DecodeImage`. The methods run the source's
  nested `for x` / `for y` loops, fill a freshly allocated `array2<Pixel>` in
  place, and are proved equal to the specification functions. Each also
  returns a ghost log of the coordinates it wrote. The lemmas prove the round
  trip, idempotence of re-encoding, channel isolation and the LSB properties.

Two behaviours of the code are modelled as written, although a reader of the
program's intent might expect otherwise:

- A stencil pixel that is not exactly white is not simply encoded as 0.
  The code assigns `new_binary` only for exactly white or exactly black
  stencil pixels (steganography.py:88-93). For any other pixel, the literal
  left over from the previous pixel in loop order is used again, so that
  pixel's red becomes the previous pixel's new red. If the very first pixel
  is such a pixel, the variable is unbound and the function raises before it
  saves the encoded image (steganography.py:99). The stencil file written by
  `write_text` (steganography.py:55) has already been saved by then. The model carries `newBinary: Option<string>` across
  iterations, and `NewRed` defines the resulting red recursively. `Encoded`
  returns `Err(UnboundNewBinary)` exactly when the first stencil pixel is
  neither black nor white.
- There is no dimension-mismatch error. The code never checks
  dimensions, because it rasterises the stencil at the carrier's own size.
  The model therefore states equal sizes as a precondition of
  `EncodeImage` and `Encoded`.

## Model

| member | source | states |
|---|---|---|
| `Pixels.SetLsb` | steganography.py:86-94 | the new red keeps the carrier red's upper seven bits (`s / 2 == r / 2`), has the stencil bit as its LSB, and differs from the carrier red by at most one, staying in 0..255 |
| `Pixels.SetLsbUnique` | steganography.py:86-94 | keeping the upper seven bits and having the given LSB pins down the new red: no other byte has both properties |
| `Pixels.SetLsbIdempotent` | steganography.py:89-94 | setting the LSB to a fixed bit a second time changes nothing |
| `Pixels.DecodePixel` | steganography.py:24-29 | a decoded pixel is always exactly black or exactly white, and it is white exactly when red is odd |
| `Pixels.DecodeDependsOnlyOnRedParity` | steganography.py:24-29 | two pixels decode to the same colour if and only if their red values have the same parity; green and blue play no part |
| `Pixels.DecodeSetLsb` | steganography.py:86-94 | per pixel: decoding a pixel whose red LSB was set from a black or white stencil pixel gives that stencil pixel back |
| `PythonBinary.BinDigits` | steganography.py:86 | the digits of `bin(n)` are nonempty, all `0`/`1`, end in the parity digit of n, start with `1` when n > 0, and are exactly `0` when n = 0 |
| `PythonBinary.Bin` | steganography.py:86 | `bin(n)` is `0b` followed by at least one binary digit |
| `PythonBinary.BinDigitsValue` | steganography.py:94 | `int(bin(n), 2) == n`: the digits of `bin(n)` denote n |
| `PythonBinary.LastDigitIsParity` | steganography.py:25-28 | `bin(n)[-1:]` is `"0"` exactly when n is even and `"1"` exactly when n is odd |
| `PythonBinary.RewriteLastDigit` | steganography.py:86-94 | replacing the last digit of `bin(n)` by `"1"` or `"0"` gives a valid literal that `int(_, 2)` reads as `n - n % 2 + bit`, also for n = 0 |
| `Steganography.RewriteRed` | steganography.py:86-93 | for a white stencil pixel the new literal reads as the red with LSB 1; for black, as the red with LSB 0; for any other pixel `new_binary` is left as it was |
| `Steganography.NewRed` | steganography.py:86-94 | the red written at (x, y), defined by recursion over loop order as the leftover `new_binary` makes it; where the stencil pixel is black or white it keeps the carrier red's upper seven bits and is odd exactly for white (the carried-over case is characterised by `NewRedIsLatestBinary` and `UnclassifiedPixelRepeatsPrevious`) |
| `Steganography.NewRedIsLatestBinary` | steganography.py:86-94 | without recursion: some black or white stencil pixel lies at or before (x, y) in loop order with none between it and (x, y), and the red written at (x, y) is that pixel's carrier red with its LSB set from it; this is the last value assigned to `new_binary` |
| `Steganography.EncodedAt` | steganography.py:83-95 | the pixel written at (x, y) keeps the carrier's green and blue; where the stencil pixel is black or white its red keeps the upper seven bits and is odd exactly for white (see `EncodedPixel` for the same facts about the whole encoded image) |
| `Steganography.Encoded` | steganography.py:76-96 | encoding fails exactly when there is a first pixel and its stencil pixel is neither black nor white; otherwise the result is a valid image with the carrier's dimensions |
| `Steganography.Decoded` | steganography.py:20-29 | the decoded image has the input's dimensions; every pixel is black or white, and white exactly where the input's red is odd |
| `Steganography.EncodeImage` | steganography.py:76-96 | the nested loops fail exactly when `Encoded` fails; otherwise they fill a freshly allocated array with the carrier's dimensions equal to `Encoded`, and the write log lists every coordinate exactly once |
| `Steganography.DecodeImage` | steganography.py:20-29 | the nested loops fill a freshly allocated array with the input's dimensions equal to `Decoded`; the write log lists every coordinate exactly once, so no pixel stays at the initial black by omission |
| `Steganography.ScanWrittenBefore` | steganography.py:78-79 | before reaching (x, y), the `for x` / `for y` loops have visited exactly the earlier coordinates, each once |
| `Steganography.ScanWrittenOnce` | steganography.py:78-79 | once both loops have finished, every coordinate of the image has been visited exactly once |
| `Steganography.EncodedPixel` | steganography.py:83-95 | every encoded pixel keeps the carrier's green and blue; where the stencil pixel is black or white, red keeps the upper seven bits, moves by at most one, and is odd exactly for white |
| `Steganography.UnclassifiedPixelRepeatsPrevious` | steganography.py:88-94 | a stencil pixel that is neither black nor white is never the first pixel of a successful encoding; its encoded red equals the red written at the previous pixel in loop order |
| `Steganography.UnclassifiedPixelMayChangeUpperBits` | steganography.py:88-94 | a concrete case: a gray stencil pixel below a white one gets that pixel's new red, 1, where the carrier red is 200 |
| `Steganography.RoundTrip` | steganography.py:88-96 | for any carrier and any same-size all black-and-white stencil, encoding succeeds, and decoding the result gives the stencil back pixel for pixel |
| `Steganography.ReencodeNewRed` | steganography.py:88-94 | re-encoding an encoded image with the same stencil writes the same red at every pixel, including pixels whose red was carried over |
| `Steganography.ReencodeIsIdentity` | steganography.py:88-96 | encoding an already-encoded image again with the same stencil gives the same image |

## Left out

- Image file I/O: `Image.open` and `.save`, the hard-coded default paths, and
  the round trip through `images/image_text.png`. The stencil is passed to
  `EncodeImage` directly, and results are returned rather than saved.
- `write_text`: the text rasteriser depends on font loading, glyph drawing
  and `textwrap.wrap`, none of which is part of this model. The stencil is an
  input.
- The `__main__` demo script and its console output.
- Image modes other than RGB (an alpha channel, grayscale). A pixel is an RGB
  triple.
- Input images are modelled as read-only `Image` values, and `getpixel`
  becomes `Image.At`. Only the output is a mutable `array2<Pixel>`, so
  aliasing between an input and the output is not modelled. The output is
  always a newly allocated image.
- `int(s, 2)` is modelled only on literals of the form `0b` plus at least one
  binary digit, which are the only ones the code builds. The error Python
  raises for any other string is not modelled.
