/**
 LSB steganography over whole images.

 The embedder walks a carrier image and a text stencil of the same size,
 column by column (x outer, y inner), and writes into a fresh image a pixel
 whose red channel carries the stencil's black/white bit in its LSB and whose
 green and blue are the carrier's. The extractor walks an encoded image and
 writes black for an even red value and white for an odd one.

 Images the code walks are `array2<Pixel>` indexed `[x, y]`; the specification
 functions work on `Image` values, and `ImageOf` reads an array as one.
 */
module Steganography {
  import opened Pixels
  import opened PythonBinary

  datatype Option<T> = None | Some(value: T)

  /** Why an encoding can fail: the red rewrite is read before it was ever assigned. */
  datatype EncodeError = UnboundNewBinary

  datatype Result<T> = Ok(value: T) | Err(error: EncodeError)

  /** An image value: `columns[x][y]` is the pixel at (x, y). */
  datatype Image = Image(width: nat, height: nat, columns: seq<seq<Pixel>>) {
    predicate Valid() {
      |columns| == width && forall x | 0 <= x < width :: |columns[x]| == height
    }

    function At(x: nat, y: nat): Pixel
      requires Valid() && x < width && y < height
    {
      columns[x][y]
    }
  }

  predicate SameSize(a: Image, b: Image) {
    a.width == b.width && a.height == b.height
  }

  /** The image value held by an array, with the array's dimensions. */
  ghost function ImageOf(a: array2<Pixel>): (img: Image)
    reads a
    ensures img.Valid() && img.width == a.Length0 && img.height == a.Length1
    ensures forall x, y | 0 <= x < a.Length0 && 0 <= y < a.Length1 :: img.At(x, y) == a[x, y]
  {
    Image(a.Length0, a.Length1,
      seq(a.Length0, x requires 0 <= x < a.Length0 reads a =>
        seq(a.Length1, y requires 0 <= y < a.Length1 reads a => a[x, y])))
  }

  /** Two valid images of one size that agree at every coordinate are equal. */
  lemma ImageExt(a: Image, b: Image)
    requires a.Valid() && b.Valid() && SameSize(a, b)
    requires forall x, y | 0 <= x < a.width && 0 <= y < a.height :: a.At(x, y) == b.At(x, y)
    ensures a == b
  {
    forall x | 0 <= x < a.width
      ensures a.columns[x] == b.columns[x]
    {
      assert forall y | 0 <= y < a.height :: a.columns[x][y] == a.At(x, y);
    }
  }

  /** (i, j) is (x, y) or comes before it in the order of the `for x` / `for y` loops. */
  predicate AtOrBefore(i: int, j: int, x: int, y: int) {
    i < x || (i == x && j <= y)
  }

  /**
   (i, j) is a black or white stencil pixel, and every stencil pixel after it
   up to (x, y) in loop order is neither.
   */
  ghost predicate LatestBinary(s: Image, i: nat, j: nat, x: nat, y: nat)
    requires s.Valid() && i < s.width && j < s.height
  {
    && IsBinary(s.At(i, j))
    && forall k, l | 0 <= k < s.width && 0 <= l < s.height && !AtOrBefore(k, l, i, j) && AtOrBefore(k, l, x, y) ::
         !IsBinary(s.At(k, l))
  }

  /**
   The red value the embedder writes at (x, y). A white stencil pixel sets the
   carrier red's LSB to 1, a black one to 0. Any other stencil pixel assigns
   nothing, and the rewrite left over from the previous pixel in loop order
   (the one above, or the last one of the previous column) is written again.
   Defined when the first pixel is binary; otherwise the embedder fails there.
   */
  function NewRed(c: Image, s: Image, x: nat, y: nat): (r: Byte)
    requires c.Valid() && s.Valid() && SameSize(c, s)
    requires x < c.width && y < c.height
    requires IsBinary(s.At(0, 0))
    ensures IsBinary(s.At(x, y)) ==>
      && r / 2 == c.At(x, y).red / 2
      && (r % 2 == 1 <==> s.At(x, y) == White)
    decreases x, y
  {
    var t := s.At(x, y);
    if t == White then SetLsb(c.At(x, y).red, true)
    else if t == Black then SetLsb(c.At(x, y).red, false)
    else if y > 0 then NewRed(c, s, x, y - 1)
    else NewRed(c, s, x - 1, c.height - 1)
  }

  /**
   (px, py) is the pixel the loops visit just before (x, y): the one above, or
   the last one of the previous column.
   */
  predicate Previous(px: int, py: int, x: int, y: int, h: int) {
    if y > 0 then px == x && py == y - 1 else px == x - 1 && py == h - 1
  }

  /** Moving from (px, py) to the next pixel (x, y) in loop order keeps or ends a latest binary pixel. */
  lemma LatestBinaryStep(s: Image, i: nat, j: nat, px: nat, py: nat, x: nat, y: nat)
    requires s.Valid() && i < s.width && j < s.height
    requires x < s.width && y < s.height && py < s.height && Previous(px, py, x, y, s.height)
    requires AtOrBefore(i, j, x, y) && !IsBinary(s.At(x, y))
    ensures LatestBinary(s, i, j, x, y) <==> AtOrBefore(i, j, px, py) && LatestBinary(s, i, j, px, py)
  {
  }

  /**
   NewRed, stated without the recursion: there is a black or white stencil
   pixel at or before (x, y) in loop order with no other such pixel between
   it and (x, y), and the red at (x, y) is that pixel's carrier red with its
   LSB set from it.
   */
  lemma {:induction false} NewRedIsLatestBinary(c: Image, s: Image, x: nat, y: nat)
    requires c.Valid() && s.Valid() && SameSize(c, s)
    requires x < c.width && y < c.height
    requires IsBinary(s.At(0, 0))
    ensures exists i, j | 0 <= i < c.width && 0 <= j < c.height && AtOrBefore(i, j, x, y) ::
      LatestBinary(s, i, j, x, y)
    ensures forall i, j | 0 <= i < c.width && 0 <= j < c.height && AtOrBefore(i, j, x, y) && LatestBinary(s, i, j, x, y) ::
      NewRed(c, s, x, y) == SetLsb(c.At(i, j).red, s.At(i, j) == White)
    decreases x, y
  {
    if IsBinary(s.At(x, y)) {
      assert LatestBinary(s, x, y, x, y);
      forall i, j | 0 <= i < c.width && 0 <= j < c.height && AtOrBefore(i, j, x, y) && LatestBinary(s, i, j, x, y)
        ensures i == x && j == y
      {
      }
    } else {
      var px, py := if y > 0 then x else x - 1, if y > 0 then y - 1 else c.height - 1;
      NewRedIsLatestBinary(c, s, px, py);
      var i, j :| 0 <= i < c.width && 0 <= j < c.height && AtOrBefore(i, j, px, py) && LatestBinary(s, i, j, px, py);
      LatestBinaryStep(s, i, j, px, py, x, y);
      forall i', j' | 0 <= i' < c.width && 0 <= j' < c.height && AtOrBefore(i', j', x, y) && LatestBinary(s, i', j', x, y)
        ensures NewRed(c, s, x, y) == SetLsb(c.At(i', j').red, s.At(i', j') == White)
      {
        LatestBinaryStep(s, i', j', px, py, x, y);
      }
    }
  }

  /** The pixel the embedder writes at (x, y): the new red with the carrier's green and blue. */
  function EncodedAt(c: Image, s: Image, x: nat, y: nat): (p: Pixel)
    requires c.Valid() && s.Valid() && SameSize(c, s)
    requires x < c.width && y < c.height
    requires IsBinary(s.At(0, 0))
    ensures p.green == c.At(x, y).green && p.blue == c.At(x, y).blue
    ensures IsBinary(s.At(x, y)) ==>
      && p.red / 2 == c.At(x, y).red / 2
      && (p.red % 2 == 1 <==> s.At(x, y) == White)
  {
    Pixel(NewRed(c, s, x, y), c.At(x, y).green, c.At(x, y).blue)
  }

  /**
   The image the embedder produces from carrier `c` and stencil `s`. It fails
   exactly when there is a first pixel and that stencil pixel is neither black
   nor white; otherwise the result has the carrier's dimensions.
   */
  function Encoded(c: Image, s: Image): (r: Result<Image>)
    requires c.Valid() && s.Valid() && SameSize(c, s)
    ensures r.Err? <==> c.width > 0 && c.height > 0 && !IsBinary(s.At(0, 0))
    ensures r.Ok? ==> r.value.Valid() && SameSize(r.value, c)
  {
    if c.width > 0 && c.height > 0 && !IsBinary(s.At(0, 0)) then Err(UnboundNewBinary)
    else
      Ok(Image(c.width, c.height,
        seq(c.width, x requires 0 <= x < c.width =>
          seq(c.height, y requires 0 <= y < c.height => EncodedAt(c, s, x, y)))))
  }

  /**
   The stencil the extractor recovers from `e`: the same dimensions, every
   pixel pure black or pure white, white exactly where red is odd.
   */
  function Decoded(e: Image): (d: Image)
    requires e.Valid()
    ensures d.Valid() && SameSize(d, e)
    ensures forall x, y | 0 <= x < d.width && 0 <= y < d.height ::
      IsBinary(d.At(x, y)) && (d.At(x, y) == White <==> e.At(x, y).red % 2 == 1)
  {
    Image(e.width, e.height,
      seq(e.width, x requires 0 <= x < e.width =>
        seq(e.height, y requires 0 <= y < e.height => DecodePixel(e.At(x, y)))))
  }

  /** The log of coordinates a loop wrote lists each (x, y) of a w-by-h image exactly once. */
  ghost predicate WrittenOnce(writes: seq<(int, int)>, w: nat, h: nat) {
    && (forall k | 0 <= k < |writes| :: 0 <= writes[k].0 < w && 0 <= writes[k].1 < h)
    && (forall k, l | 0 <= k < l < |writes| :: writes[k] != writes[l])
    && (forall x, y | 0 <= x < w && 0 <= y < h :: (x, y) in writes)
  }

  /** `lit` is the literal `new_binary` holds after pixel (x, y): `int(lit, 2)` is the red written there. */
  ghost predicate HoldsNewRed(lit: string, c: Image, s: Image, x: nat, y: nat)
    requires c.Valid() && s.Valid() && SameSize(c, s)
    requires x < c.width && y < c.height
    requires IsBinary(s.At(0, 0))
  {
    IsBinLiteral(lit) && IntBase2(lit) == NewRed(c, s, x, y)
  }

  /**
   The coordinates a pair of loops `for x`, `for y < h` has visited before
   reaching (x, y), in the order it visited them.
   */
  ghost function Scan(x: nat, y: nat, h: nat): seq<(int, int)>
    requires y <= h
    decreases x, y
  {
    if y > 0 then Scan(x, y - 1, h) + [(x, y - 1)]
    else if x > 0 then Scan(x - 1, h, h)
    else []
  }

  /**
   `writes` lists, without repetition, exactly the coordinates of an image h
   pixels high that come before (x, y) in loop order.
   */
  ghost predicate WrittenBefore(writes: seq<(int, int)>, x: nat, y: nat, h: nat) {
    && (forall k | 0 <= k < |writes| ::
          0 <= writes[k].0 && 0 <= writes[k].1 < h && (writes[k].0 < x || (writes[k].0 == x && writes[k].1 < y)))
    && (forall k, l | 0 <= k < l < |writes| :: writes[k] != writes[l])
    && (forall i, j | 0 <= i && 0 <= j < h && (i < x || (i == x && 0 <= j < y)) :: (i, j) in writes)
  }

  /** Appending (x, y) to a log that has reached (x, y) gives one that has reached (x, y + 1). */
  lemma WrittenBeforeStep(writes: seq<(int, int)>, x: nat, y: nat, h: nat)
    requires y < h && WrittenBefore(writes, x, y, h)
    ensures WrittenBefore(writes + [(x, y)], x, y + 1, h)
  {
  }

  /** The nested loops visit every coordinate before (x, y) exactly once. */
  lemma {:induction false} ScanWrittenBefore(x: nat, y: nat, h: nat)
    requires y <= h
    ensures WrittenBefore(Scan(x, y, h), x, y, h)
    decreases x, y
  {
    if y > 0 {
      ScanWrittenBefore(x, y - 1, h);
      WrittenBeforeStep(Scan(x, y - 1, h), x, y - 1, h);
    } else if x > 0 {
      ScanWrittenBefore(x - 1, h, h);
    }
  }

  /** Once the outer loop has run to w, every coordinate of the w-by-h image was visited exactly once. */
  lemma ScanWrittenOnce(w: nat, h: nat)
    ensures WrittenOnce(Scan(w, 0, h), w, h)
  {
    ScanWrittenBefore(w, 0, h);
  }

  /**
   The red rewrite of one pixel, done on Python's binary literal `new_binary`:
   for a white stencil pixel the last digit of `bin(red)` becomes "1", for a
   black one "0", which `int(_, 2)` reads as red with its LSB set accordingly;
   any other stencil pixel leaves `new_binary` as it was.
   */
  method RewriteRed(red: Byte, textPixel: Pixel, newBinary: Option<string>) returns (next: Option<string>)
    ensures textPixel == White ==>
      next.Some? && IsBinLiteral(next.value) && IntBase2(next.value) == SetLsb(red, true)
    ensures textPixel == Black ==>
      next.Some? && IsBinLiteral(next.value) && IntBase2(next.value) == SetLsb(red, false)
    ensures !IsBinary(textPixel) ==> next == newBinary
  {
    next := newBinary;
    var ogBinary := Bin(red);
    if textPixel == White {
      next := Some(ogBinary[..|ogBinary| - 1] + "1");
      RewriteLastDigit(red, "1");
    } else if textPixel == Black {
      next := Some(ogBinary[..|ogBinary| - 1] + "0");
      RewriteLastDigit(red, "0");
    }
  }

  /** An array holding `EncodedAt` at every coordinate holds the image `Encoded` produces. */
  lemma EncodedCells(a: array2<Pixel>, c: Image, s: Image)
    requires c.Valid() && s.Valid() && SameSize(c, s)
    requires a.Length0 == c.width && a.Length1 == c.height
    requires c.width > 0 && c.height > 0 ==> IsBinary(s.At(0, 0))
    requires forall i, j | 0 <= i < a.Length0 && 0 <= j < a.Length1 :: a[i, j] == EncodedAt(c, s, i, j)
    ensures Encoded(c, s).Ok? && ImageOf(a) == Encoded(c, s).value
  {
    ImageExt(ImageOf(a), Encoded(c, s).value);
  }

  /**
   The embedder. The carrier and the stencil `textImage` (rasterised at the
   carrier's size) are only read; the result is a new image, filled pixel by
   pixel, equal to `Encoded`. It fails, as the source does with an unbound
   local, when the first stencil pixel is neither black nor white. `writes`
   logs the coordinates written, in order.
   */
  method EncodeImage(carrier: Image, textImage: Image)
    returns (result: Result<array2<Pixel>>, ghost writes: seq<(int, int)>)
    requires carrier.Valid() && textImage.Valid() && SameSize(carrier, textImage)
    ensures result.Err? <==> Encoded(carrier, textImage).Err?
    ensures result.Ok? ==>
      && result.value.Length0 == carrier.width
      && result.value.Length1 == carrier.height
      && ImageOf(result.value) == Encoded(carrier, textImage).value
      && WrittenOnce(writes, carrier.width, carrier.height)
    ensures result.Ok? ==> fresh(result.value)
  {
    var xSize, ySize := carrier.width, carrier.height;
    var encoded := new Pixel[xSize, ySize]((_, _) => Black);
    var newBinary: Option<string> := None;
    writes := [];
    for x := 0 to xSize
      invariant x > 0 && ySize > 0 ==> IsBinary(textImage.At(0, 0))
      invariant newBinary.None? <==> x == 0 || ySize == 0
      invariant newBinary.Some? ==> HoldsNewRed(newBinary.value, carrier, textImage, x - 1, ySize - 1)
      invariant forall i, j | 0 <= i < x && 0 <= j < ySize :: encoded[i, j] == EncodedAt(carrier, textImage, i, j)
      invariant writes == Scan(x, 0, ySize)
    {
      for y := 0 to ySize
        invariant (x > 0 || y > 0) && ySize > 0 ==> IsBinary(textImage.At(0, 0))
        invariant newBinary.None? <==> (x == 0 && y == 0) || ySize == 0
        invariant newBinary.Some? && y > 0 ==> HoldsNewRed(newBinary.value, carrier, textImage, x, y - 1)
        invariant newBinary.Some? && y == 0 ==> HoldsNewRed(newBinary.value, carrier, textImage, x - 1, ySize - 1)
        invariant forall i, j | 0 <= i < xSize && 0 <= j < ySize && (i < x || (i == x && j < y)) ::
          encoded[i, j] == EncodedAt(carrier, textImage, i, j)
        invariant writes == Scan(x, y, ySize)
      {
        var tempPixel := carrier.At(x, y);
        var textPixel := textImage.At(x, y);
        var red, green, blue := tempPixel.red, tempPixel.green, tempPixel.blue;
        newBinary := RewriteRed(red, textPixel, newBinary);
        if newBinary.None? {
          result := Err(UnboundNewBinary);
          return;
        }
        assert HoldsNewRed(newBinary.value, carrier, textImage, x, y);
        var newRed := IntBase2(newBinary.value);
        encoded[x, y] := Pixel(newRed, green, blue);
        writes := writes + [(x, y)];
      }
    }
    EncodedCells(encoded, carrier, textImage);
    ScanWrittenOnce(xSize, ySize);
    result := Ok(encoded);
  }

  /**
   The extractor: the encoded image is only read; the result is a new image of
   the same size, filled pixel by pixel, equal to `Decoded`. It reads the last
   character of `bin(red)`; both branches together cover every value, so
   `writes` shows each coordinate written exactly once and no pixel keeps the
   black the new image starts with merely by omission.
   */
  method DecodeImage(encodedImage: Image)
    returns (decodedImage: array2<Pixel>, ghost writes: seq<(int, int)>)
    requires encodedImage.Valid()
    ensures decodedImage.Length0 == encodedImage.width
    ensures decodedImage.Length1 == encodedImage.height
    ensures ImageOf(decodedImage) == Decoded(encodedImage)
    ensures WrittenOnce(writes, encodedImage.width, encodedImage.height)
    ensures fresh(decodedImage)
  {
    var xSize, ySize := encodedImage.width, encodedImage.height;
    decodedImage := new Pixel[xSize, ySize]((_, _) => Black);
    writes := [];
    for x := 0 to xSize
      invariant forall i, j | 0 <= i < x && 0 <= j < ySize ::
        decodedImage[i, j] == DecodePixel(encodedImage.At(i, j))
      invariant writes == Scan(x, 0, ySize)
    {
      for y := 0 to ySize
        invariant forall i, j | 0 <= i < xSize && 0 <= j < ySize && (i < x || (i == x && j < y)) ::
          decodedImage[i, j] == DecodePixel(encodedImage.At(i, j))
        invariant writes == Scan(x, y, ySize)
      {
        var pixel := encodedImage.At(x, y).red;
        var binary := Bin(pixel);
        LastDigitIsParity(pixel);
        if binary[|binary| - 1..] == "0" {
          decodedImage[x, y] := Black;
          writes := writes + [(x, y)];
        } else if binary[|binary| - 1..] == "1" {
          decodedImage[x, y] := White;
          writes := writes + [(x, y)];
        }
      }
    }
    ImageExt(ImageOf(decodedImage), Decoded(encodedImage));
    ScanWrittenOnce(xSize, ySize);
  }

  /**
   What the embedder does to one pixel: green and blue are the carrier's; where
   the stencil pixel is black or white, red keeps the carrier red's upper seven
   bits, moves by at most one and is odd exactly for white.
   */
  lemma EncodedPixel(c: Image, s: Image, x: nat, y: nat)
    requires c.Valid() && s.Valid() && SameSize(c, s) && Encoded(c, s).Ok?
    requires x < c.width && y < c.height
    ensures Encoded(c, s).value.At(x, y).green == c.At(x, y).green
    ensures Encoded(c, s).value.At(x, y).blue == c.At(x, y).blue
    ensures IsBinary(s.At(x, y)) ==>
      var r, r0 := Encoded(c, s).value.At(x, y).red, c.At(x, y).red;
      && r / 2 == r0 / 2
      && r0 - 1 <= r <= r0 + 1
      && (r % 2 == 1 <==> s.At(x, y) == White)
  {
  }

  /**
   A stencil pixel that is neither black nor white is never the first one of a
   successful encoding, and its encoded red repeats the red written at the
   previous pixel in loop order.
   */
  lemma UnclassifiedPixelRepeatsPrevious(c: Image, s: Image, x: nat, y: nat)
    requires c.Valid() && s.Valid() && SameSize(c, s) && Encoded(c, s).Ok?
    requires x < c.width && y < c.height && !IsBinary(s.At(x, y))
    ensures x > 0 || y > 0
    ensures y > 0 ==> Encoded(c, s).value.At(x, y).red == Encoded(c, s).value.At(x, y - 1).red
    ensures y == 0 ==> x > 0 && Encoded(c, s).value.At(x, y).red == Encoded(c, s).value.At(x - 1, c.height - 1).red
  {
  }

  /**
   An unclassified stencil pixel can move red far from the carrier's: a
   gray pixel below a white one copies the white pixel's red.
   */
  lemma UnclassifiedPixelMayChangeUpperBits()
    ensures
      var c := Image(1, 2, [[Pixel(0, 0, 0), Pixel(200, 0, 0)]]);
      var s := Image(1, 2, [[White, Pixel(128, 128, 128)]]);
      && c.Valid() && s.Valid()
      && Encoded(c, s).Ok?
      && Encoded(c, s).value.At(0, 1).red == 1
      && c.At(0, 1).red == 200
  {
  }

  /**
   Round trip: for any carrier and any black-and-white stencil of the same
   size, the encoding succeeds and decoding it gives the stencil back.
   */
  lemma RoundTrip(c: Image, s: Image)
    requires c.Valid() && s.Valid() && SameSize(c, s)
    requires forall x, y | 0 <= x < s.width && 0 <= y < s.height :: IsBinary(s.At(x, y))
    ensures Encoded(c, s).Ok? && Decoded(Encoded(c, s).value) == s
  {
    var e := Encoded(c, s).value;
    var d := Decoded(e);
    forall x, y | 0 <= x < s.width && 0 <= y < s.height
      ensures d.At(x, y) == s.At(x, y)
    {
      DecodeSetLsb(c.At(x, y).red, c.At(x, y).green, c.At(x, y).blue, s.At(x, y));
    }
    ImageExt(d, s);
  }

  /** Re-encoding an encoded image with the same stencil writes the same red at every pixel. */
  lemma {:induction false} ReencodeNewRed(c: Image, s: Image, x: nat, y: nat)
    requires c.Valid() && s.Valid() && SameSize(c, s) && Encoded(c, s).Ok?
    requires x < c.width && y < c.height
    ensures NewRed(Encoded(c, s).value, s, x, y) == NewRed(c, s, x, y)
    decreases x, y
  {
    var t := s.At(x, y);
    if t == White {
      SetLsbIdempotent(c.At(x, y).red, true);
    } else if t == Black {
      SetLsbIdempotent(c.At(x, y).red, false);
    } else if y > 0 {
      ReencodeNewRed(c, s, x, y - 1);
    } else {
      ReencodeNewRed(c, s, x - 1, c.height - 1);
    }
  }

  /**
   Encoding is idempotent: encoding the result again with the same stencil
   gives the same image.
   */
  lemma ReencodeIsIdentity(c: Image, s: Image)
    requires c.Valid() && s.Valid() && SameSize(c, s) && Encoded(c, s).Ok?
    ensures Encoded(Encoded(c, s).value, s) == Encoded(c, s)
  {
    var e := Encoded(c, s).value;
    var e2 := Encoded(e, s);
    assert e2.Ok?;
    forall x, y | 0 <= x < c.width && 0 <= y < c.height
      ensures e2.value.At(x, y) == e.At(x, y)
    {
      ReencodeNewRed(c, s, x, y);
    }
    ImageExt(e2.value, e);
  }
}
