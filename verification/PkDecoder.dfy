/** The two raster decoders, drawing into a bitmap, against the meaning of a raster. */
module PkDecoder {
  import opened Bytes
  import opened PkNumber
  import opened PkBitmap
  import opened PkRaster

  /** A row of pixels filled up with white to the bits of its bytes. */
  function Padded(row: Row, bits: nat): (r: Row)
    ensures |r| == bits
    ensures forall i :: 0 <= i < bits ==> r[i] == (i < |row| && row[i])
  {
    seq(bits, i => i < |row| && 0 <= i && row[i])
  }

  /** The bitmap rows that show what has been drawn so far, white below it. */
  function Canvas(drawn: Drawn, height: nat, bits: nat): (rows: seq<Row>)
    ensures |rows| == height
    ensures forall r :: 0 <= r < height ==> rows[r] == CanvasRow(drawn, r, bits)
  {
    seq(height, r requires 0 <= r < height => CanvasRow(drawn, r, bits))
  }

  function CanvasRow(drawn: Drawn, r: nat, bits: nat): Row {
    if r < |drawn.rows| then Padded(drawn.rows[r], bits)
    else if r == |drawn.rows| then Padded(drawn.partial, bits)
    else White(bits)
  }

  /** Every pixel of the picture, and white in the padding of each row. */
  predicate Shows(bitmap: seq<Row>, picture: seq<Row>, bits: nat) {
    && |bitmap| == |picture|
    && forall r :: 0 <= r < |picture| ==> bitmap[r] == Padded(picture[r], bits)
  }

  lemma EmptyCanvas(height: nat, bits: nat)
    ensures Canvas(Drawn([], [], 0), height, bits) == seq(height, _ => White(bits))
  {
    assert Padded([], bits) == White(bits);
  }

  lemma WhiteDrawn(drawn: Drawn, n: nat, height: nat, bits: nat)
    ensures Canvas(drawn.(partial := drawn.partial + Solid(false, n)), height, bits) == Canvas(drawn, height, bits)
  {
    assert Padded(drawn.partial + Solid(false, n), bits) == Padded(drawn.partial, bits);
  }

  lemma BlackDrawn(drawn: Drawn, n: nat, height: nat, bits: nat)
    requires |drawn.rows| < height && |drawn.partial| + n < bits
    ensures var before := Canvas(drawn.(partial := drawn.partial + Solid(true, n)), height, bits);
      Canvas(drawn.(partial := drawn.partial + Solid(true, n + 1)), height, bits)
        == before[|drawn.rows| := before[|drawn.rows|][|drawn.partial| + n := true]]
  {
    var row := |drawn.rows|;
    assert Padded(drawn.partial + Solid(true, n + 1), bits)
        == Padded(drawn.partial + Solid(true, n), bits)[|drawn.partial| + n := true];
  }

  lemma RowFinished(drawn: Drawn, repeat: nat, height: nat, bits: nat)
    requires |drawn.rows| < height
    ensures Canvas(drawn, height, bits) == Canvas(Drawn(drawn.rows + Times(drawn.partial, 1), [], repeat), height, bits)
  {
    assert Padded([], bits) == White(bits);
  }

  lemma RowCopied(rows: seq<Row>, row: Row, copy: nat, height: nat, bits: nat)
    requires 0 < copy && |rows| + copy < height
    ensures var before := Canvas(Drawn(rows + Times(row, copy), [], 0), height, bits);
      Canvas(Drawn(rows + Times(row, copy + 1), [], 0), height, bits) == before[|rows| + copy := before[|rows|]]
  {
    assert Padded([], bits) == White(bits);
  }

  lemma AllShown(rows: seq<Row>, height: nat, bits: nat)
    requires |rows| == height
    ensures Shows(Canvas(Drawn(rows, [], 0), height, bits), rows, bits)
  {}

  /** The pixels of one stretch of a run within a row. */
  method BlackPixels(bitmap: Bitmap, row: nat, column: nat, taken: nat, ghost drawn: Drawn)
    requires bitmap.Valid() && row < bitmap.height && column + taken <= bitmap.width
    requires row == |drawn.rows| && column == |drawn.partial|
    requires bitmap.rows == Canvas(drawn, bitmap.height, 8 * bitmap.rowBytes)
    modifies bitmap`rows, bitmap.bytes
    ensures bitmap.Valid()
    ensures bitmap.rows == Canvas(drawn.(partial := drawn.partial + Solid(true, taken)), bitmap.height, 8 * bitmap.rowBytes)
  {
    hide Canvas, Padded, Bits, At;
    assert drawn.partial + Solid(true, 0) == drawn.partial;
    for pixel := 0 to taken
      invariant bitmap.Valid()
      invariant bitmap.rows == Canvas(drawn.(partial := drawn.partial + Solid(true, pixel)), bitmap.height, 8 * bitmap.rowBytes)
    {
      bitmap.SetBlack(row, column + pixel);
      BlackDrawn(drawn, pixel, bitmap.height, 8 * bitmap.rowBytes);
    }
  }

  /** The copies of a finished row. */
  method Repeated(bitmap: Bitmap, row: nat, repeat: nat, ghost rows: seq<Row>, ghost line: Row)
    requires bitmap.Valid() && row == |rows| && row + repeat < bitmap.height
    requires bitmap.rows == Canvas(Drawn(rows + Times(line, 1), [], 0), bitmap.height, 8 * bitmap.rowBytes)
    modifies bitmap`rows, bitmap.bytes
    ensures bitmap.Valid()
    ensures bitmap.rows == Canvas(Drawn(rows + Times(line, repeat + 1), [], 0), bitmap.height, 8 * bitmap.rowBytes)
  {
    hide Canvas, Padded, Bits, At;
    for copy := 1 to repeat + 1
      invariant bitmap.Valid()
      invariant bitmap.rows == Canvas(Drawn(rows + Times(line, copy), [], 0), bitmap.height, 8 * bitmap.rowBytes)
    {
      bitmap.CopyRow(row, row + copy);
      RowCopied(rows, line, copy, bitmap.height, 8 * bitmap.rowBytes);
    }
  }

  /** What the decoder's loops keep: the bitmap shows what has been drawn, and white below it. */
  ghost predicate Drawing(bitmap: Bitmap, drawn: Drawn, row: nat, column: nat, repeat: nat)
    reads bitmap, bitmap.bytes
  {
    && bitmap.Valid()
    && row == |drawn.rows| <= bitmap.height
    && column == |drawn.partial| < bitmap.width
    && repeat == drawn.repeat
    && bitmap.rows == Canvas(drawn, bitmap.height, 8 * bitmap.rowBytes)
  }

  /** A stretch of one colour within the row in hand. */
  method Stretch(bitmap: Bitmap, row: nat, column: nat, taken: nat, black: bool, ghost drawn: Drawn)
    requires Drawing(bitmap, drawn, row, column, drawn.repeat) && row < bitmap.height && column + taken <= bitmap.width
    modifies bitmap`rows, bitmap.bytes
    ensures bitmap.Valid()
    ensures bitmap.rows == Canvas(drawn.(partial := drawn.partial + Solid(black, taken)), bitmap.height, 8 * bitmap.rowBytes)
  {
    hide Canvas, Padded, Bits, At;
    if black {
      BlackPixels(bitmap, row, column, taken, drawn);
    } else {
      WhiteDrawn(drawn, taken, bitmap.height, 8 * bitmap.rowBytes);
    }
  }

  /** A run laid down across as many rows as it reaches. */
  method PaintRun(bitmap: Bitmap, row0: nat, column0: nat, repeat0: nat, run: nat, black: bool, ghost start: Drawn)
    returns (status: Status, row: nat, column: nat, repeat: nat, ghost drawn: Drawn)
    requires Drawing(bitmap, start, row0, column0, repeat0) && row0 < bitmap.height
    modifies bitmap`rows, bitmap.bytes
    ensures bitmap.Valid()
    ensures match Paint(start, run, black, bitmap.width, bitmap.height)
      case Failed(failure) => status == failure
      case Ok(painted) => status == Done && drawn == painted && Drawing(bitmap, drawn, row, column, repeat)
  {
    hide Canvas, Padded, Bits, At;
    row, column, repeat, drawn := row0, column0, repeat0, start;
    var remaining: nat := run;
    ghost var width, height := bitmap.width, bitmap.height;
    ghost var painted := Paint(start, run, black, width, height);
    while remaining != 0
      invariant Drawing(bitmap, drawn, row, column, repeat)
      invariant remaining != 0 ==> row < height && Paint(drawn, remaining, black, width, height) == painted
      invariant remaining == 0 ==> painted == Ok(drawn) || (row < height && painted == Paint(drawn, 0, black, width, height))
      decreases remaining
    {
      var available := bitmap.width - column;
      var taken := if remaining < available then remaining else available;
      Stretch(bitmap, row, column, taken, black, drawn);
      ghost var line := drawn.partial + Solid(black, taken);
      column := column + taken;
      remaining := remaining - taken;
      if column == bitmap.width {
        if repeat > bitmap.height - row - 1 {
          return RepeatTooLong, row, column, repeat, drawn;
        }
        RowFinished(drawn.(partial := line), 0, height, 8 * bitmap.rowBytes);
        Repeated(bitmap, row, repeat, drawn.rows, line);
        drawn := Drawn(drawn.rows + Times(line, repeat + 1), [], 0);
        row := row + repeat + 1;
        column := 0;
        repeat := 0;
        if row == bitmap.height && remaining != 0 {
          return TooManyRows, row, column, repeat, drawn;
        }
      } else {
        drawn := drawn.(partial := line);
      }
    }
    status := Done;
    assert drawn.partial + Solid(black, 0) == drawn.partial;
  }

  /** pk_decode_runs. */
  method DecodeRuns(raster: seq<byte>, dyn: dynamic, startBlack: bool, width: nat, height: nat) returns (status: Status, bitmap: Bitmap)
    ensures fresh(bitmap) && fresh(bitmap.bytes) && bitmap.Valid()
    ensures bitmap.width == width && bitmap.height == height && bitmap.rowBytes == (width + 7) / 8
    ensures match Decode(Nybbles(raster), dyn, startBlack, width, height)
      case Failed(failure) => status == failure
      case Ok(picture) => status == Done && Shows(bitmap.rows, picture, 8 * bitmap.rowBytes)
  {
    hide Canvas, Padded, Bits, At, Paint, CountedNumber, PlainNumber;
    bitmap := new Bitmap(width, height);
    if width == 0 || height == 0 {
      NoPixels(height, 8 * bitmap.rowBytes);
      return Done, bitmap;
    }
    var reader := new Reader(raster);
    var row: nat, column: nat, repeat: nat, black := 0, 0, 0, startBlack;
    ghost var drawn := Drawn([], [], 0);
    EmptyCanvas(height, 8 * bitmap.rowBytes);
    ghost var result := Decode(Nybbles(raster), dyn, startBlack, width, height);
    assert reader.Rest() == Nybbles(raster);
    while row < height
      invariant Drawing(bitmap, drawn, row, column, repeat)
      invariant row == height ==> column == 0 && repeat == 0
      invariant result == DecodeFrom(reader.Rest(), dyn, drawn, black, width, height)
      decreases |reader.Rest()|
    {
      var number := reader.PackedNumber(dyn, repeat, true);
      if number.None? {
        return BadNumber, bitmap;
      }
      status, row, column, repeat, drawn :=
        PaintRun(bitmap, row, column, number.value.1, number.value.0, black, drawn.(repeat := number.value.1));
      if status != Done {
        return;
      }
      black := !black;
    }
    AllShown(drawn.rows, height, 8 * bitmap.rowBytes);
    status := if column == 0 && repeat == 0 then Done else Incomplete;
  }

  lemma NoPixels(height: nat, bits: nat)
    ensures bits == 0 || height == 0 ==> Shows(seq(height, _ => White(bits)), Times([], height), bits)
  {}

  // ----- plain bitmaps -----

  /** The rows of a plain bitmap, which follow each other without padding. */
  function TakeRows(bits: Row, width: nat, height: nat): (rows: seq<Row>)
    requires height == 0 || At(height, width) <= |bits|
    ensures |rows| == height
    ensures forall r :: 0 <= r < height ==> |rows[r]| == width
    decreases height
  {
    if height == 0 then []
    else
      OneRowLess(height, width);
      [bits[..width]] + TakeRows(bits[width..], width, height - 1)
  }

  lemma OneRowLess(height: nat, width: nat)
    requires height > 0
    ensures At(height, width) == width + At(height - 1, width)
  {}

  lemma {:induction false} PixelAt(bits: Row, width: nat, height: nat, row: nat, column: nat)
    requires row < height && column < width && At(height, width) <= |bits|
    ensures At(row, width) + column < |bits|
    ensures TakeRows(bits, width, height)[row][column] == bits[At(row, width) + column]
    decreases row
  {
    hide At;
    OneRowLess(height, width);
    if row > 0 {
      OneRowLess(row, width);
      PixelAt(bits[width..], width, height - 1, row - 1, column);
    } else {
      FirstAtZero(width);
    }
  }

  lemma FirstAtZero(width: nat)
    ensures At(0, width) == 0
  {}

  lemma Place(row: nat, column: nat, width: nat)
    requires column < width
    ensures (At(row, width) + column) / width == row && (At(row, width) + column) % width == column
  {
    var bit := At(row, width) + column;
    assert bit == width * row + column;
    assert width * (bit / width) + bit % width == bit;
    if bit / width < row {
      RowsApart(bit / width, row, width);
    } else if bit / width > row {
      RowsApart(row, bit / width, width);
    }
  }

  /** The picture drawn down to a pixel. */
  function DrawnTo(picture: seq<Row>, row: nat, column: nat): Drawn {
    Drawn(if row <= |picture| then picture[..row] else picture,
          if row < |picture| && column <= |picture[row]| then picture[row][..column] else [], 0)
  }

  /** The picture drawn by one pixel more. */
  function NextDrawn(picture: seq<Row>, row: nat, column: nat, width: nat): Drawn {
    if column + 1 < width then DrawnTo(picture, row, column + 1) else DrawnTo(picture, row + 1, 0)
  }

  lemma NextPixel(picture: seq<Row>, row: nat, column: nat, width: nat, bits: nat)
    requires row < |picture| && |picture[row]| == width <= bits && column < width
    ensures var before := Canvas(DrawnTo(picture, row, column), |picture|, bits);
      Canvas(NextDrawn(picture, row, column, width), |picture|, bits)
        == if picture[row][column] then before[row := before[row][column := true]] else before
  {
    var line := picture[row];
    var next := Padded(line[..column + 1], bits);
    assert next == if line[column] then Padded(line[..column], bits)[column := true] else Padded(line[..column], bits);
    assert line[..width] == line;
    assert Padded([], bits) == White(bits);
  }

  /** pk_decode_raw: one bit for each pixel. None where the raster has too few. */
  method DecodeRaw(raster: seq<byte>, width: nat, height: nat) returns (bitmap: Option<Bitmap>)
    ensures bitmap.None? <==> At(height, width) > 8 * |raster|
    ensures bitmap.Some? ==> fresh(bitmap.value) && fresh(bitmap.value.bytes) && bitmap.value.Valid()
    ensures bitmap.Some? ==> Shows(bitmap.value.rows, TakeRows(Bits(raster), width, height), 8 * bitmap.value.rowBytes)
  {
    hide Canvas, Padded, Bits, At, TakeRows, DrawnTo, BitsOf, Shows;
    var bits := At(height, width);
    if bits > 8 * |raster| {
      return None;
    }
    var drawn := new Bitmap(width, height);
    var padded := 8 * drawn.rowBytes;
    ghost var picture := TakeRows(Bits(raster), width, height);
    NothingDrawn(picture, padded);
    NoBitsAtAll(width, height);
    ghost var row, column := 0, 0;
    if width == 0 {
      AllDrawn(picture, padded);
      return Some(drawn);
    }
    FirstAtZero(width);
    for bit := 0 to bits
      invariant drawn.Valid()
      invariant row <= height && column < width && bit == At(row, width) + column
      invariant drawn.rows == Canvas(DrawnTo(picture, row, column), height, padded)
    {
      WithinRows(row, column, height, width);
      DrawPixel(drawn, raster, bit, row, column);
      OneRowLess(row + 1, width);
      row, column := if column + 1 < width then row else row + 1, if column + 1 < width then column + 1 else 0;
    }
    AtEnd(row, column, height, width);
    AllDrawn(picture, padded);
    bitmap := Some(drawn);
  }

  /** One bit of the raster drawn where it belongs. */
  method DrawPixel(drawn: Bitmap, raster: seq<byte>, bit: nat, ghost row: nat, ghost column: nat)
    requires drawn.Valid() && At(drawn.height, drawn.width) <= 8 * |raster| && row < drawn.height && column < drawn.width
    requires bit == At(row, drawn.width) + column
    requires drawn.rows
      == Canvas(DrawnTo(TakeRows(Bits(raster), drawn.width, drawn.height), row, column), drawn.height, 8 * drawn.rowBytes)
    modifies drawn`rows, drawn.bytes
    ensures drawn.Valid()
    ensures drawn.rows
      == Canvas(NextDrawn(TakeRows(Bits(raster), drawn.width, drawn.height), row, column, drawn.width), drawn.height, 8 * drawn.rowBytes)
  {
    hide Canvas, Padded, Bits, At, TakeRows, DrawnTo, BitsOf;
    ghost var picture := TakeRows(Bits(raster), drawn.width, drawn.height);
    PixelBit(raster, drawn.width, drawn.height, row, column);
    NextPixel(picture, row, column, drawn.width, 8 * drawn.rowBytes);
    if BitsOf(raster[bit / 8], 8)[bit % 8] {
      var r, c := PlaceOf(bit, drawn.width, row, column);
      drawn.SetBlack(r, c);
    }
  }

  /** The row and the column a bit of the raster belongs in. */
  method PlaceOf(bit: nat, width: nat, ghost row: nat, ghost column: nat) returns (r: nat, c: nat)
    requires column < width && bit == At(row, width) + column
    ensures r == row && c == column
  {
    hide At;
    Place(row, column, width);
    r, c := bit / width, bit % width;
  }

  /** The bit of the raster that is a pixel. */
  lemma PixelBit(raster: seq<byte>, width: nat, height: nat, row: nat, column: nat)
    requires row < height && column < width && At(height, width) <= 8 * |raster|
    ensures var bit := At(row, width) + column;
      bit / 8 < |raster| && TakeRows(Bits(raster), width, height)[row][column] == BitsOf(raster[bit / 8], 8)[bit % 8]
  {
    hide Bits, At, TakeRows, BitsOf;
    PixelAt(Bits(raster), width, height, row, column);
    var bit := At(row, width) + column;
    BitAt(raster, bit / 8, bit % 8);
  }

  lemma NothingDrawn(picture: seq<Row>, bits: nat)
    ensures Canvas(DrawnTo(picture, 0, 0), |picture|, bits) == seq(|picture|, _ => White(bits))
  {
    assert Padded([], bits) == White(bits);
    assert picture != [] ==> picture[0][..0] == [];
  }

  lemma AllDrawn(picture: seq<Row>, bits: nat)
    ensures Shows(Canvas(DrawnTo(picture, |picture|, 0), |picture|, bits), picture, bits)
    ensures (forall r :: 0 <= r < |picture| ==> picture[r] == []) ==> Shows(seq(|picture|, _ => White(bits)), picture, bits)
  {
    assert picture[..|picture|] == picture;
    assert Padded([], bits) == White(bits);
  }

  lemma NoBitsAtAll(width: nat, height: nat)
    ensures width == 0 || height == 0 ==> At(height, width) == 0
  {}

  lemma WithinRows(row: nat, column: nat, height: nat, width: nat)
    requires At(row, width) + column < At(height, width)
    ensures row < height
  {
    if row > height { RowsApart(height, row, width); }
  }

  lemma AtEnd(row: nat, column: nat, height: nat, width: nat)
    requires row <= height && column < width && At(row, width) + column == At(height, width)
    ensures row == height && column == 0
  {
    if row < height { RowsApart(row, height, width); }
  }

  /** A picture's pixels in bytes, the last one filled up with white. */
  function PackedBits(bits: Row): (bytes: seq<byte>) {
    Pow2Of8();
    if bits == [] then []
    else if |bits| < 8 then [BitsValue(Padded(bits, 8))]
    else [BitsValue(bits[..8])] + PackedBits(bits[8..])
  }

  lemma {:induction false} PackedBitsBegin(bits: Row)
    ensures bits <= Bits(PackedBits(bits))
  {
    Pow2Of8();
    if |bits| >= 8 {
      PackedBitsBegin(bits[8..]);
      assert PackedBits(bits)[1..] == PackedBits(bits[8..]);
      assert bits == bits[..8] + bits[8..];
    }
  }

  lemma {:induction false} FlatRows(picture: seq<Row>, width: nat, rest: Row)
    requires forall r :: 0 <= r < |picture| ==> |picture[r]| == width
    ensures At(|picture|, width) == |Flat(picture)|
    ensures TakeRows(Flat(picture) + rest, width, |picture|) == picture
  {
    if picture != [] {
      FlatRows(picture[1..], width, rest);
      OneRowLess(|picture|, width);
      hide At;
      assert (Flat(picture) + rest)[..width] == picture[0];
      assert (Flat(picture) + rest)[width..] == Flat(picture[1..]) + rest;
    } else {
      FirstAtZero(width);
    }
  }

  /** Every picture comes back from its plain bitmap. */
  lemma RawRoundTrip(picture: seq<Row>, width: nat)
    requires forall r :: 0 <= r < |picture| ==> |picture[r]| == width
    ensures var raster := PackedBits(Flat(picture));
      && At(|picture|, width) <= 8 * |raster|
      && TakeRows(Bits(raster), width, |picture|) == picture
  {
    var bits := Bits(PackedBits(Flat(picture)));
    PackedBitsBegin(Flat(picture));
    FlatRows(picture, width, bits[|Flat(picture)|..]);
    assert bits == Flat(picture) + bits[|Flat(picture)|..];
  }
}
