/** The simple pieces of a format: values, arrays, arrays that lie where they were written, and tables with
    room to grow. One position in the stream serves both directions. */
module FormatPieces {
  import opened Bytes
  import opened Words

  /** What a reader got and where it stands behind it. */
  datatype Got<+T> = Got(value: T, at: nat) | Failed

  // ----- rows of one size -----

  type Row = seq<byte>

  predicate Sized(rows: seq<Row>, size: nat) {
    forall i :: 0 <= i < |rows| ==> |rows[i]| == size
  }

  function Flat(rows: seq<Row>): seq<byte> {
    if rows == [] then [] else rows[0] + Flat(rows[1..])
  }

  /** So many rows of the bytes, from some position on. */
  function RowsAt(bytes: seq<byte>, at: nat, size: nat, count: nat): (rows: seq<Row>)
    requires at + Size(count, size) <= |bytes|
    ensures |rows| == count && Sized(rows, size)
    decreases count
  {
    if count == 0 then [] else [bytes[at..at + size]] + RowsAt(bytes, at + size, size, count - 1)
  }

  lemma {:induction false} FlatLength(rows: seq<Row>, size: nat)
    requires Sized(rows, size)
    ensures |Flat(rows)| == Size(|rows|, size)
  {
    if rows != [] { FlatLength(rows[1..], size); }
  }

  lemma {:induction false} RowsBack(rows: seq<Row>, size: nat, bytes: seq<byte>, at: nat)
    requires Sized(rows, size) && Stands(Flat(rows), bytes, at)
    ensures at + Size(|rows|, size) <= |bytes| && RowsAt(bytes, at, size, |rows|) == rows
  {
    FlatLength(rows, size);
    if rows != [] {
      Parts(rows[0], Flat(rows[1..]), bytes, at);
      RowsBack(rows[1..], size, bytes, at + size);
    }
  }

  lemma {:induction false} FlatAdds(a: seq<Row>, b: seq<Row>)
    ensures Flat(a + b) == Flat(a) + Flat(b)
  {
    if a == [] {
      assert a + b == b;
    } else {
      FlatAdds(a[1..], b);
      assert (a + b)[1..] == a[1..] + b;
      Assoc(a[0], Flat(a[1..]), Flat(b));
    }
  }

  function ZeroRows(count: nat, size: nat): (rows: seq<Row>)
    ensures |rows| == count && Sized(rows, size)
    ensures forall i :: 0 <= i < count ==> rows[i] == Zeros(size)
  {
    seq(count, _ => Zeros(size))
  }

  lemma {:induction false} FlatZeros(count: nat, size: nat)
    ensures Flat(ZeroRows(count, size)) == Zeros(Size(count, size))
  {
    if count > 0 {
      FlatZeros(count - 1, size);
      assert ZeroRows(count, size)[1..] == ZeroRows(count - 1, size);
      assert Zeros(size) + Zeros(Size(count - 1, size)) == Zeros(Size(count, size));
    }
  }

  // ----- the pieces -----

  datatype Piece = Fixed(bytes: seq<byte>)
                 | Array(size: nat, rows: seq<Row>)
                 | InPlace(size: nat, rows: seq<Row>)
                 | Table(size: nat, count: nat, room: seq<Row>)

  /** What a reader knows of a piece before it has read it. */
  datatype PieceShape = FixedShape(length: nat) | ArrayShape(size: nat) | InPlaceShape(size: nat) | TableShape(size: nat)

  const WORD: nat := 0x1_0000_0000_0000_0000

  predicate PieceOK(p: Piece, shape: PieceShape) {
    match (p, shape)
    case (Fixed(bytes), FixedShape(length)) => |bytes| == length
    case (Array(size, rows), ArrayShape(s)) => size == s > 0 && Sized(rows, size) && Size(|rows|, size) < WORD && |rows| < WORD
    case (InPlace(size, rows), InPlaceShape(s)) => size == s > 0 && Sized(rows, size) && Size(|rows|, size) < WORD && |rows| < WORD
    case (Table(size, count, room), TableShape(s)) =>
      size == s > 0 && count <= |room| && Sized(room, size) && Size(|room|, size) < WORD && |room| < WORD
    case _ => false
  }

  /** What a piece is once what nothing reads of it is passed over: the unused room of a table. */
  function Canonical(p: Piece): Piece {
    match p
    case Table(size, count, room) =>
      if count <= |room| then Table(size, count, room[..count] + ZeroRows(|room| - count, size)) else p
    case _ => p
  }

  /** A table as it is written: how many of its rows are used, how many there are, and all of them. */
  function TableBytes(count: nat, rows: seq<Row>, at: nat): seq<byte> {
    LittleEndian(count, 8) + (LittleEndian(|rows|, 8) + (Padding(at + 16, 8) + Flat(rows)))
  }

  /** What is written of a piece where the stream stands at `at`. */
  function PieceBytes(p: Piece, at: nat): seq<byte> {
    match p
    case Fixed(bytes) => bytes
    case Array(_, rows) => LittleEndian(|rows|, 8) + Flat(rows)
    case InPlace(_, rows) => LittleEndian(|rows|, 8) + (Padding(at + 8, 8) + Flat(rows))
    case Table(size, count, room) =>
      LittleEndian(count, 8) + (LittleEndian(|room|, 8) + (Padding(at + 16, 8)
        + if count <= |room| then Flat(room[..count]) + Zeros(Size(|room| - count, size)) else []))
  }

  function TakeWord(bytes: seq<byte>, at: nat): Got<nat> {
    if at + 8 > |bytes| then Failed else Got(ReadWord(bytes, at, 8), at + 8)
  }

  function TakeRows(bytes: seq<byte>, at: nat, size: nat, count: nat): Got<seq<Row>> {
    if at + Size(count, size) > |bytes| then Failed
    else Got(RowsAt(bytes, at, size, count), at + Size(count, size))
  }

  /** What is read of a piece where the stream stands at `at`. An array that lies in place begins at a
      multiple of eight, so it may be left where it is as well as copied out. */
  function TakePiece(shape: PieceShape, bytes: seq<byte>, at: nat): Got<Piece> {
    match shape
    case FixedShape(length) =>
      if at + length > |bytes| then Failed else Got(Fixed(bytes[at..at + length]), at + length)
    case ArrayShape(size) =>
      var count := TakeWord(bytes, at);
      if count.Failed? then Failed
      else
        var rows := TakeRows(bytes, count.at, size, count.value);
        if rows.Failed? then Failed else Got(Array(size, rows.value), rows.at)
    case InPlaceShape(size) =>
      var count := TakeWord(bytes, at);
      if count.Failed? then Failed
      else
        var rows := TakeRows(bytes, Aligned(count.at, 8), size, count.value);
        if rows.Failed? then Failed else Got(InPlace(size, rows.value), rows.at)
    case TableShape(size) => TakeTable(size, bytes, at)
  }

  function TakeTable(size: nat, bytes: seq<byte>, at: nat): Got<Piece> {
    var count := TakeWord(bytes, at);
    if count.Failed? then Failed
    else
      var capacity := TakeWord(bytes, count.at);
      if capacity.Failed? || capacity.value < count.value then Failed
      else
        var rows := TakeRows(bytes, Aligned(capacity.at, 8), size, capacity.value);
        if rows.Failed? then Failed else Got(Table(size, count.value, rows.value), rows.at)
  }

  lemma WordBack(value: nat, bytes: seq<byte>, at: nat)
    requires value < WORD && Stands(LittleEndian(value, 8), bytes, at)
    ensures TakeWord(bytes, at) == Got(value, at + 8)
  {
    Range8();
    WordRead(value, 8, bytes, at);
  }

  lemma TwoWordsBack(a: nat, b: nat, rest: seq<byte>, bytes: seq<byte>, at: nat)
    requires a < WORD && b < WORD && Stands(LittleEndian(a, 8) + (LittleEndian(b, 8) + rest), bytes, at)
    ensures TakeWord(bytes, at) == Got(a, at + 8) && TakeWord(bytes, at + 8) == Got(b, at + 16)
    ensures Stands(rest, bytes, at + 16)
  {
    hide Stands, LittleEndian, TakeWord;
    Parts(LittleEndian(a, 8), LittleEndian(b, 8) + rest, bytes, at);
    Parts(LittleEndian(b, 8), rest, bytes, at + 8);
    WordBack(a, bytes, at);
    WordBack(b, bytes, at + 8);
  }

  lemma RowsTaken(rows: seq<Row>, size: nat, bytes: seq<byte>, at: nat)
    requires Sized(rows, size) && Stands(Flat(rows), bytes, at)
    ensures TakeRows(bytes, at, size, |rows|) == Got(rows, at + |Flat(rows)|)
  {
    RowsBack(rows, size, bytes, at);
    FlatLength(rows, size);
  }

  /** What was written of a piece is read back, up to what nothing reads of it, and the reader then stands
      where the writer stood. */
  lemma PieceBack(p: Piece, shape: PieceShape, bytes: seq<byte>, at: nat)
    requires PieceOK(p, shape) && Stands(PieceBytes(p, at), bytes, at)
    ensures TakePiece(shape, bytes, at) == Got(Canonical(p), at + |PieceBytes(p, at)|)
  {
    hide LittleEndian, FromLittleEndian, Flat, Stands, Aligned, TakeWord, TakeRows, Sized, Size;
    match p
    case Fixed(b) => StandsIs(b, bytes, at);
    case Array(size, rows) =>
      Parts(LittleEndian(|rows|, 8), Flat(rows), bytes, at);
      WordBack(|rows|, bytes, at);
      RowsTaken(rows, size, bytes, at + 8);
    case InPlace(size, rows) =>
      var pad := Padding(at + 8, 8);
      Parts(LittleEndian(|rows|, 8), pad + Flat(rows), bytes, at);
      Parts(pad, Flat(rows), bytes, at + 8);
      WordBack(|rows|, bytes, at);
      RowsTaken(rows, size, bytes, at + 8 + |pad|);
    case Table(size, count, room) => TableBack(size, count, room, bytes, at);
  }

  lemma StandsIs(s: seq<byte>, bytes: seq<byte>, at: nat)
    requires Stands(s, bytes, at)
    ensures at + |s| <= |bytes| && bytes[at..at + |s|] == s
  {}

  lemma TableBack(size: nat, count: nat, room: seq<Row>, bytes: seq<byte>, at: nat)
    requires PieceOK(Table(size, count, room), TableShape(size)) && Stands(PieceBytes(Table(size, count, room), at), bytes, at)
    ensures TakeTable(size, bytes, at) == Got(Canonical(Table(size, count, room)), at + |PieceBytes(Table(size, count, room), at)|)
  {
    hide LittleEndian, FromLittleEndian, Flat, Stands, Aligned, TakeTable, Sized, Size;
    CanonicalRoom(room, count, size);
    TableRead(size, count, room[..count] + ZeroRows(|room| - count, size), bytes, at);
  }

  lemma CanonicalRoom(room: seq<Row>, count: nat, size: nat)
    requires count <= |room| && Sized(room, size)
    ensures Sized(room[..count] + ZeroRows(|room| - count, size), size)
    ensures Flat(room[..count] + ZeroRows(|room| - count, size)) == Flat(room[..count]) + Zeros(Size(|room| - count, size))
  {
    FlatAdds(room[..count], ZeroRows(|room| - count, size));
    FlatZeros(|room| - count, size);
  }

  lemma TableRead(size: nat, count: nat, rows: seq<Row>, bytes: seq<byte>, at: nat)
    requires count <= |rows| < WORD && Sized(rows, size)
    requires Stands(TableBytes(count, rows, at), bytes, at)
    ensures TakeTable(size, bytes, at) == Got(Table(size, count, rows), at + |TableBytes(count, rows, at)|)
  {
    hide LittleEndian, FromLittleEndian, Flat, Stands, Aligned, TakeWord, TakeRows, Sized, Size;
    var pad := Padding(at + 16, 8);
    TwoWordsBack(count, |rows|, pad + Flat(rows), bytes, at);
    Parts(pad, Flat(rows), bytes, at + 16);
    RowsTaken(rows, size, bytes, at + 16 + |pad|);
  }

  /** What nothing reads is not written. */
  lemma CanonicalBytes(p: Piece, shape: PieceShape, at: nat)
    requires PieceOK(p, shape)
    ensures PieceOK(Canonical(p), shape) && PieceBytes(Canonical(p), at) == PieceBytes(p, at)
  {
    hide Flat, LittleEndian, Size;
    if p.Table? {
      assert (p.room[..p.count] + ZeroRows(|p.room| - p.count, p.size))[..p.count] == p.room[..p.count];
    }
  }
}
