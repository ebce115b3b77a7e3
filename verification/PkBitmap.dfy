/** A glyph's bitmap: rows padded to whole bytes, the leftmost pixel in the high bit. */
module PkBitmap {
  import opened Bytes

  /** One row of pixels; true is black. */
  type Row = seq<bool>

  // ----- the bits of a byte -----

  /** The low `bits` bits of b, the highest of them first. */
  function BitsOf(b: nat, bits: nat): (s: Row)
    ensures |s| == bits
    decreases bits, b
  {
    if bits == 0 then [] else BitsOf(b / 2, bits - 1) + [b % 2 == 1]
  }

  /** b with bit k of its low `bits` bits set, bit 0 being the highest of them. */
  function WithBit(b: nat, bits: nat, k: nat): (r: nat)
    requires k < bits && b < Pow2(bits)
    ensures r < Pow2(bits)
    ensures BitsOf(r, bits) == BitsOf(b, bits)[k := true]
    decreases bits, b
  {
    if k == bits - 1 then
      Halve(b / 2, 1, 2 * (b / 2) + 1);
      2 * (b / 2) + 1
    else
      var half := WithBit(b / 2, bits - 1, k);
      Halve(half, b % 2, 2 * half + b % 2);
      2 * half + b % 2
  }

  /** The value the bits stand for, high bit first. */
  function BitsValue(s: Row): (n: nat)
    ensures n < Pow2(|s|)
    ensures BitsOf(n, |s|) == s
  {
    if s == [] then 0
    else
      var half := BitsValue(s[..|s| - 1]);
      var bit := if s[|s| - 1] then 1 else 0;
      Halve(half, bit, 2 * half + bit);
      2 * half + bit
  }

  /** The pixels a run of bytes holds. */
  function Bits(bytes: seq<byte>): (s: Row)
    ensures |s| == 8 * |bytes|
  {
    if bytes == [] then [] else BitsOf(bytes[0], 8) + Bits(bytes[1..])
  }

  lemma {:induction false} BitAt(bytes: seq<byte>, at: nat, k: nat)
    requires at < |bytes| && k < 8
    ensures Bits(bytes)[8 * at + k] == BitsOf(bytes[at], 8)[k]
  {
    hide BitsOf;
    if at > 0 { BitAt(bytes[1..], at - 1, k); }
  }

  function SetBit(b: byte, k: nat): (r: byte)
    requires k < 8
    ensures BitsOf(r, 8) == BitsOf(b, 8)[k := true]
  {
    Pow2Of8();
    WithBit(b, 8, k)
  }

  lemma {:induction false} BitSet(bytes: seq<byte>, at: nat, k: nat)
    requires at < |bytes| && k < 8
    ensures Bits(bytes[at := SetBit(bytes[at], k)]) == Bits(bytes)[8 * at + k := true]
  {
    hide BitsOf, SetBit;
    var after := bytes[at := SetBit(bytes[at], k)];
    if at == 0 {
      assert after[1..] == bytes[1..];
    } else {
      BitSet(bytes[1..], at - 1, k);
      assert after[1..] == bytes[1..][at - 1 := SetBit(bytes[at], k)];
    }
  }

  lemma {:induction false} NoBits(bytes: seq<byte>)
    requires forall i :: 0 <= i < |bytes| ==> bytes[i] == 0
    ensures Bits(bytes) == White(8 * |bytes|)
  {
    if bytes != [] {
      NoBits(bytes[1..]);
      assert BitsOf(0, 8) == White(8) by { ZeroBits(8); }
    }
  }

  lemma {:induction false} ZeroBits(bits: nat)
    ensures BitsOf(0, bits) == White(bits)
  {
    if bits > 0 { ZeroBits(bits - 1); }
  }

  function White(n: nat): (s: Row)
    ensures |s| == n
    ensures forall i :: 0 <= i < n ==> !s[i]
  {
    seq(n, _ => false)
  }

  // ----- the bitmap -----

  /** Where a row's bytes begin. */
  function At(row: nat, rowBytes: nat): nat { row * rowBytes }

  lemma RowsApart(earlier: nat, later: nat, rowBytes: nat)
    requires earlier < later
    ensures At(earlier, rowBytes) + rowBytes <= At(later, rowBytes)
  {
    assert later * rowBytes == earlier * rowBytes + rowBytes + (later - earlier - 1) * rowBytes;
  }

  class Bitmap {
    const width: nat
    const height: nat
    const rowBytes: nat
    const bytes: array<byte>

    /** Every bit of every row, those of the padding included. */
    ghost var rows: seq<Row>

    ghost predicate Valid()
      reads this, bytes
    {
      && width <= 8 * rowBytes
      && bytes.Length == At(height, rowBytes)
      && |rows| == height
      && All(bytes[..], rows)
    }

    predicate Holds(all: seq<byte>, row: nat, pixels: Row) {
      At(row, rowBytes) + rowBytes <= |all| && Bits(all[At(row, rowBytes)..At(row, rowBytes) + rowBytes]) == pixels
    }

    /** The calloc of a bitmap: rows of whole bytes, all white. */
    constructor (width: nat, height: nat)
      ensures Valid() && fresh(bytes)
      ensures this.width == width && this.height == height && rowBytes == (width + 7) / 8
      ensures rows == seq(height, _ => White(8 * rowBytes))
    {
      var lineBytes := (width + 7) / 8;
      this.width := width;
      this.height := height;
      rowBytes := lineBytes;
      bytes := new byte[At(height, lineBytes)](_ => 0);
      rows := seq(height, _ => White(8 * lineBytes));
      new;
      forall r | 0 <= r < height
        ensures Holds(bytes[..], r, rows[r])
      {
        RowsApart(r, height, rowBytes);
        NoBits(bytes[..][At(r, rowBytes)..At(r, rowBytes) + rowBytes]);
      }
    }

    lemma Elsewhere(before: seq<byte>, after: seq<byte>, changed: nat, row: nat, pixels: Row)
      requires row != changed && |after| == |before| && At(changed, rowBytes) + rowBytes <= |before|
      requires before[..At(changed, rowBytes)] == after[..At(changed, rowBytes)]
      requires before[At(changed, rowBytes) + rowBytes..] == after[At(changed, rowBytes) + rowBytes..]
      requires Holds(before, row, pixels)
      ensures Holds(after, row, pixels)
    {
      hide Bits, At;
      var first := At(changed, rowBytes);
      var start := At(row, rowBytes);
      if row < changed {
        RowsApart(row, changed, rowBytes);
        Within(before, after, 0, first, start, start + rowBytes);
      } else {
        RowsApart(changed, row, rowBytes);
        Within(before, after, first + rowBytes, |before|, start, start + rowBytes);
      }
    }

    predicate All(all: seq<byte>, pixels: seq<Row>) {
      forall r | 0 <= r < |pixels| :: Holds(all, r, pixels[r])
    }

    /** A change within one row leaves every other row as it was. */
    lemma Changed(before: seq<byte>, after: seq<byte>, changed: nat, pixels: seq<Row>, line: Row)
      requires |after| == |before| && At(changed, rowBytes) + rowBytes <= |before|
      requires before[..At(changed, rowBytes)] == after[..At(changed, rowBytes)]
      requires before[At(changed, rowBytes) + rowBytes..] == after[At(changed, rowBytes) + rowBytes..]
      requires All(before, pixels) && changed < |pixels| && Holds(after, changed, line)
      ensures All(after, pixels[changed := line])
    {
      hide Bits, At, Holds;
      var now := pixels[changed := line];
      forall r | 0 <= r < |now|
        ensures Holds(after, r, now[r])
      {
        if r != changed { Elsewhere(before, after, changed, r, pixels[r]); }
      }
    }

    lemma RowOf(all: seq<byte>, pixels: seq<Row>, row: nat)
      requires All(all, pixels) && row < |pixels|
      ensures Holds(all, row, pixels[row])
    {}

    lemma LineSet(before: seq<byte>, after: seq<byte>, pixels: seq<Row>, row: nat, column: nat)
      requires All(before, pixels) && row < |pixels| && column < 8 * rowBytes
      requires Holds(before, row, pixels[row])
      requires var k := At(row, rowBytes) + column / 8;
        after == before[k := SetBit(before[k], column % 8)]
      ensures All(after, pixels[row := pixels[row][column := true]])
    {
      var k, bit := column / 8, column % 8;
      assert 8 * k + bit == column;
      hide Bits, At, All, SetBit, Holds;
      SliceSet(before, At(row, rowBytes), rowBytes, k, SetBit(before[At(row, rowBytes) + k], bit));
      RowSet(before, after, pixels[row], row, k, bit);
      Changed(before, after, row, pixels, pixels[row][column := true]);
    }

    lemma RowSet(before: seq<byte>, after: seq<byte>, line: Row, row: nat, k: nat, bit: nat)
      requires k < rowBytes && bit < 8 && Holds(before, row, line)
      requires var at := At(row, rowBytes) + k; after == before[at := SetBit(before[at], bit)]
      ensures Holds(after, row, line[8 * k + bit := true])
    {
      hide Bits, At, SetBit;
      SliceSet(before, At(row, rowBytes), rowBytes, k, SetBit(before[At(row, rowBytes) + k], bit));
      BitSet(before[At(row, rowBytes)..At(row, rowBytes) + rowBytes], k, bit);
    }

    /** pk_set_black. */
    method SetBlack(row: nat, column: nat)
      requires Valid() && row < height && column < width
      modifies this`rows, bytes
      ensures Valid()
      ensures rows == old(rows)[row := old(rows)[row][column := true]]
    {
      hide Bits, At, All;
      RowsApart(row, height, rowBytes);
      ghost var before, pixels := bytes[..], rows;
      var first, k := At(row, rowBytes), column / 8;
      RowOf(before, pixels, row);
      bytes[first + k] := SetBit(bytes[first + k], column % 8);
      rows := rows[row := rows[row][column := true]];
      LineSet(before, bytes[..], pixels, row, column);
    }

    /** The memcpy of one row over another. */
    method CopyRow(from: nat, to: nat)
      requires Valid() && from < height && to < height && from != to
      modifies this`rows, bytes
      ensures Valid()
      ensures rows == old(rows)[to := old(rows)[from]]
    {
      hide Bits, At, All;
      RowsApart(from, height, rowBytes);
      RowsApart(to, height, rowBytes);
      ghost var before, pixels := bytes[..], rows;
      MoveBytes(At(from, rowBytes), At(to, rowBytes), rowBytes);
      rows := rows[to := rows[from]];
      LineCopied(before, pixels, from, to);
    }

    /** The memcpy itself. */
    method MoveBytes(source: nat, target: nat, length: nat)
      requires source + length <= bytes.Length && target + length <= bytes.Length
      modifies bytes
      ensures bytes[..] == Spliced(old(bytes[..]), source, target, length)
    {
      ghost var before := bytes[..];
      forall i | 0 <= i < length {
        bytes[target + i] := bytes[source + i];
      }
      assert forall i :: 0 <= i < |before| ==> bytes[i] == Spliced(before, source, target, length)[i];
    }

    lemma LineCopied(before: seq<byte>, pixels: seq<Row>, from: nat, to: nat)
      requires All(before, pixels) && from < |pixels| && to < |pixels|
      requires At(from, rowBytes) + rowBytes <= |before| && At(to, rowBytes) + rowBytes <= |before|
      ensures All(Spliced(before, At(from, rowBytes), At(to, rowBytes), rowBytes), pixels[to := pixels[from]])
    {
      RowOf(before, pixels, from);
      hide Bits, At, All;
      MovedSlices(before, At(from, rowBytes), At(to, rowBytes), rowBytes);
      Changed(before, Spliced(before, At(from, rowBytes), At(to, rowBytes), rowBytes), to, pixels, pixels[from]);
    }
  }

  function Spliced<T>(s: seq<T>, source: nat, target: nat, length: nat): (r: seq<T>)
    requires source + length <= |s| && target + length <= |s|
    ensures |r| == |s|
  {
    s[..target] + s[source..source + length] + s[target + length..]
  }

  lemma MovedSlices<T>(s: seq<T>, source: nat, target: nat, length: nat)
    requires source + length <= |s| && target + length <= |s|
    ensures Spliced(s, source, target, length)[target..target + length] == s[source..source + length]
    ensures Spliced(s, source, target, length)[..target] == s[..target]
    ensures Spliced(s, source, target, length)[target + length..] == s[target + length..]
  {}

  lemma Within<T>(a: seq<T>, b: seq<T>, low: nat, high: nat, start: nat, end: nat)
    requires low <= start <= end <= high <= |a| == |b|
    requires a[low..high] == b[low..high]
    ensures a[start..end] == b[start..end]
  {
    SubSlice(a, low, high, start, end);
    SubSlice(b, low, high, start, end);
  }

  lemma SubSlice<T>(s: seq<T>, low: nat, high: nat, start: nat, end: nat)
    requires low <= start <= end <= high <= |s|
    ensures s[low..high][start - low..end - low] == s[start..end]
  {
    var inner := s[low..high];
    forall i | 0 <= i < end - start
      ensures inner[start - low..end - low][i] == s[start..end][i]
    {
      assert inner[start - low + i] == s[start + i];
    }
  }

  /** Changing one element changes the slice around it and neither of the slices beside that. */
  lemma SliceSet<T>(s: seq<T>, first: nat, length: nat, k: nat, x: T)
    requires k < length && first + length <= |s|
    ensures s[first + k := x][first..first + length] == s[first..first + length][k := x]
    ensures s[first + k := x][..first] == s[..first]
    ensures s[first + k := x][first + length..] == s[first + length..]
  {}
}
