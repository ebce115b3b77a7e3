/** Pieces of a byte stream and the scalars in them. */
module Words {
  import opened Bytes

  /** The piece is what the bytes hold from `at` on. */
  predicate Stands(s: seq<byte>, bytes: seq<byte>, at: nat) {
    at + |s| <= |bytes| && bytes[at..at + |s|] == s
  }

  lemma StillStands(s: seq<byte>, bytes: seq<byte>, at: nat, more: seq<byte>)
    requires Stands(s, bytes, at)
    ensures Stands(s, bytes + more, at)
  {
    assert (bytes + more)[at..at + |s|] == bytes[at..at + |s|];
  }

  lemma StandsAt(bytes: seq<byte>, before: seq<byte>, s: seq<byte>, after: seq<byte>)
    ensures Stands(s, bytes + (before + s + after), |bytes| + |before|)
  {
    assert (bytes + (before + s + after))[|bytes| + |before|..|bytes| + |before| + |s|] == s;
  }

  /** A piece made of two stands as each of the two. */
  lemma Parts(a: seq<byte>, b: seq<byte>, bytes: seq<byte>, at: nat)
    ensures Stands(a + b, bytes, at) <==> Stands(a, bytes, at) && Stands(b, bytes, at + |a|)
  {
    if Stands(a, bytes, at) && Stands(b, bytes, at + |a|) {
      assert bytes[at..at + |a| + |b|] == bytes[at..at + |a|] + bytes[at + |a|..at + |a| + |b|];
    }
    if Stands(a + b, bytes, at) {
      assert bytes[at..at + |a|] == bytes[at..at + |a + b|][..|a|];
      assert bytes[at + |a|..at + |a| + |b|] == bytes[at..at + |a + b|][|a|..];
    }
  }

  // ----- a stream put together from pieces -----

  function Joined(pieces: seq<seq<byte>>): (bytes: seq<byte>) {
    if pieces == [] then [] else Joined(pieces[..|pieces| - 1]) + pieces[|pieces| - 1]
  }

  /** Where the k-th piece begins. */
  function Offset(pieces: seq<seq<byte>>, k: nat): nat
    requires k <= |pieces|
  {
    if k == 0 then 0 else Offset(pieces, k - 1) + |pieces[k - 1]|
  }

  lemma {:induction false} OffsetOfFront(pieces: seq<seq<byte>>, k: nat)
    requires k < |pieces|
    ensures Offset(pieces[..|pieces| - 1], k) == Offset(pieces, k)
  {
    if k > 0 { OffsetOfFront(pieces, k - 1); }
  }

  lemma {:induction false} JoinedLength(pieces: seq<seq<byte>>)
    ensures |Joined(pieces)| == Offset(pieces, |pieces|)
  {
    if pieces != [] {
      JoinedLength(pieces[..|pieces| - 1]);
      OffsetOfFront(pieces, |pieces| - 1);
    }
  }

  lemma {:induction false} PieceStands(pieces: seq<seq<byte>>, k: nat)
    requires k < |pieces|
    ensures Stands(pieces[k], Joined(pieces), Offset(pieces, k))
  {
    hide Stands;
    var front, last := pieces[..|pieces| - 1], pieces[|pieces| - 1];
    OffsetOfFront(pieces, k);
    if k == |pieces| - 1 {
      JoinedLength(front);
      StandsLast(Joined(front), last);
    } else {
      PieceStands(front, k);
      StillStands(pieces[k], Joined(front), Offset(pieces, k), last);
    }
  }

  lemma StandsLast(before: seq<byte>, s: seq<byte>)
    ensures Stands(s, before + s, |before|)
  {}

  // ----- scalars -----

  /** The bytes so many scalars take. */
  function Size(count: nat, width: nat): nat {
    if count == 0 then 0 else width + Size(count - 1, width)
  }

  function Scalars(values: seq<nat>, width: nat): (bytes: seq<byte>)
    ensures |bytes| == Size(|values|, width)
  {
    if values == [] then [] else LittleEndian(values[0], width) + Scalars(values[1..], width)
  }

  function ReadWord(bytes: seq<byte>, at: nat, width: nat): nat
    requires at + width <= |bytes|
  {
    FromLittleEndian(bytes[at..at + width])
  }

  function ReadWords(bytes: seq<byte>, at: nat, width: nat, count: nat): (values: seq<nat>)
    requires at + Size(count, width) <= |bytes|
    ensures |values| == count
    decreases count
  {
    if count == 0 then [] else [ReadWord(bytes, at, width)] + ReadWords(bytes, at + width, width, count - 1)
  }

  predicate Narrow(values: seq<nat>, width: nat) {
    forall i :: 0 <= i < |values| ==> values[i] < Range(width)
  }

  lemma WordRead(value: nat, width: nat, bytes: seq<byte>, at: nat)
    requires Stands(LittleEndian(value, width), bytes, at) && value < Range(width)
    ensures ReadWord(bytes, at, width) == value
  {
    ScalarRoundTrip(value, width);
  }

  lemma {:induction false} WordsRead(values: seq<nat>, width: nat, bytes: seq<byte>, at: nat)
    requires Stands(Scalars(values, width), bytes, at) && Narrow(values, width)
    ensures ReadWords(bytes, at, width, |values|) == values
  {
    hide LittleEndian, FromLittleEndian, Stands, ReadWord;
    if values != [] {
      Parts(LittleEndian(values[0], width), Scalars(values[1..], width), bytes, at);
      WordRead(values[0], width, bytes, at);
      WordsRead(values[1..], width, bytes, at + width);
      Fit(values, width, bytes, at);
    }
  }

  lemma Fit(values: seq<nat>, width: nat, bytes: seq<byte>, at: nat)
    requires Stands(Scalars(values, width), bytes, at)
    ensures at + Size(|values|, width) <= |bytes|
  {}

  // ----- tokens -----

  function TokenBytes(tokens: seq<u32>): (bytes: seq<byte>)
    ensures |bytes| == 4 * |tokens|
  {
    if tokens == [] then [] else LittleEndian(tokens[0], 4) + TokenBytes(tokens[1..])
  }

  function TokensAt(bytes: seq<byte>, at: nat, count: nat): (tokens: seq<u32>)
    requires at + 4 * count <= |bytes|
    ensures |tokens| == count
    decreases count
  {
    if count == 0 then []
    else [FromLittleEndian(bytes[at..at + 4]) % 0x1_0000_0000] + TokensAt(bytes, at + 4, count - 1)
  }

  lemma {:induction false} TokensRead(tokens: seq<u32>, bytes: seq<byte>, at: nat)
    requires Stands(TokenBytes(tokens), bytes, at)
    ensures at + 4 * |tokens| <= |bytes| && TokensAt(bytes, at, |tokens|) == tokens
  {
    hide LittleEndian, FromLittleEndian, Stands;
    StandsWithin(TokenBytes(tokens), bytes, at);
    if tokens != [] {
      Parts(LittleEndian(tokens[0], 4), TokenBytes(tokens[1..]), bytes, at);
      FirstToken(tokens[0], bytes, at);
      TokensRead(tokens[1..], bytes, at + 4);
    }
  }

  lemma FirstToken(token: u32, bytes: seq<byte>, at: nat)
    requires Stands(LittleEndian(token, 4), bytes, at)
    ensures at + 4 <= |bytes| && FromLittleEndian(bytes[at..at + 4]) == token
  {
    Range4();
    ScalarRoundTrip(token, 4);
  }

  lemma StandsWithin(s: seq<byte>, bytes: seq<byte>, at: nat)
    requires Stands(s, bytes, at)
    ensures at + |s| <= |bytes|
  {}

  // ----- alignment -----

  /** What a piece may be aligned to: one token or one pointer. */
  type alignment = a: int | a == 4 || a == 8 witness 4

  function Up4(at: nat): (up: nat)
    ensures at <= up < at + 4 && up % 4 == 0
  {
    4 * ((at + 3) / 4)
  }

  function Up8(at: nat): (up: nat)
    ensures at <= up < at + 8 && up % 8 == 0
  {
    8 * ((at + 7) / 8)
  }

  /** Up to the next multiple. */
  function Aligned(at: nat, a: alignment): (up: nat)
    ensures at <= up < at + a
    ensures a == 4 ==> up % 4 == 0
    ensures a == 8 ==> up % 8 == 0
  {
    if a == 4 then Up4(at) else Up8(at)
  }

  function Padding(at: nat, a: alignment): (pad: seq<byte>)
    ensures at + |pad| == Aligned(at, a)
  {
    Zeros(Aligned(at, a) - at)
  }
}
