/** The definitions of a format: records written with the addresses their bodies will have, and the bodies
    behind them. */
module FormatMacros {
  import opened Bytes
  import opened Words
  import opened FormatPieces

  /** Where a format is mapped when it can be. */
  const FORMAT_BASE: nat := 0x1000_0000_0000
  const RECORD: nat := 64
  const BODY_BLOCK: nat := 0x4_0000

  /** A definition: its two bodies, and what its record holds besides. */
  datatype Macro = Macro(parameter: seq<u32>, replacement: seq<u32>, head: seq<byte>, tail: seq<byte>)

  /** An address in the address space, or a place in a block that bodies are cut from. */
  datatype Address = Absolute(a: nat) | Cut(block: nat, offset: nat)

  datatype Record = Record(
    parameterText: Address, parameterTokens: nat, replacementText: Address, replacementTokens: nat,
    head: seq<byte>, parameterBorrowed: bool, replacementBorrowed: bool, tail: seq<byte>)

  predicate MacroOK(m: Macro) {
    && |m.head| == 3 && |m.tail| == 28
    && 4 * |m.parameter| < WORD && 4 * |m.replacement| < WORD
  }

  predicate MacrosOK(macros: seq<Macro>) {
    forall i :: 0 <= i < |macros| ==> MacroOK(macros[i])
  }

  // ----- bodies, as they are written -----

  function BodyBytes(body: seq<u32>, at: nat): (bytes: seq<byte>)
    ensures at + |bytes| == AfterBody(body, at)
  {
    if body == [] then [] else Padding(at, 4) + TokenBytes(body)
  }

  function AfterBody(body: seq<u32>, at: nat): (after: nat)
    ensures after >= at
  {
    if body == [] then at else Aligned(at, 4) + 4 * |body|
  }

  function MacroBodies(m: Macro, at: nat): (bytes: seq<byte>)
    ensures at + |bytes| == AfterMacro(m, at)
  {
    BodyBytes(m.parameter, at) + BodyBytes(m.replacement, AfterBody(m.parameter, at))
  }

  function AfterMacro(m: Macro, at: nat): (after: nat)
    ensures after >= at
  {
    AfterBody(m.replacement, AfterBody(m.parameter, at))
  }

  function Bodies(macros: seq<Macro>, at: nat): seq<byte>
    decreases |macros|
  {
    if macros == [] then [] else MacroBodies(macros[0], at) + Bodies(macros[1..], AfterMacro(macros[0], at))
  }

  // ----- records, as they are written -----

  function Predicted(body: seq<u32>, at: nat): Address {
    Absolute(if body == [] then 0 else FORMAT_BASE + Aligned(at, 4))
  }

  /** The record of a definition whose bodies will be written from `at` on. */
  function PredictedRecord(m: Macro, at: nat): Record {
    Record(Predicted(m.parameter, at), |m.parameter|, Predicted(m.replacement, AfterBody(m.parameter, at)), |m.replacement|,
           m.head, m.parameter != [], m.replacement != [], m.tail)
  }

  function PredictedRecords(macros: seq<Macro>, at: nat): (records: seq<Record>)
    ensures |records| == |macros|
    decreases |macros|
  {
    if macros == [] then [] else [PredictedRecord(macros[0], at)] + PredictedRecords(macros[1..], AfterMacro(macros[0], at))
  }

  function BorrowedByte(r: Record): byte {
    (if r.parameterBorrowed then 1 else 0) + (if r.replacementBorrowed then 2 else 0)
  }

  function AddressWord(address: Address): nat {
    match address
    case Absolute(a) => a
    case Cut(_, _) => 0
  }

  function RecordBytes(r: Record): seq<byte> {
    LittleEndian(AddressWord(r.parameterText), 8) + (LittleEndian(r.parameterTokens, 8)
      + (LittleEndian(AddressWord(r.replacementText), 8) + (LittleEndian(r.replacementTokens, 8)
      + (r.head + ([BorrowedByte(r)] + r.tail)))))
  }

  function RecordRows(records: seq<Record>): (rows: seq<Row>)
    ensures |rows| == |records|
    ensures forall i :: 0 <= i < |rows| ==> rows[i] == RecordBytes(records[i])
  {
    seq(|records|, i requires 0 <= i < |records| => RecordBytes(records[i]))
  }

  function RecordOf(row: Row): Record
    requires |row| == RECORD
  {
    Record(Absolute(FromLittleEndian(row[..8])), FromLittleEndian(row[8..16]), Absolute(FromLittleEndian(row[16..24])),
           FromLittleEndian(row[24..32]), row[32..35], row[35] % 2 == 1, row[35] / 2 % 2 == 1, row[36..])
  }

  predicate RecordOK(r: Record) {
    && r.parameterText.Absolute? && r.replacementText.Absolute?
    && r.parameterText.a < WORD && r.replacementText.a < WORD
    && r.parameterTokens < WORD && r.replacementTokens < WORD
    && |r.head| == 3 && |r.tail| == 28
  }

  lemma RecordBack(r: Record)
    requires RecordOK(r)
    ensures |RecordBytes(r)| == RECORD && RecordOf(RecordBytes(r)) == r
  {
    hide LittleEndian, FromLittleEndian, BorrowedByte;
    Range8();
    ScalarRoundTrip(r.parameterText.a, 8);
    ScalarRoundTrip(r.parameterTokens, 8);
    ScalarRoundTrip(r.replacementText.a, 8);
    ScalarRoundTrip(r.replacementTokens, 8);
    BorrowedBack(r);
    var (a, b, c, d) := (LittleEndian(r.parameterText.a, 8), LittleEndian(r.parameterTokens, 8),
                         LittleEndian(r.replacementText.a, 8), LittleEndian(r.replacementTokens, 8));
    FourWords(a, b, c, d, r.head + ([BorrowedByte(r)] + r.tail));
    LastPart(a + (b + (c + d)), r.head, BorrowedByte(r), r.tail);
    assert RecordBytes(r) == a + (b + (c + d)) + (r.head + ([BorrowedByte(r)] + r.tail));
  }

  lemma BorrowedBack(r: Record)
    ensures (BorrowedByte(r) % 2 == 1 <==> r.parameterBorrowed) && (BorrowedByte(r) / 2 % 2 == 1 <==> r.replacementBorrowed)
  {}

  lemma FourWords(a: seq<byte>, b: seq<byte>, c: seq<byte>, d: seq<byte>, rest: seq<byte>)
    requires |a| == |b| == |c| == |d| == 8
    ensures var row := a + (b + (c + d)) + rest;
      row[..8] == a && row[8..16] == b && row[16..24] == c && row[24..32] == d
  {
    var w := a + (b + (c + d));
    var row := w + rest;
    assert row[..32] == w;
    assert row[..8] == w[..8] == a;
    assert w[8..] == b + (c + d);
    assert row[8..16] == w[8..][..8] == b;
    assert w[16..] == w[8..][8..] == c + d;
    assert row[16..24] == w[16..][..8] == c;
    assert row[24..32] == w[16..][8..] == d;
  }

  lemma LastPart(words: seq<byte>, head: seq<byte>, b: byte, tail: seq<byte>)
    requires |words| == 32 && |head| == 3
    ensures var row := words + (head + ([b] + tail));
      row[32..35] == head && row[35] == b && row[36..] == tail
  {}

  // ----- the definitions, as they are written -----

  function RecordsAt(at: nat): nat { Aligned(at + 16, 8) }

  function BodiesAt(capacity: nat, at: nat): nat { RecordsAt(at) + Size(capacity, RECORD) }

  /** The records and the empty room behind them. */
  function RecordTable(macros: seq<Macro>, capacity: nat, at: nat): (rows: seq<Row>)
    requires |macros| <= capacity
    ensures |rows| == capacity
  {
    RecordRows(PredictedRecords(macros, BodiesAt(capacity, at))) + ZeroRows(capacity - |macros|, RECORD)
  }

  /** transfer_macros and the bodies behind it. */
  function DefinitionsBytes(macros: seq<Macro>, capacity: nat, at: nat): seq<byte>
    requires |macros| <= capacity
  {
    TableBytes(|macros|, RecordTable(macros, capacity, at), at) + Bodies(macros, BodiesAt(capacity, at))
  }

  predicate DefinitionsOK(macros: seq<Macro>, capacity: nat, at: nat) {
    && MacrosOK(macros) && |macros| <= capacity && Size(capacity, RECORD) < WORD && capacity < WORD
    && BodiesAt(capacity, at) + |Bodies(macros, BodiesAt(capacity, at))| < WORD - FORMAT_BASE
  }

  // ----- the layout -----

  /** A body and the address given for it: the body stands where the address says, at a token's alignment,
      when the stream is mapped at the base. */
  predicate Foretold(address: Address, body: seq<u32>, bytes: seq<byte>) {
    if body == [] then address == Absolute(0)
    else
      && address.Absolute? && address.a >= FORMAT_BASE && address.a % 4 == 0
      && Stands(TokenBytes(body), bytes, address.a - FORMAT_BASE)
  }

  predicate Foretells(r: Record, m: Macro, bytes: seq<byte>) {
    && Foretold(r.parameterText, m.parameter, bytes) && Foretold(r.replacementText, m.replacement, bytes)
    && (r.parameterBorrowed <==> m.parameter != []) && (r.replacementBorrowed <==> m.replacement != [])
  }

  lemma BodyForetold(body: seq<u32>, bytes: seq<byte>, at: nat)
    requires Stands(BodyBytes(body, at), bytes, at)
    ensures Foretold(Predicted(body, at), body, bytes)
  {
    hide Stands, TokenBytes;
    if body != [] {
      Parts(Padding(at, 4), TokenBytes(body), bytes, at);
    }
  }

  /** The pass that writes the records tells for every definition where the pass that writes the bodies
      puts them. */
  lemma {:induction false} RecordsForetell(macros: seq<Macro>, bytes: seq<byte>, at: nat, i: nat)
    requires Stands(Bodies(macros, at), bytes, at) && i < |macros|
    ensures Foretells(PredictedRecords(macros, at)[i], macros[i], bytes)
    decreases |macros|
  {
    hide Stands, Foretold, Predicted, BodyBytes, AfterBody;
    var m := macros[0];
    Parts(MacroBodies(m, at), Bodies(macros[1..], AfterMacro(m, at)), bytes, at);
    Parts(BodyBytes(m.parameter, at), BodyBytes(m.replacement, AfterBody(m.parameter, at)), bytes, at);
    if i == 0 {
      BodyForetold(m.parameter, bytes, at);
      BodyForetold(m.replacement, bytes, AfterBody(m.parameter, at));
    } else {
      RecordsForetell(macros[1..], bytes, AfterMacro(m, at), i - 1);
    }
  }

  // ----- blocks that bodies are cut from -----

  /** The blocks, where the last one is free, and how much of it is left. */
  datatype Blocks = Blocks(all: seq<seq<byte>>, next: nat, left: nat)

  predicate BlocksOK(b: Blocks) {
    if b.all == [] then b.left == 0 && b.next == 0 else b.next + b.left == |b.all[|b.all| - 1]|
  }

  /** body_take: room for a body in the last block, or in a new one where it does not fit. */
  function BodyTake(b: Blocks, bytes: nat): (r: (Blocks, Address))
    requires BlocksOK(b) && bytes > 0
    ensures BlocksOK(r.0) && r.1.Cut?
    ensures 0 < |r.0.all| == r.1.block + 1 && r.1.offset + bytes <= r.0.next
  {
    var room := Aligned(bytes, 4);
    var from := if room > b.left then Blocks(b.all + [Zeros(if room > BODY_BLOCK then room else BODY_BLOCK)], 0, if room > BODY_BLOCK then room else BODY_BLOCK)
                else b;
    (from.(next := from.next + room, left := from.left - room), Cut(|from.all| - 1, from.next))
  }

  /** A body copied into the room cut for it. */
  function BodyCopied(b: Blocks, body: seq<byte>): (r: (Blocks, Address))
    requires BlocksOK(b) && body != []
    ensures BlocksOK(r.0) && r.1.Cut?
    ensures Within(r.1, |body|, r.0)
    ensures Stands(body, r.0.all[r.1.block], r.1.offset)
  {
    var (taken, place) := BodyTake(b, |body|);
    var block := taken.all[place.block];
    var filled := block[..place.offset] + body + block[place.offset + |body|..];
    assert filled[place.offset..place.offset + |body|] == body;
    (taken.(all := taken.all[place.block := filled]), place)
  }

  /** The place has been cut from the blocks. */
  predicate Within(address: Address, length: nat, b: Blocks) {
    && address.Cut? && address.block < |b.all|
    && address.offset + length <= |b.all[address.block]|
    && (address.block == |b.all| - 1 ==> address.offset + length <= b.next)
  }

  /** Cutting more moves nothing that was cut before. */
  ghost predicate Grown(b: Blocks, after: Blocks) {
    && |b.all| <= |after.all|
    && (forall k :: 0 <= k < |b.all| - 1 ==> after.all[k] == b.all[k])
    && (b.all != [] ==>
      && b.next <= |b.all[|b.all| - 1]| && b.next <= |after.all[|b.all| - 1]|
      && after.all[|b.all| - 1][..b.next] == b.all[|b.all| - 1][..b.next])
    && (|b.all| == |after.all| ==> b.next <= after.next)
  }

  lemma CopyGrows(b: Blocks, body: seq<byte>)
    requires BlocksOK(b) && body != []
    ensures Grown(b, BodyCopied(b, body).0)
  {}

  lemma GrownTwice(a: Blocks, b: Blocks, c: Blocks)
    requires Grown(a, b) && Grown(b, c)
    ensures Grown(a, c)
  {
    if a.all != [] {
      var last := |a.all| - 1;
      if |a.all| == |b.all| {
        assert c.all[last][..a.next] == c.all[last][..b.next][..a.next];
        assert b.all[last][..a.next] == b.all[last][..b.next][..a.next];
      } else {
        assert c.all[last] == b.all[last];
      }
    }
  }

  lemma StillThere(b: Blocks, after: Blocks, address: Address, body: seq<byte>)
    requires Grown(b, after) && Within(address, |body|, b) && Stands(body, b.all[address.block], address.offset)
    ensures address.block < |after.all| && Stands(body, after.all[address.block], address.offset)
    ensures Within(address, |body|, after)
  {
    var last := |b.all| - 1;
    if address.block == last {
      var was, now := b.all[last], after.all[last];
      assert was[..b.next][address.offset..address.offset + |body|] == was[address.offset..address.offset + |body|];
      assert now[..b.next][address.offset..address.offset + |body|] == now[address.offset..address.offset + |body|];
    }
  }

  // ----- the three readers -----

  /** A reader of the file mapped at the base, of the file mapped elsewhere, and of a file it copies from. */
  datatype Mode = AtBase | Lying(base: nat) | Copying

  datatype Placed = Placed(address: Address, borrowed: bool, at: nat, blocks: Blocks)

  /** transfer_body, reading: the body's address and whether the record borrowed it. */
  function TakeBody(address: Address, count: nat, borrowed: bool, bytes: seq<byte>, at: nat, mode: Mode, blocks: Blocks): Option<Placed>
    requires BlocksOK(blocks)
  {
    var was := if mode.AtBase? then (address, borrowed) else (Absolute(0), false);
    var start := Aligned(at, 4);
    if count == 0 then Some(Placed(was.0, was.1, at, blocks))
    else if start + 4 * count > |bytes| then None
    else
      match mode
      case AtBase => Some(Placed(was.0, was.1, start + 4 * count, blocks))
      case Lying(base) => Some(Placed(Absolute(base + start), true, start + 4 * count, blocks))
      case Copying =>
        var (copied, place) := BodyCopied(blocks, bytes[start..start + 4 * count]);
        Some(Placed(place, true, start + 4 * count, copied))
  }

  /** The tokens at an address, in the space a reader of the mode reads in. */
  function Deref(address: Address, count: nat, mode: Mode, bytes: seq<byte>, blocks: Blocks): seq<u32> {
    if count == 0 then []
    else
      match address
      case Absolute(a) =>
        var base := if mode.Lying? then mode.base else FORMAT_BASE;
        if base <= a && a - base + 4 * count <= |bytes| then TokensAt(bytes, a - base, count) else []
      case Cut(block, offset) =>
        if block < |blocks.all| && offset + 4 * count <= |blocks.all[block]| then TokensAt(blocks.all[block], offset, count) else []
  }

  /** The body is found at the address, and is said to be borrowed exactly where there is one. */
  predicate Found(address: Address, borrowed: bool, body: seq<u32>, mode: Mode, bytes: seq<byte>, blocks: Blocks) {
    && Deref(address, |body|, mode, bytes, blocks) == body
    && (borrowed <==> body != [])
    && (body == [] ==> address == Absolute(0))
    && (address.Cut? ==> Within(address, 4 * |body|, blocks))
  }

  /** Whichever reader it is, the body is recovered and the reader stands behind it where the writer stood. */
  lemma BodyTaken(body: seq<u32>, bytes: seq<byte>, at: nat, mode: Mode, blocks: Blocks)
    requires Stands(BodyBytes(body, at), bytes, at) && BlocksOK(blocks)
    ensures var placed := TakeBody(Predicted(body, at), |body|, body != [], bytes, at, mode, blocks);
      && placed.Some? && placed.value.at == AfterBody(body, at)
      && BlocksOK(placed.value.blocks) && Grown(blocks, placed.value.blocks)
      && Found(placed.value.address, placed.value.borrowed, body, mode, bytes, placed.value.blocks)
  {
    hide Stands, TokenBytes, TokensAt, BodyCopied, Grown;
    GrownSame(blocks);
    if body != [] {
      var start := Aligned(at, 4);
      Parts(Padding(at, 4), TokenBytes(body), bytes, at);
      TokensRead(body, bytes, start);
      StandsIs(TokenBytes(body), bytes, start);
      if mode.Copying? {
        CopyGrows(blocks, TokenBytes(body));
        var (copied, place) := BodyCopied(blocks, TokenBytes(body));
        TokensRead(body, copied.all[place.block], place.offset);
      }
    }
  }

  lemma GrownSame(b: Blocks)
    requires BlocksOK(b)
    ensures Grown(b, b)
  {}

  lemma FoundStill(address: Address, borrowed: bool, body: seq<u32>, mode: Mode, bytes: seq<byte>, blocks: Blocks, after: Blocks)
    requires Found(address, borrowed, body, mode, bytes, blocks) && Grown(blocks, after)
    ensures Found(address, borrowed, body, mode, bytes, after)
  {
    if address.Cut? && body != [] {
      var length := 4 * |body|;
      var piece := blocks.all[address.block][address.offset..address.offset + length];
      StillThere(blocks, after, address, piece);
      SameTokens(piece, blocks.all[address.block], after.all[address.block], address.offset, |body|);
    }
  }

  lemma {:induction false} SameTokens(piece: seq<byte>, a: seq<byte>, b: seq<byte>, at: nat, count: nat)
    requires |piece| == 4 * count && Stands(piece, a, at) && Stands(piece, b, at)
    ensures TokensAt(a, at, count) == TokensAt(b, at, count)
    decreases count
  {
    if count > 0 {
      assert a[at..at + 4] == piece[..4] == b[at..at + 4];
      assert a[at + 4..at + 4 * count] == piece[4..] == b[at + 4..at + 4 * count];
      SameTokens(piece[4..], a, b, at + 4, count - 1);
    }
  }

  // ----- the definitions, as they are read -----

  datatype MacroPlaced = MacroPlaced(record: Record, at: nat, blocks: Blocks)

  /** The two bodies of one definition. */
  function TakeMacro(r: Record, bytes: seq<byte>, at: nat, mode: Mode, blocks: Blocks): (placed: Option<MacroPlaced>)
    requires BlocksOK(blocks)
    ensures placed.Some? ==> BlocksOK(placed.value.blocks)
  {
    var parameter := TakeBody(r.parameterText, r.parameterTokens, r.parameterBorrowed, bytes, at, mode, blocks);
    if parameter.None? || !BlocksOK(parameter.value.blocks) then None
    else
      var replacement := TakeBody(r.replacementText, r.replacementTokens, r.replacementBorrowed, bytes, parameter.value.at, mode, parameter.value.blocks);
      if replacement.None? || !BlocksOK(replacement.value.blocks) then None
      else
        Some(MacroPlaced(
          r.(parameterText := parameter.value.address, parameterBorrowed := parameter.value.borrowed,
             replacementText := replacement.value.address, replacementBorrowed := replacement.value.borrowed),
          replacement.value.at, replacement.value.blocks))
  }

  datatype AllPlaced = AllPlaced(records: seq<Record>, at: nat, blocks: Blocks)

  function TakeBodies(records: seq<Record>, bytes: seq<byte>, at: nat, mode: Mode, blocks: Blocks): Option<AllPlaced>
    requires BlocksOK(blocks)
    decreases |records|
  {
    if records == [] then Some(AllPlaced([], at, blocks))
    else
      var first := TakeMacro(records[0], bytes, at, mode, blocks);
      if first.None? then None
      else
        var others := TakeBodies(records[1..], bytes, first.value.at, mode, first.value.blocks);
        if others.None? then None else Some(others.value.(records := [first.value.record] + others.value.records))
  }

  /** The definition a record stands for, whichever reader it was read by. */
  predicate Recovered(r: Record, m: Macro, mode: Mode, bytes: seq<byte>, blocks: Blocks) {
    && r.parameterTokens == |m.parameter| && r.replacementTokens == |m.replacement|
    && Found(r.parameterText, r.parameterBorrowed, m.parameter, mode, bytes, blocks)
    && Found(r.replacementText, r.replacementBorrowed, m.replacement, mode, bytes, blocks)
    && r.head == m.head && r.tail == m.tail
  }

  lemma MacroTaken(m: Macro, bytes: seq<byte>, at: nat, mode: Mode, blocks: Blocks)
    requires Stands(MacroBodies(m, at), bytes, at) && BlocksOK(blocks)
    ensures var placed := TakeMacro(PredictedRecord(m, at), bytes, at, mode, blocks);
      && placed.Some? && placed.value.at == AfterMacro(m, at)
      && BlocksOK(placed.value.blocks) && Grown(blocks, placed.value.blocks)
      && Recovered(placed.value.record, m, mode, bytes, placed.value.blocks)
  {
    hide Stands, BodyBytes, AfterBody, Grown, Found, Predicted, TakeBody, BlocksOK;
    var second := AfterBody(m.parameter, at);
    Parts(BodyBytes(m.parameter, at), BodyBytes(m.replacement, second), bytes, at);
    BodyTaken(m.parameter, bytes, at, mode, blocks);
    var first := TakeBody(Predicted(m.parameter, at), |m.parameter|, m.parameter != [], bytes, at, mode, blocks).value;
    BodyTaken(m.replacement, bytes, second, mode, first.blocks);
    var last := TakeBody(Predicted(m.replacement, second), |m.replacement|, m.replacement != [], bytes, second, mode, first.blocks).value;
    FoundStill(first.address, first.borrowed, m.parameter, mode, bytes, first.blocks, last.blocks);
    GrownTwice(blocks, first.blocks, last.blocks);
  }

  /** Every definition is recovered by every reader, and what is copied later moves nothing copied before. */
  lemma {:induction false} BodiesTaken(macros: seq<Macro>, bytes: seq<byte>, at: nat, mode: Mode, blocks: Blocks)
    requires Stands(Bodies(macros, at), bytes, at) && BlocksOK(blocks)
    ensures var all := TakeBodies(PredictedRecords(macros, at), bytes, at, mode, blocks);
      && all.Some? && all.value.at == at + |Bodies(macros, at)| && |all.value.records| == |macros|
      && BlocksOK(all.value.blocks) && Grown(blocks, all.value.blocks)
      && forall i :: 0 <= i < |macros| ==> Recovered(all.value.records[i], macros[i], mode, bytes, all.value.blocks)
    decreases |macros|
  {
    hide Stands, MacroBodies, AfterMacro, Grown, Recovered, PredictedRecord, TakeMacro, BlocksOK;
    if macros == [] {
      GrownSame(blocks);
    } else {
      var m := macros[0];
      var next := AfterMacro(m, at);
      Parts(MacroBodies(m, at), Bodies(macros[1..], next), bytes, at);
      MacroTaken(m, bytes, at, mode, blocks);
      var first := TakeMacro(PredictedRecord(m, at), bytes, at, mode, blocks).value;
      BodiesTaken(macros[1..], bytes, next, mode, first.blocks);
      var others := TakeBodies(PredictedRecords(macros[1..], next), bytes, next, mode, first.blocks).value;
      RecoveredStill(first.record, m, mode, bytes, first.blocks, others.blocks);
      GrownTwice(blocks, first.blocks, others.blocks);
    }
  }

  lemma RecoveredStill(r: Record, m: Macro, mode: Mode, bytes: seq<byte>, blocks: Blocks, after: Blocks)
    requires Recovered(r, m, mode, bytes, blocks) && Grown(blocks, after)
    ensures Recovered(r, m, mode, bytes, after)
  {
    hide Found, Grown;
    FoundStill(r.parameterText, r.parameterBorrowed, m.parameter, mode, bytes, blocks, after);
    FoundStill(r.replacementText, r.replacementBorrowed, m.replacement, mode, bytes, blocks, after);
  }

  function RecordsOf(rows: seq<Row>): (records: seq<Record>)
    requires Sized(rows, RECORD)
    ensures |records| == |rows|
    ensures forall i :: 0 <= i < |rows| ==> records[i] == RecordOf(rows[i])
  {
    seq(|rows|, i requires 0 <= i < |rows| => RecordOf(rows[i]))
  }

  datatype Definitions = Definitions(records: seq<Record>, capacity: nat, blocks: Blocks)

  /** transfer_macros and the bodies behind it, reading. */
  function TakeDefinitions(bytes: seq<byte>, at: nat, mode: Mode, blocks: Blocks): Got<Definitions>
    requires BlocksOK(blocks)
  {
    var table := TakeTable(RECORD, bytes, at);
    if table.Failed? || !table.value.Table? || table.value.count > |table.value.room| || !Sized(table.value.room, RECORD) then Failed
    else
      var all := TakeBodies(RecordsOf(table.value.room[..table.value.count]), bytes, table.at, mode, blocks);
      if all.None? then Failed else Got(Definitions(all.value.records, |table.value.room|, all.value.blocks), all.value.at)
  }

  lemma {:induction false} PredictedOK(macros: seq<Macro>, at: nat, end: nat)
    requires MacrosOK(macros) && at + |Bodies(macros, at)| <= end < WORD - FORMAT_BASE
    ensures forall i :: 0 <= i < |macros| ==> RecordOK(PredictedRecords(macros, at)[i])
    decreases |macros|
  {
    if macros != [] {
      var m := macros[0];
      PredictedOK(macros[1..], AfterMacro(m, at), end);
      hide Bodies;
      assert RecordOK(PredictedRecord(m, at));
    }
  }

  lemma RecordsRead(records: seq<Record>)
    requires forall i :: 0 <= i < |records| ==> RecordOK(records[i])
    ensures Sized(RecordRows(records), RECORD) && RecordsOf(RecordRows(records)) == records
  {
    hide RecordOK, RecordBytes, RecordOf;
    forall i | 0 <= i < |records|
      ensures |RecordBytes(records[i])| == RECORD && RecordOf(RecordBytes(records[i])) == records[i]
    {
      RecordBack(records[i]);
    }
  }

  lemma TableSized(macros: seq<Macro>, capacity: nat, at: nat)
    requires DefinitionsOK(macros, capacity, at)
    ensures Sized(RecordTable(macros, capacity, at), RECORD)
    ensures RecordsOf(RecordTable(macros, capacity, at)[..|macros|]) == PredictedRecords(macros, BodiesAt(capacity, at))
  {
    var start := BodiesAt(capacity, at);
    var records := PredictedRecords(macros, start);
    PredictedOK(macros, start, start + |Bodies(macros, start)|);
    RecordsRead(records);
    hide RecordRows, RecordsOf, Bodies, PredictedRecords, RecordBytes, RecordOK, RecordOf;
    assert RecordTable(macros, capacity, at)[..|macros|] == RecordRows(records);
  }

  lemma {:induction false} RowsLength(macros: seq<Macro>, at: nat)
    requires MacrosOK(macros)
    ensures forall i :: 0 <= i < |macros| ==> |RecordBytes(PredictedRecords(macros, at)[i])| == RECORD
    decreases |macros|
  {
    if macros != [] {
      RowsLength(macros[1..], AfterMacro(macros[0], at));
      assert |RecordBytes(PredictedRecord(macros[0], at))| == RECORD;
    }
  }

  /** The bodies are written where the records were told they would be. */
  lemma BodiesFollow(macros: seq<Macro>, capacity: nat, at: nat)
    requires MacrosOK(macros) && |macros| <= capacity
    ensures at + |TableBytes(|macros|, RecordTable(macros, capacity, at), at)| == BodiesAt(capacity, at)
  {
    RowsLength(macros, BodiesAt(capacity, at));
    var rows := RecordTable(macros, capacity, at);
    assert Sized(rows, RECORD);
    FlatLength(rows, RECORD);
  }

  /** The layout: for every definition the record written for it names, relative to the base, the place in
      the stream where its body is written later. */
  lemma Layout(macros: seq<Macro>, capacity: nat, at: nat, bytes: seq<byte>, i: nat)
    requires MacrosOK(macros) && |macros| <= capacity && i < |macros|
    requires Stands(DefinitionsBytes(macros, capacity, at), bytes, at)
    ensures var record := PredictedRecords(macros, BodiesAt(capacity, at))[i];
      RecordTable(macros, capacity, at)[i] == RecordBytes(record) && Foretells(record, macros[i], bytes)
  {
    hide Stands, Bodies, PredictedRecords, TableBytes, RecordTable, Foretells, RecordBytes, DefinitionsBytes, BodiesAt, MacrosOK;
    BodiesStand(macros, capacity, at, bytes);
    RecordsForetell(macros, bytes, BodiesAt(capacity, at), i);
    TableRow(macros, capacity, at, i);
  }

  lemma BodiesStand(macros: seq<Macro>, capacity: nat, at: nat, bytes: seq<byte>)
    requires MacrosOK(macros) && |macros| <= capacity
    requires Stands(DefinitionsBytes(macros, capacity, at), bytes, at)
    ensures Stands(Bodies(macros, BodiesAt(capacity, at)), bytes, BodiesAt(capacity, at))
  {
    hide Stands, Bodies, TableBytes, RecordTable, BodiesAt, MacrosOK;
    BodiesFollow(macros, capacity, at);
    Parts(TableBytes(|macros|, RecordTable(macros, capacity, at), at), Bodies(macros, BodiesAt(capacity, at)), bytes, at);
  }

  lemma TableRow(macros: seq<Macro>, capacity: nat, at: nat, i: nat)
    requires |macros| <= capacity && i < |macros|
    ensures RecordTable(macros, capacity, at)[i] == RecordBytes(PredictedRecords(macros, BodiesAt(capacity, at))[i])
  {
    hide RecordBytes, PredictedRecords;
  }

  /** The three readers agree: each recovers both bodies of every definition, says they are borrowed exactly
      where there are any, and stands at the end where the writer stood. */
  lemma DefinitionsBack(macros: seq<Macro>, capacity: nat, at: nat, bytes: seq<byte>, mode: Mode, blocks: Blocks)
    requires DefinitionsOK(macros, capacity, at) && BlocksOK(blocks)
    requires Stands(DefinitionsBytes(macros, capacity, at), bytes, at)
    ensures var read := TakeDefinitions(bytes, at, mode, blocks);
      && read.Got? && read.at == at + |DefinitionsBytes(macros, capacity, at)|
      && read.value.capacity == capacity && |read.value.records| == |macros|
      && BlocksOK(read.value.blocks) && Grown(blocks, read.value.blocks)
      && forall i :: 0 <= i < |macros| ==> Recovered(read.value.records[i], macros[i], mode, bytes, read.value.blocks)
  {
    hide Stands, Bodies, PredictedRecords, TableBytes, RecordTable, Recovered, TakeBodies, TakeTable, Grown, RecordsOf, Sized, BlocksOK;
    var rows := RecordTable(macros, capacity, at);
    BodiesFollow(macros, capacity, at);
    TableSized(macros, capacity, at);
    Parts(TableBytes(|macros|, rows, at), Bodies(macros, BodiesAt(capacity, at)), bytes, at);
    TableRead(RECORD, |macros|, rows, bytes, at);
    BodiesTaken(macros, bytes, BodiesAt(capacity, at), mode, blocks);
  }
}
