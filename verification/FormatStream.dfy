/** The stream that writes a format and reads it: one routine for each kind of thing, for both directions. */
module FormatStream {
  import opened Bytes
  import opened Words
  import opened FormatPieces
  import opened FormatMacros
  import opened FormatRecords
  import opened Format

  class Stream {
    const writing: bool
    /** What is read, and how it may be left where it lies. */
    const bytes: seq<byte>
    const mode: Mode
    /** What has been written. */
    var out: seq<byte>
    var at: nat
    var failed: bool
    /** Room for bodies that are copied. */
    var blocks: Blocks

    ghost predicate Valid()
      reads this
    {
      && BlocksOK(blocks)
      && (writing ==> at == |out| && !failed)
      && (!writing ==> at <= |bytes|)
    }

    constructor Writer()
      ensures Valid() && writing && out == [] && at == 0
    {
      writing := true;
      bytes := [];
      mode := AtBase;
      out := [];
      at := 0;
      failed := false;
      blocks := Blocks([], 0, 0);
    }

    constructor Reader(bytes: seq<byte>, mode: Mode)
      ensures Valid() && !writing && !failed && this.bytes == bytes && this.mode == mode && at == 0
    {
      this.writing := false;
      this.bytes := bytes;
      this.mode := mode;
      out := [];
      at := 0;
      failed := false;
      blocks := Blocks([], 0, 0);
    }

    /** A writer wrote this and stands behind it. */
    twostate predicate Wrote(s: seq<byte>)
      reads this
    {
      writing && out == old(out) + s && at == old(at) + |s|
    }

    /** A reader got this and stands where it should, or has failed. */
    ghost predicate Took<T>(got: Got<T>, r: T)
      reads this
    {
      if got.Failed? then failed else !failed && r == got.value && at == got.at
    }

    /** transfer: so many bytes, the value's where it is written. */
    method Transfer(value: seq<byte>, length: nat) returns (r: seq<byte>)
      requires Valid() && !failed && (writing ==> |value| == length)
      modifies this`out, this`at, this`failed
      ensures Valid()
      ensures writing ==> Wrote(value) && r == value
      ensures !writing ==> Took(if old(at) + length > |bytes| then Failed else Got(bytes[old(at)..old(at) + length], old(at) + length), r)
    {
      if writing {
        out := out + value;
        at := at + |value|;
        return value;
      }
      if length > |bytes| - at {
        failed := true;
        return value;
      }
      r := bytes[at..at + length];
      at := at + length;
    }

    method Word(value: nat) returns (r: nat)
      requires Valid() && !failed
      modifies this`out, this`at, this`failed
      ensures Valid()
      ensures writing ==> Wrote(LittleEndian(value, 8)) && r == value
      ensures !writing ==> Took(TakeWord(bytes, old(at)), r)
    {
      hide LittleEndian, FromLittleEndian;
      var word := Transfer(if writing then LittleEndian(value, 8) else [], 8);
      r := if writing then value else if failed then 0 else FromLittleEndian(word);
    }

    /** transfer_pad: written and skipped by position, which both sides count the same way. */
    method Pad(width: alignment)
      requires Valid() && !failed
      modifies this`out, this`at, this`failed
      ensures Valid()
      ensures writing ==> Wrote(Padding(old(at), width))
      ensures !writing && Aligned(old(at), width) <= |bytes| ==> !failed && at == Aligned(old(at), width)
      ensures !writing && Aligned(old(at), width) > |bytes| ==> failed
    {
      var pad := Aligned(at, width) - at;
      if writing {
        out := out + Padding(at, width);
        at := at + pad;
      } else if pad > |bytes| - at {
        failed := true;
      } else {
        at := at + pad;
      }
    }

    /** The rows of an array. */
    method Rows(rows: seq<Row>, size: nat, count: nat) returns (r: seq<Row>)
      requires Valid() && !failed
      modifies this`out, this`at, this`failed
      ensures Valid()
      ensures writing ==> Wrote(Flat(rows)) && r == rows
      ensures !writing ==> Took(TakeRows(bytes, old(at), size, count), r)
    {
      hide Flat, Size;
      r := rows;
      if writing {
        out := out + Flat(rows);
        at := at + |Flat(rows)|;
      } else if Size(count, size) > |bytes| - at {
        failed := true;
      } else {
        r := RowsAt(bytes, at, size, count);
        at := at + Size(count, size);
      }
    }

    // ----- pieces -----

    /** transfer_array. */
    method Array(rows: seq<Row>, size: nat) returns (r: Piece)
      requires Valid() && !failed
      modifies this`out, this`at, this`failed
      ensures Valid()
      ensures writing ==> Wrote(PieceBytes(Piece.Array(size, rows), old(at)))
      ensures !writing ==> Took(TakePiece(ArrayShape(size), bytes, old(at)), r)
    {
      hide LittleEndian, Flat, TakeRows, TakeWord;
      r := Piece.Array(size, rows);
      var count := Word(|rows|);
      if failed {
        return;
      }
      var read := Rows(rows, size, count);
      r := Piece.Array(size, read);
    }

    /** transfer_array_in_place: at a multiple of eight, so that it may be read where it lies. */
    method InPlace(rows: seq<Row>, size: nat) returns (r: Piece)
      requires Valid() && !failed
      modifies this`out, this`at, this`failed
      ensures Valid()
      ensures writing ==> Wrote(PieceBytes(Piece.InPlace(size, rows), old(at)))
      ensures !writing ==> Took(TakePiece(InPlaceShape(size), bytes, old(at)), r)
    {
      hide LittleEndian, Flat, TakeWord, Size, Aligned, Padding;
      r := Piece.InPlace(size, rows);
      var count := Word(|rows|);
      if failed {
        return;
      }
      Pad(8);
      if failed {
        return;
      }
      var read := Rows(rows, size, count);
      r := Piece.InPlace(size, read);
    }

    /** transfer_table_in_place: what is in it, then zeros for the room it had. */
    method Table(count: nat, room: seq<Row>, size: nat) returns (r: Piece)
      requires Valid() && !failed && (writing ==> count <= |room|)
      modifies this`out, this`at, this`failed
      ensures Valid()
      ensures writing ==> Wrote(PieceBytes(Piece.Table(size, count, room), old(at)))
      ensures !writing ==> Took(TakeTable(size, bytes, old(at)), r)
    {
      hide LittleEndian, Flat, TakeWord, Size, Aligned, Padding;
      r := Piece.Table(size, count, room);
      var used := Word(count);
      if failed {
        return;
      }
      var capacity := Word(|room|);
      if failed {
        return;
      }
      if !writing && capacity < used {
        failed := true;
        return;
      }
      Pad(8);
      if failed {
        return;
      }
      if writing {
        var written := Rows(room[..count], size, count);
        Tail(Size(|room| - count, size));
      } else {
        var rows := Rows([], size, capacity);
        r := Piece.Table(size, used, rows);
      }
    }

    /** The empty room of a table, four kilobytes of zeros at a time. */
    method Tail(length: nat)
      requires Valid() && writing
      modifies this`out, this`at
      ensures Valid() && Wrote(Zeros(length))
    {
      var tail: nat := length;
      while tail != 0
        invariant Valid() && tail <= length && Wrote(Zeros(length - tail))
        decreases tail
      {
        var piece: nat := if tail < 4096 then tail else 4096;
        ZerosJoin(length - tail, piece);
        out := out + Zeros(piece);
        at := at + piece;
        tail := tail - piece;
      }
    }

    /** One piece, of whichever kind. */
    method TransferPiece(shape: PieceShape, piece: Piece) returns (r: Piece)
      requires Valid() && !failed && (writing ==> PieceOK(piece, shape))
      modifies this`out, this`at, this`failed
      ensures Valid()
      ensures writing ==> Wrote(PieceBytes(piece, old(at)))
      ensures !writing ==> Took(TakePiece(shape, bytes, old(at)), r)
    {
      hide Flat, LittleEndian, TakeWord, TakeRows, TakeTable, Size, Aligned, Padding;
      match shape {
        case FixedShape(length) =>
          var value := Transfer(if writing then piece.bytes else [], length);
          r := Fixed(value);
        case ArrayShape(size) =>
          r := Array(if writing then piece.rows else [], size);
        case InPlaceShape(size) =>
          r := InPlace(if writing then piece.rows else [], size);
        case TableShape(size) =>
          r := Table(if writing then piece.count else 0, if writing then piece.room else [], size);
      }
    }

    // ----- definitions -----

    /** transfer_macros. Writing, each record is told where its bodies will be: behind all the records, each
        at a token's alignment, in the order they are written. */
    method TransferMacros(macros: seq<Macro>, capacity: nat) returns (r: Piece)
      requires Valid() && !failed && (writing ==> MacrosOK(macros) && |macros| <= capacity)
      modifies this`out, this`at, this`failed
      ensures Valid()
      ensures writing ==> |macros| <= capacity && Wrote(TableBytes(|macros|, RecordTable(macros, capacity, old(at)), old(at)))
      ensures !writing ==> Took(TakeTable(RECORD, bytes, old(at)), r)
    {
      hide LittleEndian, Flat, TakeWord, Size, Aligned, Padding, PredictedRecords, RecordRows, MacrosOK;
      r := Piece.Table(RECORD, 0, []);
      if !writing {
        r := Table(0, [], RECORD);
        return;
      }
      var count := Word(|macros|);
      var room := Word(capacity);
      Pad(8);
      WriteRecords(macros, at + Size(capacity, RECORD));
      Tail(Size(capacity - |macros|, RECORD));
      RecordTableFlat(macros, capacity, old(at));
    }

    method WriteRecords(macros: seq<Macro>, bodies: nat)
      requires Valid() && writing
      modifies this`out, this`at
      ensures Valid() && Wrote(Flat(RecordRows(PredictedRecords(macros, bodies))))
    {
      hide RecordBytes, AfterMacro, PredictedRecord;
      var rest, start := macros, bodies;
      ghost var written: seq<byte> := [];
      while rest != []
        invariant Valid() && Wrote(written)
        invariant written + Flat(RecordRows(PredictedRecords(rest, start))) == Flat(RecordRows(PredictedRecords(macros, bodies)))
        decreases |rest|
      {
        var record := PredictedRecord(rest[0], start);
        RecordFirst(rest, start);
        Assoc(written, RecordBytes(record), Flat(RecordRows(PredictedRecords(rest[1..], AfterMacro(rest[0], start)))));
        out := out + RecordBytes(record);
        at := at + |RecordBytes(record)|;
        written := written + RecordBytes(record);
        start := AfterMacro(rest[0], start);
        rest := rest[1..];
      }
      NoRecords(start);
    }

    /** transfer_body. */
    method TransferBody(body: seq<u32>, address: Address, count: nat, borrowed: bool) returns (r: (Address, bool))
      requires Valid() && !failed
      modifies this`out, this`at, this`failed, this`blocks
      ensures Valid()
      ensures writing ==> Wrote(BodyBytes(body, old(at)))
      ensures !writing ==> (failed <==> TakeBody(address, count, borrowed, bytes, old(at), mode, old(blocks)).None?)
      ensures !writing && !failed ==>
        TakeBody(address, count, borrowed, bytes, old(at), mode, old(blocks)) == Some(Placed(r.0, r.1, at, blocks))
    {
      hide TokenBytes, Aligned, Padding, BodyCopied;
      r := (address, borrowed);
      if writing {
        if body != [] {
          Pad(4);
          out := out + TokenBytes(body);
          at := at + |TokenBytes(body)|;
        }
        return;
      }
      if !mode.AtBase? {
        r := (Absolute(0), false);
      }
      if count == 0 {
        return;
      }
      Pad(4);
      if failed || 4 * count > |bytes| - at {
        failed := true;
        return;
      }
      match mode {
        case AtBase =>
        case Lying(base) =>
          r := (Absolute(base + at), true);
        case Copying =>
          var (copied, place) := BodyCopied(blocks, bytes[at..at + 4 * count]);
          blocks := copied;
          r := (place, true);
      }
      at := at + 4 * count;
    }

    /** The bodies of one definition. */
    method TransferMacro(m: Macro, record: Record) returns (r: Record)
      requires Valid() && !failed
      modifies this`out, this`at, this`failed, this`blocks
      ensures Valid()
      ensures writing ==> Wrote(MacroBodies(m, old(at)))
      ensures !writing ==> (failed <==> TakeMacro(record, bytes, old(at), mode, old(blocks)).None?)
      ensures !writing && !failed ==> TakeMacro(record, bytes, old(at), mode, old(blocks)) == Some(MacroPlaced(r, at, blocks))
    {
      hide BodyBytes, AfterBody, TakeBody;
      r := record;
      var parameter := TransferBody(m.parameter, record.parameterText, record.parameterTokens, record.parameterBorrowed);
      if failed {
        return;
      }
      var replacement := TransferBody(m.replacement, record.replacementText, record.replacementTokens, record.replacementBorrowed);
      r := record.(parameterText := parameter.0, parameterBorrowed := parameter.1,
                   replacementText := replacement.0, replacementBorrowed := replacement.1);
    }

    /** The records and then every body, as transfer_format has them one behind the other. */
    method TransferDefinitions(macros: seq<Macro>, capacity: nat) returns (r: Section)
      requires Valid() && !failed && (writing ==> MacrosOK(macros) && |macros| <= capacity)
      modifies this`out, this`at, this`failed, this`blocks
      ensures Valid()
      ensures writing ==> |macros| <= capacity && Wrote(DefinitionsBytes(macros, capacity, old(at)))
      ensures !writing ==> TookSection(TakeSection(MacrosShape, bytes, old(at), mode, old(blocks)), r)
    {
      hide TableBytes, Bodies, RecordTable, TakeTable, TakeBodies, RecordsOf, MacrosOf, MacrosOK;
      r := Section.Macros(macros, capacity);
      var table := TransferMacros(macros, capacity);
      if failed {
        return;
      }
      if writing {
        BodiesFollow(macros, capacity, old(at));
        WriteBodies(macros);
        return;
      }
      if !table.Table? || table.count > |table.room| || !Sized(table.room, RECORD) {
        failed := true;
        return;
      }
      var records := ReadBodies(RecordsOf(table.room[..table.count]));
      r := Section.Macros(MacrosOf(records, mode, bytes, blocks), |table.room|);
    }

    method WriteBodies(macros: seq<Macro>)
      requires Valid() && writing
      modifies this`out, this`at, this`failed, this`blocks
      ensures Valid() && Wrote(Bodies(macros, old(at)))
    {
      hide MacroBodies, AfterMacro, TakeMacro;
      var rest := macros;
      ghost var written: seq<byte> := [];
      while rest != []
        invariant Valid() && Wrote(written)
        invariant written + Bodies(rest, at) == Bodies(macros, old(at))
        decreases |rest|
      {
        Assoc(written, MacroBodies(rest[0], at), Bodies(rest[1..], AfterMacro(rest[0], at)));
        written := written + MacroBodies(rest[0], at);
        var ignored := TransferMacro(rest[0], Record(Absolute(0), 0, Absolute(0), 0, [], false, false, []));
        rest := rest[1..];
      }
    }

    method ReadBodies(records: seq<Record>) returns (r: seq<Record>)
      requires Valid() && !writing && !failed
      modifies this`out, this`at, this`failed, this`blocks
      ensures Valid()
      ensures failed <==> TakeBodies(records, bytes, old(at), mode, old(blocks)).None?
      ensures !failed ==> TakeBodies(records, bytes, old(at), mode, old(blocks)) == Some(AllPlaced(r, at, blocks))
    {
      hide TakeMacro, BlocksOK;
      var rest := records;
      r := [];
      BehindNothing(TakeBodies(records, bytes, at, mode, blocks));
      while rest != []
        invariant Valid() && !failed
        invariant TakeBodies(records, bytes, old(at), mode, old(blocks)) == Behind(r, TakeBodies(rest, bytes, at, mode, blocks))
        decreases |rest|
      {
        ghost var before := r;
        var m := Macro([], [], [], []);
        var record := TransferMacro(m, rest[0]);
        if failed {
          return;
        }
        BehindOne(r, record, TakeBodies(rest[1..], bytes, at, mode, blocks));
        r := r + [record];
        rest := rest[1..];
      }
      assert r + [] == r;
    }

    /** A reader got this section, with these blocks cut so far, or has failed. */
    ghost predicate TookSection(got: Got<Reading<Section>>, r: Section)
      reads this
    {
      if got.Failed? then failed else !failed && got == Got(Reading(r, blocks), at)
    }

    // ----- registers -----

    /** A copy of a record with its holes cleared, one after another. */
    method Clear(row: Row, holes: seq<Hole>) returns (element: Row)
      ensures element == Cleared(row, holes)
    {
      element := row;
      for which := 0 to |holes|
        invariant |element| == |row|
        invariant forall i :: 0 <= i < |row| ==> element[i] == if InHole(i, holes[..which]) then 0 else row[i]
      {
        var hole := holes[which];
        HoleMore(holes, which);
        element := seq(|row|, i requires 0 <= i < |row| && |element| == |row| =>
          if hole.at <= i < hole.at + hole.length then 0 else element[i]);
      }
      assert holes[..|holes|] == holes;
    }

    /** used_prefix. */
    method FindPrefix(rows: seq<Row>, holes: seq<Hole>) returns (n: nat)
      ensures n == UsedPrefix(rows, holes)
    {
      hide Cleared;
      var index := |rows|;
      assert rows[..index] == rows;
      while index != 0
        invariant 0 <= index <= |rows| && UsedPrefix(rows, holes) == UsedPrefix(rows[..index], holes)
        decreases index
      {
        var element := Clear(rows[index - 1], holes);
        if element != Zeros(|element|) {
          return index;
        }
        assert rows[..index][..index - 1] == rows[..index - 1];
        index := index - 1;
      }
      n := 0;
    }

    /** transfer_registers, writing one bank. */
    method WriteBank(bank: Bank, prefix: nat)
      requires Valid() && writing && prefix <= |bank.rows|
      modifies this`out, this`at
      ensures Valid() && Wrote(BankBytes(bank, prefix))
    {
      hide Cleared;
      assert bank.rows[..0] == [];
      for index := 0 to prefix
        invariant Valid() && Wrote(Flat(AllCleared(bank.rows[..index], bank.holes)))
      {
        var element := Clear(bank.rows[index], bank.holes);
        RowMore(bank.rows, bank.holes, index);
        out := out + element;
        at := at + |element|;
      }
    }

    /** The register banks: one length for all of them, cut at the last register set in any. */
    method TransferRegisters(shapes: seq<BankShape>, capacity: nat, banks: seq<Bank>) returns (r: RegisterFile)
      requires Valid() && !failed && (writing ==> BanksOK(banks, shapes, capacity))
      modifies this`out, this`at, this`failed
      ensures Valid()
      ensures writing ==> Wrote(RegistersBytes(banks, capacity))
      ensures !writing ==> Took(TakeRegisters(shapes, bytes, old(at)), r)
    {
      hide LittleEndian, TakeWord, UsedPrefix, BankOK, BankBytes, TakeBanks, BanksBytes;
      r := RegisterFile(0, []);
      var room := Word(capacity);
      if failed {
        return;
      }
      var reached: nat := 0;
      if writing {
        reached := LongestPrefix(banks);
        CoveredByPrefix(banks, shapes, capacity);
        BanksRows(banks, shapes, capacity);
      }
      var prefix := Word(reached);
      if failed {
        return;
      }
      if writing {
        WriteBanks(banks, prefix);
        return;
      }
      if prefix > room {
        failed := true;
        return;
      }
      var read := ReadBanks(shapes, room, prefix);
      r := RegisterFile(room, read);
    }

    method LongestPrefix(banks: seq<Bank>) returns (n: nat)
      ensures n == Prefix(banks)
    {
      hide UsedPrefix;
      var rest := banks;
      n := 0;
      while rest != []
        invariant Prefix(banks) == Max(n, Prefix(rest))
        decreases |rest|
      {
        var reached := FindPrefix(rest[0].rows, rest[0].holes);
        n := if reached > n then reached else n;
        rest := rest[1..];
      }
    }

    method WriteBanks(banks: seq<Bank>, prefix: nat)
      requires Valid() && writing && forall k :: 0 <= k < |banks| ==> prefix <= |banks[k].rows|
      modifies this`out, this`at
      ensures Valid() && Wrote(BanksBytes(banks, prefix))
    {
      hide BankBytes;
      var rest := banks;
      ghost var written: seq<byte> := [];
      while rest != []
        invariant Valid() && Wrote(written) && forall k :: 0 <= k < |rest| ==> prefix <= |rest[k].rows|
        invariant written + BanksBytes(rest, prefix) == BanksBytes(banks, prefix)
        decreases |rest|
      {
        Assoc(written, BankBytes(rest[0], prefix), BanksBytes(rest[1..], prefix));
        WriteBank(rest[0], prefix);
        written := written + BankBytes(rest[0], prefix);
        rest := rest[1..];
      }
    }

    method ReadBanks(shapes: seq<BankShape>, capacity: nat, prefix: nat) returns (banks: seq<Bank>)
      requires Valid() && !writing && !failed && prefix <= capacity
      modifies this`out, this`at, this`failed
      ensures Valid() && Took(TakeBanks(shapes, bytes, old(at), capacity, prefix), banks)
    {
      hide TakeRows;
      var rest := shapes;
      banks := [];
      FollowingNothing(TakeBanks(shapes, bytes, at, capacity, prefix));
      while rest != []
        invariant Valid() && !failed
        invariant TakeBanks(shapes, bytes, old(at), capacity, prefix) == Following(banks, TakeBanks(rest, bytes, at, capacity, prefix))
        decreases |rest|
      {
        var bank := ReadBank(rest[0], capacity, prefix);
        if failed {
          return;
        }
        FollowingOne(banks, bank, TakeBanks(rest[1..], bytes, at, capacity, prefix));
        banks := banks + [bank];
        rest := rest[1..];
      }
      assert banks + [] == banks;
    }

    /** transfer_registers, reading one bank: what the file holds of it goes into a bank of zeros. */
    method ReadBank(shape: BankShape, capacity: nat, prefix: nat) returns (bank: Bank)
      requires Valid() && !writing && !failed && prefix <= capacity
      modifies this`out, this`at, this`failed
      ensures Valid() && Took(TakeBank(shape, bytes, old(at), capacity, prefix), bank)
    {
      hide TakeRows;
      bank := Bank(shape.size, shape.holes, []);
      if capacity == 0 {
        return;
      }
      var rows := Rows([], shape.size, prefix);
      if failed {
        return;
      }
      bank := Bank(shape.size, shape.holes, rows + ZeroRows(capacity - prefix, shape.size));
    }

    // ----- sections -----

    /** transfer_array_cleared: each record goes out as a copy with its holes cleared. */
    method TransferCleared(rows: seq<Row>, size: nat, holes: seq<Hole>) returns (r: seq<Row>)
      requires Valid() && !failed
      modifies this`out, this`at, this`failed
      ensures Valid()
      ensures writing ==> Wrote(RowsBytes(rows, holes))
      ensures !writing ==> Took(TakeCounted(size, bytes, old(at)), r)
    {
      hide LittleEndian, TakeWord, TakeRows, Cleared;
      r := [];
      var count := Word(|rows|);
      if failed {
        return;
      }
      if !writing {
        r := Rows([], size, count);
        return;
      }
      assert rows[..0] == [];
      ghost var start := out;
      for index := 0 to |rows|
        invariant Valid() && out == start + Flat(AllCleared(rows[..index], holes))
      {
        var element := Clear(rows[index], holes);
        RowMore(rows, holes, index);
        out := out + element;
        at := at + |element|;
      }
      assert rows[..|rows|] == rows;
    }

    /** The pieces that follow one record. */
    method TransferPieces(shapes: seq<PieceShape>, pieces: seq<Piece>) returns (r: seq<Piece>)
      requires Valid() && !failed && (writing ==> PiecesOK(pieces, shapes))
      modifies this`out, this`at, this`failed
      ensures Valid()
      ensures writing ==> Wrote(PiecesBytes(pieces, old(at)))
      ensures !writing ==> Took(TakePieces(shapes, bytes, old(at)), r)
    {
      hide PieceBytes, TakePiece, PieceOK, CanonicalPieces;
      var kinds, rest := shapes, if writing then pieces else [];
      r := [];
      ghost var written: seq<byte> := [];
      FollowingNothing(TakePieces(shapes, bytes, at));
      while kinds != []
        invariant Valid() && !failed && (writing ==> PiecesOK(rest, kinds) && Wrote(written))
        invariant writing ==> written + PiecesBytes(rest, at) == PiecesBytes(pieces, old(at))
        invariant !writing ==> TakePieces(shapes, bytes, old(at)) == Following(r, TakePieces(kinds, bytes, at))
        decreases |kinds|
      {
        if writing {
          PiecesFirst(rest, kinds);
          Assoc(written, PieceBytes(rest[0], at), PiecesBytes(rest[1..], at + |PieceBytes(rest[0], at)|));
          written := written + PieceBytes(rest[0], at);
        }
        var piece := TransferPiece(kinds[0], if writing then rest[0] else Fixed([]));
        if failed {
          return;
        }
        FollowingOne(r, piece, TakePieces(kinds[1..], bytes, at));
        r := r + [piece];
        kinds := kinds[1..];
        rest := if writing then rest[1..] else [];
      }
      assert r + [] == r;
    }

    /** What follows each record of an array, one record after another. */
    method TransferEach(shapes: seq<PieceShape>, count: nat, each: seq<seq<Piece>>) returns (r: seq<seq<Piece>>)
      requires Valid() && !failed && (writing ==> EachOK(each, shapes) && |each| == count)
      modifies this`out, this`at, this`failed
      ensures Valid()
      ensures writing ==> Wrote(EachBytes(each, old(at)))
      ensures !writing ==> Took(TakeEach(shapes, count, bytes, old(at)), r)
    {
      hide PiecesBytes, TakePieces, PiecesOK, CanonicalEach;
      var left, rest := count, if writing then each else [];
      r := [];
      ghost var written: seq<byte> := [];
      FollowingNothing(TakeEach(shapes, count, bytes, at));
      while left != 0
        invariant 0 <= left && Valid() && !failed && (writing ==> EachOK(rest, shapes) && |rest| == left && Wrote(written))
        invariant writing ==> written + EachBytes(rest, at) == EachBytes(each, old(at))
        invariant !writing ==> TakeEach(shapes, count, bytes, old(at)) == Following(r, TakeEach(shapes, left, bytes, at))
        decreases left
      {
        if writing {
          EachFirst(rest, shapes);
          Assoc(written, PiecesBytes(rest[0], at), EachBytes(rest[1..], at + |PiecesBytes(rest[0], at)|));
          written := written + PiecesBytes(rest[0], at);
        }
        var pieces := TransferPieces(shapes, if writing then rest[0] else []);
        if failed {
          return;
        }
        FollowingOne(r, pieces, TakeEach(shapes, left - 1, bytes, at));
        r := r + [pieces];
        left := left - 1;
        rest := if writing then rest[1..] else [];
      }
      assert r + [] == r;
    }

    /** One thing a format carries. */
    method TransferSection(shape: Shape, s: Section) returns (r: Section)
      requires Valid() && !failed && (writing ==> SectionOK(s, shape, at))
      modifies this`out, this`at, this`failed, this`blocks
      ensures Valid()
      ensures writing ==> Wrote(SectionBytes(s, old(at)))
      ensures !writing ==> TookSection(TakeSection(shape, bytes, old(at), mode, old(blocks)), r)
    {
      hide PieceBytes, PieceOK, TakePiece, TakeRegisters, TakeDefinitions, DefinitionsBytes, RegistersBytes, EachBytes, EachOK,
        TakeEach, RowsBytes, BanksOK, MacrosOK, TakeWord, TakeRows, Sized;
      match shape {
        case OneShape(p) =>
          var piece := TransferPiece(p, if writing then s.piece else Fixed([]));
          r := One(piece);
        case RecordsShape(size, holes, each) =>
          r := Section.Records(size, holes, [], []);
          var rows := TransferCleared(if writing then s.rows else [], size, holes);
          if failed {
            return;
          }
          var followed := TransferEach(each, if writing then |s.rows| else |rows|, if writing then s.each else []);
          r := Section.Records(size, holes, rows, followed);
          RecordsCounted(size, holes, each, bytes, old(at));
        case MacrosShape =>
          r := TransferDefinitions(if writing then s.macros else [], if writing then s.capacity else 0);
        case RegistersShape(shapes) =>
          var registers := TransferRegisters(shapes, if writing then s.capacity else 0, if writing then s.banks else []);
          r := Section.Registers(registers.capacity, registers.banks);
      }
    }

    /** transfer_format: everything, in one order for both directions. */
    method TransferFormat(shapes: seq<Shape>, sections: seq<Section>) returns (r: seq<Section>)
      requires Valid() && !failed && (writing ==> SectionsOK(sections, shapes, at))
      modifies this`out, this`at, this`failed, this`blocks
      ensures Valid()
      ensures writing ==> Wrote(SectionsBytes(sections, old(at)))
      ensures !writing ==> Took(TakeSections(shapes, bytes, old(at), mode, old(blocks)), r)
    {
      hide SectionBytes, TakeSection, SectionOK, BlocksOK;
      var kinds, rest := shapes, if writing then sections else [];
      r := [];
      ghost var written: seq<byte> := [];
      FollowingNothing(TakeSections(shapes, bytes, at, mode, blocks));
      while kinds != []
        invariant Valid() && !failed && (writing ==> SectionsOK(rest, kinds, at) && Wrote(written))
        invariant writing ==> written + SectionsBytes(rest, at) == SectionsBytes(sections, old(at))
        invariant !writing ==>
          TakeSections(shapes, bytes, old(at), mode, old(blocks)) == Following(r, TakeSections(kinds, bytes, at, mode, blocks))
        decreases |kinds|
      {
        if writing {
          Assoc(written, SectionBytes(rest[0], at), SectionsBytes(rest[1..], at + |SectionBytes(rest[0], at)|));
          written := written + SectionBytes(rest[0], at);
        }
        var section := TransferSection(kinds[0], if writing then rest[0] else One(Fixed([])));
        if failed {
          return;
        }
        FollowingOne(r, section, TakeSections(kinds[1..], bytes, at, mode, blocks));
        r := r + [section];
        kinds := kinds[1..];
        rest := if writing then rest[1..] else [];
      }
      assert r + [] == r;
    }
  }

  lemma ZerosJoin(a: nat, b: nat)
    ensures Zeros(a) + Zeros(b) == Zeros(a + b)
  {}

  lemma NoRecords(at: nat)
    ensures Flat(RecordRows(PredictedRecords([], at))) == []
  {}

  lemma RecordFirst(macros: seq<Macro>, at: nat)
    requires macros != []
    ensures Flat(RecordRows(PredictedRecords(macros, at)))
         == RecordBytes(PredictedRecord(macros[0], at)) + Flat(RecordRows(PredictedRecords(macros[1..], AfterMacro(macros[0], at))))
  {
    hide RecordBytes, PredictedRecord, AfterMacro;
    var rows := RecordRows(PredictedRecords(macros, at));
    assert rows[1..] == RecordRows(PredictedRecords(macros[1..], AfterMacro(macros[0], at)));
  }

  lemma RecordTableFlat(macros: seq<Macro>, capacity: nat, at: nat)
    requires |macros| <= capacity
    ensures Flat(RecordTable(macros, capacity, at))
         == Flat(RecordRows(PredictedRecords(macros, BodiesAt(capacity, at)))) + Zeros(Size(capacity - |macros|, RECORD))
  {
    FlatAdds(RecordRows(PredictedRecords(macros, BodiesAt(capacity, at))), ZeroRows(capacity - |macros|, RECORD));
    FlatZeros(capacity - |macros|, RECORD);
  }

  function Behind(records: seq<Record>, all: Option<AllPlaced>): Option<AllPlaced> {
    if all.None? then None else Some(all.value.(records := records + all.value.records))
  }

  lemma BehindNothing(all: Option<AllPlaced>)
    ensures Behind([], all) == all
  {
    if all.Some? { assert [] + all.value.records == all.value.records; }
  }

  lemma BehindOne(records: seq<Record>, record: Record, others: Option<AllPlaced>)
    ensures Behind(records, if others.None? then None else Some(others.value.(records := [record] + others.value.records)))
         == Behind(records + [record], others)
  {
    if others.Some? { Assoc(records, [record], others.value.records); }
  }

  /** What was read before, and what is read behind it. */
  function Following<T>(done: seq<T>, got: Got<seq<T>>): Got<seq<T>> {
    if got.Failed? then Failed else Got(done + got.value, got.at)
  }

  lemma FollowingNothing<T>(got: Got<seq<T>>)
    ensures Following([], got) == got
  {
    if got.Got? { assert [] + got.value == got.value; }
  }

  lemma FollowingOne<T>(done: seq<T>, one: T, others: Got<seq<T>>)
    ensures Following(done, if others.Failed? then Failed else Got([one] + others.value, others.at)) == Following(done + [one], others)
  {
    if others.Got? { Assoc(done, [one], others.value); }
  }

  lemma HoleMore(holes: seq<Hole>, which: nat)
    requires which < |holes|
    ensures forall i: nat :: InHole(i, holes[..which + 1]) <==>
      InHole(i, holes[..which]) || holes[which].at <= i < holes[which].at + holes[which].length
  {
    forall i: nat
      ensures InHole(i, holes[..which + 1]) <==>
        InHole(i, holes[..which]) || holes[which].at <= i < holes[which].at + holes[which].length
    {
      TakeOneMore(holes, which);
      var (fewer, more) := (holes[..which], holes[..which + 1]);
      assert more[which] == holes[which] && forall k :: 0 <= k < which ==> more[k] == fewer[k];
    }
  }

  lemma RowMore(rows: seq<Row>, holes: seq<Hole>, index: nat)
    requires index < |rows|
    ensures Flat(AllCleared(rows[..index + 1], holes)) == Flat(AllCleared(rows[..index], holes)) + Cleared(rows[index], holes)
  {
    hide Cleared;
    assert AllCleared(rows[..index + 1], holes) == AllCleared(rows[..index], holes) + [Cleared(rows[index], holes)];
    FlatAdds(AllCleared(rows[..index], holes), [Cleared(rows[index], holes)]);
    assert Flat([Cleared(rows[index], holes)]) == Cleared(rows[index], holes) + Flat([]);
  }

  /** How many records there are, and the records. */
  function TakeCounted(size: nat, bytes: seq<byte>, at: nat): Got<seq<Row>> {
    var count := TakeWord(bytes, at);
    if count.Failed? then Failed else TakeRows(bytes, count.at, size, count.value)
  }

  lemma RecordsCounted(size: nat, holes: seq<Hole>, each: seq<PieceShape>, bytes: seq<byte>, at: nat)
    ensures var rows := TakeCounted(size, bytes, at);
      TakeRecords(size, holes, each, bytes, at) ==
        if rows.Failed? then Failed
        else
          var followed := TakeEach(each, |rows.value|, bytes, rows.at);
          if followed.Failed? then Failed else Got(Section.Records(size, holes, rows.value, followed.value), followed.at)
  {
    hide TakeWord, TakeEach;
  }

  /** A format written behind its header and read again, by whichever reader. */
  method WriteAndRead(sections: seq<Section>, w: Field -> nat, h: Field -> seq<Hole>, header: seq<byte>, mode: Mode) returns (read: seq<Section>)
    requires SectionsOK(sections, FormatShapes(w, h), |header|)
    ensures read == CanonicalSections(sections)
  {
    hide FormatShapes, SectionsOK, SectionsBytes, CanonicalSections, TakeSections, Stands;
    var writer := new Stream.Writer();
    var written := writer.Transfer(header, |header|);
    var ignored := writer.TransferFormat(FormatShapes(w, h), sections);
    StandsLast(header, SectionsBytes(sections, |header|));
    var reader := new Stream.Reader(writer.out, mode);
    var head := reader.Transfer([], |header|);
    FormatBack(sections, FormatShapes(w, h), writer.out, |header|, mode, reader.blocks);
    read := reader.TransferFormat(FormatShapes(w, h), []);
  }
}
