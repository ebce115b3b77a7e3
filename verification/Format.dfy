/** A format: everything it carries, in one order for both directions, and what reading it gives back. */
module Format {
  import opened Bytes
  import opened Words
  import opened FormatPieces
  import opened FormatMacros
  import opened FormatRecords

  // ----- pieces in a row -----

  function PiecesBytes(pieces: seq<Piece>, at: nat): seq<byte>
    decreases |pieces|
  {
    if pieces == [] then []
    else PieceBytes(pieces[0], at) + PiecesBytes(pieces[1..], at + |PieceBytes(pieces[0], at)|)
  }

  function TakePieces(shapes: seq<PieceShape>, bytes: seq<byte>, at: nat): Got<seq<Piece>>
    decreases |shapes|
  {
    if shapes == [] then Got([], at)
    else
      var first := TakePiece(shapes[0], bytes, at);
      if first.Failed? then Failed
      else
        var others := TakePieces(shapes[1..], bytes, first.at);
        if others.Failed? then Failed else Got([first.value] + others.value, others.at)
  }

  predicate PiecesOK(pieces: seq<Piece>, shapes: seq<PieceShape>) {
    |pieces| == |shapes| && forall i :: 0 <= i < |pieces| ==> PieceOK(pieces[i], shapes[i])
  }

  function CanonicalPieces(pieces: seq<Piece>): (r: seq<Piece>)
    ensures |r| == |pieces|
    ensures forall i :: 0 <= i < |pieces| ==> r[i] == Canonical(pieces[i])
  {
    seq(|pieces|, i requires 0 <= i < |pieces| => Canonical(pieces[i]))
  }

  lemma PiecesFirst(pieces: seq<Piece>, shapes: seq<PieceShape>)
    requires PiecesOK(pieces, shapes) && pieces != []
    ensures shapes != [] && PieceOK(pieces[0], shapes[0]) && PiecesOK(pieces[1..], shapes[1..])
    ensures CanonicalPieces(pieces) == [Canonical(pieces[0])] + CanonicalPieces(pieces[1..])
  {
    hide PieceOK, Canonical;
  }

  lemma {:induction false} PiecesBack(pieces: seq<Piece>, shapes: seq<PieceShape>, bytes: seq<byte>, at: nat)
    requires PiecesOK(pieces, shapes) && Stands(PiecesBytes(pieces, at), bytes, at)
    ensures TakePieces(shapes, bytes, at) == Got(CanonicalPieces(pieces), at + |PiecesBytes(pieces, at)|)
    decreases |pieces|
  {
    hide Stands, PieceBytes, TakePiece, Canonical, PieceOK, PiecesOK, CanonicalPieces, PiecesBytes;
    if pieces == [] {
      NoPieces(shapes, at);
    } else {
      PiecesFirst(pieces, shapes);
      var next := at + |PieceBytes(pieces[0], at)|;
      PiecesSplit(pieces, bytes, at);
      PieceBack(pieces[0], shapes[0], bytes, at);
      PiecesBack(pieces[1..], shapes[1..], bytes, next);
    }
  }

  lemma NoPieces(shapes: seq<PieceShape>, at: nat)
    ensures PiecesOK([], shapes) ==> shapes == []
    ensures PiecesBytes([], at) == [] && CanonicalPieces([]) == []
  {}

  lemma PiecesSplit(pieces: seq<Piece>, bytes: seq<byte>, at: nat)
    requires pieces != [] && Stands(PiecesBytes(pieces, at), bytes, at)
    ensures var next := at + |PieceBytes(pieces[0], at)|;
      && Stands(PieceBytes(pieces[0], at), bytes, at) && Stands(PiecesBytes(pieces[1..], next), bytes, next)
      && at + |PiecesBytes(pieces, at)| == next + |PiecesBytes(pieces[1..], next)|
  {
    hide Stands, PieceBytes;
    var next := at + |PieceBytes(pieces[0], at)|;
    Parts(PieceBytes(pieces[0], at), PiecesBytes(pieces[1..], next), bytes, at);
  }

  lemma {:induction false} CanonicalPiecesBytes(pieces: seq<Piece>, shapes: seq<PieceShape>, at: nat)
    requires PiecesOK(pieces, shapes)
    ensures PiecesBytes(CanonicalPieces(pieces), at) == PiecesBytes(pieces, at)
    decreases |pieces|
  {
    hide PieceBytes, Canonical, PieceOK, PiecesOK, CanonicalPieces;
    if pieces == [] {
      NoPieces(shapes, at);
    } else {
      PiecesFirst(pieces, shapes);
      CanonicalBytes(pieces[0], shapes[0], at);
      CanonicalPiecesBytes(pieces[1..], shapes[1..], at + |PieceBytes(pieces[0], at)|);
    }
  }

  // ----- what follows each record of an array -----

  function EachBytes(each: seq<seq<Piece>>, at: nat): seq<byte>
    decreases |each|
  {
    if each == [] then []
    else PiecesBytes(each[0], at) + EachBytes(each[1..], at + |PiecesBytes(each[0], at)|)
  }

  function TakeEach(shapes: seq<PieceShape>, count: nat, bytes: seq<byte>, at: nat): Got<seq<seq<Piece>>>
    decreases count
  {
    if count == 0 then Got([], at)
    else
      var first := TakePieces(shapes, bytes, at);
      if first.Failed? then Failed
      else
        var others := TakeEach(shapes, count - 1, bytes, first.at);
        if others.Failed? then Failed else Got([first.value] + others.value, others.at)
  }

  predicate EachOK(each: seq<seq<Piece>>, shapes: seq<PieceShape>) {
    forall i :: 0 <= i < |each| ==> PiecesOK(each[i], shapes)
  }

  function CanonicalEach(each: seq<seq<Piece>>): (r: seq<seq<Piece>>)
    ensures |r| == |each|
    ensures forall i :: 0 <= i < |each| ==> r[i] == CanonicalPieces(each[i])
  {
    seq(|each|, i requires 0 <= i < |each| => CanonicalPieces(each[i]))
  }

  lemma EachFirst(each: seq<seq<Piece>>, shapes: seq<PieceShape>)
    requires EachOK(each, shapes) && each != []
    ensures PiecesOK(each[0], shapes) && EachOK(each[1..], shapes)
    ensures CanonicalEach(each) == [CanonicalPieces(each[0])] + CanonicalEach(each[1..])
  {
    hide PiecesOK, CanonicalPieces;
  }

  lemma {:induction false} EachBack(each: seq<seq<Piece>>, shapes: seq<PieceShape>, bytes: seq<byte>, at: nat)
    requires EachOK(each, shapes) && Stands(EachBytes(each, at), bytes, at)
    ensures TakeEach(shapes, |each|, bytes, at) == Got(CanonicalEach(each), at + |EachBytes(each, at)|)
    decreases |each|
  {
    hide Stands, PiecesBytes, TakePieces, CanonicalPieces, PiecesOK, EachOK, CanonicalEach, EachBytes;
    if each == [] {
      NoneEach(at);
    } else {
      EachFirst(each, shapes);
      EachSplit(each, bytes, at);
      PiecesBack(each[0], shapes, bytes, at);
      EachBack(each[1..], shapes, bytes, at + |PiecesBytes(each[0], at)|);
    }
  }

  lemma NoneEach(at: nat)
    ensures EachBytes([], at) == [] && CanonicalEach([]) == []
  {}

  lemma EachSplit(each: seq<seq<Piece>>, bytes: seq<byte>, at: nat)
    requires each != [] && Stands(EachBytes(each, at), bytes, at)
    ensures var next := at + |PiecesBytes(each[0], at)|;
      && Stands(PiecesBytes(each[0], at), bytes, at) && Stands(EachBytes(each[1..], next), bytes, next)
      && at + |EachBytes(each, at)| == next + |EachBytes(each[1..], next)|
  {
    hide Stands, PiecesBytes;
    var next := at + |PiecesBytes(each[0], at)|;
    Parts(PiecesBytes(each[0], at), EachBytes(each[1..], next), bytes, at);
  }

  lemma {:induction false} CanonicalEachBytes(each: seq<seq<Piece>>, shapes: seq<PieceShape>, at: nat)
    requires EachOK(each, shapes)
    ensures EachBytes(CanonicalEach(each), at) == EachBytes(each, at)
    decreases |each|
  {
    hide PiecesBytes, CanonicalPieces, PiecesOK, EachOK, CanonicalEach;
    if each == [] {
      NoneEach(at);
    } else {
      EachFirst(each, shapes);
      CanonicalPiecesBytes(each[0], shapes, at);
      CanonicalEachBytes(each[1..], shapes, at + |PiecesBytes(each[0], at)|);
    }
  }

  // ----- sections -----

  datatype Section = One(piece: Piece)
                   | Records(size: nat, holes: seq<Hole>, rows: seq<Row>, each: seq<seq<Piece>>)
                   | Macros(macros: seq<Macro>, capacity: nat)
                   | Registers(capacity: nat, banks: seq<Bank>)

  datatype Shape = OneShape(piece: PieceShape)
                 | RecordsShape(size: nat, holes: seq<Hole>, each: seq<PieceShape>)
                 | MacrosShape
                 | RegistersShape(banks: seq<BankShape>)

  predicate SectionOK(s: Section, shape: Shape, at: nat) {
    match (s, shape)
    case (One(piece), OneShape(p)) => PieceOK(piece, p)
    case (Records(size, holes, rows, each), RecordsShape(n, h, shapes)) =>
      size == n && holes == h && 0 < size <= ELEMENT && Sized(rows, size) && |rows| < WORD && |each| == |rows| && EachOK(each, shapes)
    case (Macros(macros, capacity), MacrosShape) => DefinitionsOK(macros, capacity, at)
    case (Registers(capacity, banks), RegistersShape(shapes)) => BanksOK(banks, shapes, capacity) && capacity < WORD
    case _ => false
  }

  function RowsBytes(rows: seq<Row>, holes: seq<Hole>): seq<byte> {
    LittleEndian(|rows|, 8) + Flat(AllCleared(rows, holes))
  }

  function SectionBytes(s: Section, at: nat): seq<byte> {
    match s
    case One(piece) => PieceBytes(piece, at)
    case Records(_, holes, rows, each) => RowsBytes(rows, holes) + EachBytes(each, at + |RowsBytes(rows, holes)|)
    case Macros(macros, capacity) => if |macros| <= capacity then DefinitionsBytes(macros, capacity, at) else []
    case Registers(capacity, banks) => RegistersBytes(banks, capacity)
  }

  /** The section up to what nothing reads of it: holes and the empty room of tables. */
  function CanonicalSection(s: Section): Section {
    match s
    case One(piece) => One(Canonical(piece))
    case Records(size, holes, rows, each) => Records(size, holes, AllCleared(rows, holes), CanonicalEach(each))
    case Macros(_, _) => s
    case Registers(capacity, banks) => Registers(capacity, ClearedBanks(banks))
  }

  /** What a reader has got so far, and the blocks it has cut bodies from. */
  datatype Reading<T> = Reading(value: T, blocks: Blocks)

  function MacroOf(r: Record, mode: Mode, bytes: seq<byte>, blocks: Blocks): Macro {
    Macro(Deref(r.parameterText, r.parameterTokens, mode, bytes, blocks),
          Deref(r.replacementText, r.replacementTokens, mode, bytes, blocks), r.head, r.tail)
  }

  function MacrosOf(records: seq<Record>, mode: Mode, bytes: seq<byte>, blocks: Blocks): (macros: seq<Macro>)
    ensures |macros| == |records|
    ensures forall i :: 0 <= i < |records| ==> macros[i] == MacroOf(records[i], mode, bytes, blocks)
  {
    seq(|records|, i requires 0 <= i < |records| => MacroOf(records[i], mode, bytes, blocks))
  }

  function TakeSection(shape: Shape, bytes: seq<byte>, at: nat, mode: Mode, blocks: Blocks): Got<Reading<Section>>
    requires BlocksOK(blocks)
  {
    match shape
    case OneShape(p) =>
      var piece := TakePiece(p, bytes, at);
      if piece.Failed? then Failed else Got(Reading(One(piece.value), blocks), piece.at)
    case RecordsShape(size, holes, each) =>
      var records := TakeRecords(size, holes, each, bytes, at);
      if records.Failed? then Failed else Got(Reading(records.value, blocks), records.at)
    case MacrosShape =>
      var read := TakeDefinitions(bytes, at, mode, blocks);
      if read.Failed? then Failed
      else
        Got(Reading(Macros(MacrosOf(read.value.records, mode, bytes, read.value.blocks), read.value.capacity), read.value.blocks), read.at)
    case RegistersShape(shapes) =>
      var registers := TakeRegisters(shapes, bytes, at);
      if registers.Failed? then Failed
      else Got(Reading(Registers(registers.value.capacity, registers.value.banks), blocks), registers.at)
  }

  function TakeRecords(size: nat, holes: seq<Hole>, each: seq<PieceShape>, bytes: seq<byte>, at: nat): Got<Section> {
    var count := TakeWord(bytes, at);
    if count.Failed? then Failed
    else
      var rows := TakeRows(bytes, count.at, size, count.value);
      if rows.Failed? then Failed
      else
        var followed := TakeEach(each, count.value, bytes, rows.at);
        if followed.Failed? then Failed else Got(Records(size, holes, rows.value, followed.value), followed.at)
  }

  lemma RecordsTaken(s: Section, shape: Shape, bytes: seq<byte>, at: nat)
    requires s.Records? && SectionOK(s, shape, at) && Stands(SectionBytes(s, at), bytes, at)
    ensures TakeRecords(shape.size, shape.holes, shape.each, bytes, at) == Got(CanonicalSection(s), at + |SectionBytes(s, at)|)
  {
    hide Stands, Flat, LittleEndian, TakeWord, TakeRows, EachBytes, TakeEach, AllCleared, CanonicalEach, EachOK, Sized;
    var cleared := AllCleared(s.rows, s.holes);
    ClearedSized(s.rows, s.holes, s.size);
    AllClearedLength(s.rows, s.holes);
    var next := at + |RowsBytes(s.rows, s.holes)|;
    Parts(RowsBytes(s.rows, s.holes), EachBytes(s.each, next), bytes, at);
    Parts(LittleEndian(|s.rows|, 8), Flat(cleared), bytes, at);
    WordBack(|s.rows|, bytes, at);
    RowsTaken(cleared, s.size, bytes, at + 8);
    EachBack(s.each, shape.each, bytes, next);
  }

  lemma AllClearedLength(rows: seq<Row>, holes: seq<Hole>)
    ensures |AllCleared(rows, holes)| == |rows|
  {}

  lemma AllRecovered(records: seq<Record>, macros: seq<Macro>, mode: Mode, bytes: seq<byte>, blocks: Blocks)
    requires |records| == |macros| && forall i :: 0 <= i < |macros| ==> Recovered(records[i], macros[i], mode, bytes, blocks)
    ensures MacrosOf(records, mode, bytes, blocks) == macros
  {
    hide Deref;
    forall i | 0 <= i < |macros|
      ensures MacroOf(records[i], mode, bytes, blocks) == macros[i]
    {
      assert Recovered(records[i], macros[i], mode, bytes, blocks);
    }
  }

  lemma MacrosTaken(macros: seq<Macro>, capacity: nat, bytes: seq<byte>, at: nat, mode: Mode, blocks: Blocks)
    requires DefinitionsOK(macros, capacity, at) && Stands(DefinitionsBytes(macros, capacity, at), bytes, at) && BlocksOK(blocks)
    ensures var read := TakeSection(MacrosShape, bytes, at, mode, blocks);
      && read.Got? && read.value.value == Macros(macros, capacity) && read.at == at + |DefinitionsBytes(macros, capacity, at)|
      && BlocksOK(read.value.blocks)
  {
    hide Stands, TakeDefinitions, DefinitionsBytes, Recovered, Grown, MacroOf;
    DefinitionsBack(macros, capacity, at, bytes, mode, blocks);
    var read := TakeDefinitions(bytes, at, mode, blocks).value;
    AllRecovered(read.records, macros, mode, bytes, read.blocks);
  }

  /** A section comes back, up to what nothing reads of it, and the reader stands where the writer stood. */
  lemma SectionBack(s: Section, shape: Shape, bytes: seq<byte>, at: nat, mode: Mode, blocks: Blocks)
    requires SectionOK(s, shape, at) && Stands(SectionBytes(s, at), bytes, at) && BlocksOK(blocks)
    ensures var read := TakeSection(shape, bytes, at, mode, blocks);
      && read.Got? && read.value.value == CanonicalSection(s) && read.at == at + |SectionBytes(s, at)|
      && BlocksOK(read.value.blocks)
  {
    hide Stands, PieceBytes, PieceOK, TakePiece, Canonical, TakeRecords, TakeDefinitions, TakeRegisters, BanksOK, RegistersBytes, ClearedBanks;
    match s
    case One(piece) => PieceBack(piece, shape.piece, bytes, at);
    case Records(_, _, _, _) => RecordsTaken(s, shape, bytes, at);
    case Macros(macros, capacity) => MacrosTaken(macros, capacity, bytes, at, mode, blocks);
    case Registers(capacity, banks) => RegistersBack(banks, shape.banks, capacity, bytes, at);
  }

  // ----- the whole -----

  function SectionsBytes(sections: seq<Section>, at: nat): seq<byte>
    decreases |sections|
  {
    if sections == [] then []
    else SectionBytes(sections[0], at) + SectionsBytes(sections[1..], at + |SectionBytes(sections[0], at)|)
  }

  predicate SectionsOK(sections: seq<Section>, shapes: seq<Shape>, at: nat)
    decreases |sections|
  {
    if sections == [] then shapes == []
    else
      && shapes != [] && SectionOK(sections[0], shapes[0], at)
      && SectionsOK(sections[1..], shapes[1..], at + |SectionBytes(sections[0], at)|)
  }

  function TakeSections(shapes: seq<Shape>, bytes: seq<byte>, at: nat, mode: Mode, blocks: Blocks): Got<seq<Section>>
    requires BlocksOK(blocks)
    decreases |shapes|
  {
    if shapes == [] then Got([], at)
    else
      var first := TakeSection(shapes[0], bytes, at, mode, blocks);
      if first.Failed? || !BlocksOK(first.value.blocks) then Failed
      else
        var others := TakeSections(shapes[1..], bytes, first.at, mode, first.value.blocks);
        if others.Failed? then Failed else Got([first.value.value] + others.value, others.at)
  }

  function CanonicalSections(sections: seq<Section>): (r: seq<Section>)
    ensures |r| == |sections|
    ensures forall i :: 0 <= i < |sections| ==> r[i] == CanonicalSection(sections[i])
  {
    seq(|sections|, i requires 0 <= i < |sections| => CanonicalSection(sections[i]))
  }

  lemma NoSections(at: nat)
    ensures SectionsBytes([], at) == [] && CanonicalSections([]) == []
  {}

  lemma CanonicalFirst(sections: seq<Section>)
    requires sections != []
    ensures CanonicalSections(sections) == [CanonicalSection(sections[0])] + CanonicalSections(sections[1..])
  {
    hide CanonicalSection;
  }

  lemma SectionsSplit(sections: seq<Section>, bytes: seq<byte>, at: nat)
    requires sections != [] && Stands(SectionsBytes(sections, at), bytes, at)
    ensures var next := at + |SectionBytes(sections[0], at)|;
      && Stands(SectionBytes(sections[0], at), bytes, at) && Stands(SectionsBytes(sections[1..], next), bytes, next)
      && at + |SectionsBytes(sections, at)| == next + |SectionsBytes(sections[1..], next)|
  {
    hide Stands, SectionBytes;
    var next := at + |SectionBytes(sections[0], at)|;
    Parts(SectionBytes(sections[0], at), SectionsBytes(sections[1..], next), bytes, at);
  }

  /** Reading what was written gives everything back, whichever reader reads it, and at every section the
      reader stands where the writer stood. */
  lemma {:induction false} FormatBack(sections: seq<Section>, shapes: seq<Shape>, bytes: seq<byte>, at: nat, mode: Mode, blocks: Blocks)
    requires SectionsOK(sections, shapes, at) && Stands(SectionsBytes(sections, at), bytes, at) && BlocksOK(blocks)
    ensures TakeSections(shapes, bytes, at, mode, blocks) == Got(CanonicalSections(sections), at + |SectionsBytes(sections, at)|)
    decreases |sections|
  {
    hide Stands, SectionBytes, SectionsBytes, TakeSection, CanonicalSection, CanonicalSections, SectionOK, BlocksOK;
    if sections == [] {
      NoSections(at);
    } else {
      CanonicalFirst(sections);
      SectionsSplit(sections, bytes, at);
      SectionBack(sections[0], shapes[0], bytes, at, mode, blocks);
      var read := TakeSection(shapes[0], bytes, at, mode, blocks);
      FormatBack(sections[1..], shapes[1..], bytes, read.at, mode, read.value.blocks);
    }
  }

  // ----- the same file every time -----

  lemma UnsetCleared(row: Row, holes: seq<Hole>)
    ensures Unset(Cleared(row, holes), holes) <==> Unset(row, holes)
  {
    ClearedTwice(row, holes);
  }

  lemma {:induction false} PrefixCleared(rows: seq<Row>, holes: seq<Hole>)
    ensures UsedPrefix(AllCleared(rows, holes), holes) == UsedPrefix(rows, holes)
  {
    hide Unset, Cleared;
    if rows != [] {
      UnsetCleared(rows[|rows| - 1], holes);
      PrefixCleared(rows[..|rows| - 1], holes);
      assert AllCleared(rows, holes)[..|rows| - 1] == AllCleared(rows[..|rows| - 1], holes);
    }
  }

  lemma BankCleared(bank: Bank, prefix: nat)
    ensures BankBytes(ClearedBank(bank), prefix) == BankBytes(bank, prefix)
  {
    hide Flat, Cleared;
    var rows := if prefix <= |bank.rows| then bank.rows[..prefix] else bank.rows;
    AllClearedTwice(rows, bank.holes);
    assert prefix <= |bank.rows| ==> AllCleared(bank.rows, bank.holes)[..prefix] == AllCleared(rows, bank.holes);
  }

  lemma {:induction false} BanksCleared(banks: seq<Bank>, prefix: nat)
    ensures Prefix(ClearedBanks(banks)) == Prefix(banks)
    ensures BanksBytes(ClearedBanks(banks), prefix) == BanksBytes(banks, prefix)
  {
    hide BankBytes, UsedPrefix, AllCleared;
    if banks != [] {
      BankCleared(banks[0], prefix);
      PrefixCleared(banks[0].rows, banks[0].holes);
      BanksCleared(banks[1..], prefix);
      assert ClearedBanks(banks)[1..] == ClearedBanks(banks[1..]);
    }
  }

  lemma CanonicalSectionBytes(s: Section, shape: Shape, at: nat)
    requires SectionOK(s, shape, at)
    ensures SectionBytes(CanonicalSection(s), at) == SectionBytes(s, at)
  {
    hide PieceBytes, PieceOK, Flat, LittleEndian, EachBytes, EachOK, AllCleared, CanonicalEach, Canonical, DefinitionsBytes,
      BanksBytes, Prefix, ClearedBanks, BanksOK, Sized;
    match s
    case One(piece) => CanonicalBytes(piece, shape.piece, at);
    case Records(size, holes, rows, each) =>
      AllClearedLength(rows, holes);
      AllClearedTwice(rows, holes);
      CanonicalEachBytes(each, shape.each, at + |RowsBytes(rows, holes)|);
    case Macros(_, _) =>
    case Registers(capacity, banks) => BanksCleared(banks, Prefix(banks));
  }

  lemma {:induction false} CanonicalSectionsBytes(sections: seq<Section>, shapes: seq<Shape>, at: nat)
    requires SectionsOK(sections, shapes, at)
    ensures SectionsBytes(CanonicalSections(sections), at) == SectionsBytes(sections, at)
    decreases |sections|
  {
    hide SectionBytes, CanonicalSection, CanonicalSections, SectionOK, SectionsBytes;
    if sections == [] {
      NoSections(at);
    } else {
      var next := at + |SectionBytes(sections[0], at)|;
      CanonicalFirst(sections);
      CanonicalSectionBytes(sections[0], shapes[0], at);
      CanonicalSectionsBytes(sections[1..], shapes[1..], next);
      BytesFirst(CanonicalSection(sections[0]), CanonicalSections(sections[1..]), at);
      BytesFirst(sections[0], sections[1..], at);
      assert [sections[0]] + sections[1..] == sections;
    }
  }

  lemma BytesFirst(first: Section, others: seq<Section>, at: nat)
    ensures SectionsBytes([first] + others, at)
         == SectionBytes(first, at) + SectionsBytes(others, at + |SectionBytes(first, at)|)
  {
    hide SectionBytes;
    assert ([first] + others)[1..] == others;
  }

  /** Two states are written as the same bytes exactly where they differ only in what nothing reads. */
  lemma SameBytesExactly(a: seq<Section>, b: seq<Section>, shapes: seq<Shape>, at: nat)
    requires SectionsOK(a, shapes, at) && SectionsOK(b, shapes, at)
    ensures SectionsBytes(a, at) == SectionsBytes(b, at) <==> CanonicalSections(a) == CanonicalSections(b)
  {
    hide SectionsOK, SectionsBytes, CanonicalSections, TakeSections, Stands;
    CanonicalSectionsBytes(a, shapes, at);
    CanonicalSectionsBytes(b, shapes, at);
    if SectionsBytes(a, at) == SectionsBytes(b, at) {
      var file := Zeros(at) + SectionsBytes(a, at);
      StandsLast(Zeros(at), SectionsBytes(a, at));
      FormatBack(a, shapes, file, at, AtBase, Blocks([], 0, 0));
      FormatBack(b, shapes, file, at, AtBase, Blocks([], 0, 0));
    }
  }

  // ----- the order of a format -----

  /** What a format carries, by the engine's names for it. */
  datatype Field =
    | SymbolEntries | SymbolSlots | SymbolBytes | CatcodeTable | EndLineCharacter | ParagraphControlSequence | CatcodeLevels
    | Meanings | MacroFreeList | MacroDefinitions
    | Counts | CountLevels | Dimens | DimenLevels | Glues | GlueLevels | Muglues | MuglueLevels
    | TokenRegisters | TokenRegisterLevels | Boxes | BoxLevels
    | Nodes | ListItems | InsertDetails | TokenLists
    | Fonts | FontMetrics | LigKern | Kerns | Extensibles | FontDimens | FontValue(index: nat)
    | CurrentFont | CurrentFontLevel
    | HyphenRoots | HyphenNodes | HyphenValues | HyphenPatternCount | HyphenExceptions | HyphenExceptionData
    | Parameter(index: nat) | GlyphUnicode | SoftNames | TreesStamp

  const TOKEN: nat := 4

  function Fixeds(w: Field -> nat, fields: seq<Field>): (shapes: seq<Shape>)
    ensures |shapes| == |fields|
  {
    seq(|fields|, i requires 0 <= i < |fields| => OneShape(FixedShape(w(fields[i]))))
  }

  /** What follows the record of one font: its name and attribute, its metrics and programs, its sixteen values. */
  function FontShapes(w: Field -> nat): seq<PieceShape> {
    [InPlaceShape(1), ArrayShape(1), InPlaceShape(w(FontMetrics)), InPlaceShape(w(LigKern)), InPlaceShape(w(Kerns)),
     InPlaceShape(w(Extensibles)), TableShape(w(FontDimens))]
    + seq(16, i requires 0 <= i < 16 => FixedShape(w(FontValue(i))))
  }

  /** transfer_format: the order of everything, for records of whatever widths and holes they may have. */
  function FormatShapes(w: Field -> nat, h: Field -> seq<Hole>): seq<Shape> {
    [OneShape(TableShape(w(SymbolEntries))), OneShape(InPlaceShape(w(SymbolSlots))), OneShape(TableShape(w(SymbolBytes)))]
    + Fixeds(w, [CatcodeTable, EndLineCharacter, ParagraphControlSequence, CatcodeLevels])
    + [OneShape(InPlaceShape(w(Meanings)))]
    + Fixeds(w, [MacroFreeList, MacroDefinitions])
    + [MacrosShape, RegistersShape(BankShapes(w, h))]
    + [OneShape(ArrayShape(w(Nodes))), OneShape(ArrayShape(w(ListItems))), OneShape(ArrayShape(w(InsertDetails)))]
    + [RecordsShape(w(TokenLists), h(TokenLists), [ArrayShape(TOKEN)]), RecordsShape(w(Fonts), h(Fonts), FontShapes(w))]
    + Fixeds(w, [CurrentFont, CurrentFontLevel])
    + [OneShape(InPlaceShape(w(HyphenRoots))), OneShape(InPlaceShape(w(HyphenNodes))), OneShape(InPlaceShape(w(HyphenValues)))]
    + Fixeds(w, [HyphenPatternCount])
    + [OneShape(ArrayShape(w(HyphenExceptions))), OneShape(ArrayShape(w(HyphenExceptionData)))]
    + Fixeds(w, seq(17, i requires 0 <= i < 17 => Parameter(i)))
    + [RecordsShape(w(GlyphUnicode), h(GlyphUnicode), [ArrayShape(1), ArrayShape(1)])]
    + [OneShape(ArrayShape(w(SoftNames))), OneShape(ArrayShape(1))]
    + Fixeds(w, [TreesStamp])
  }

  function BankShapes(w: Field -> nat, h: Field -> seq<Hole>): seq<BankShape> {
    var banks := [Counts, CountLevels, Dimens, DimenLevels, Glues, GlueLevels, Muglues, MuglueLevels,
                  TokenRegisters, TokenRegisterLevels, Boxes, BoxLevels];
    seq(12, i requires 0 <= i < 12 => BankShape(w(banks[i]), if banks[i] == Boxes then h(Boxes) else []))
  }

  /** A whole format, behind its header, comes back through each of the three readers. */
  lemma FormatRoundTrip(sections: seq<Section>, w: Field -> nat, h: Field -> seq<Hole>, header: seq<byte>, trailer: seq<byte>, base: nat)
    requires SectionsOK(sections, FormatShapes(w, h), |header|)
    ensures var file := header + SectionsBytes(sections, |header|) + trailer;
      var got := Got(CanonicalSections(sections), |header| + |SectionsBytes(sections, |header|)|);
      && TakeSections(FormatShapes(w, h), file, |header|, AtBase, Blocks([], 0, 0)) == got
      && TakeSections(FormatShapes(w, h), file, |header|, Lying(base), Blocks([], 0, 0)) == got
      && TakeSections(FormatShapes(w, h), file, |header|, Copying, Blocks([], 0, 0)) == got
  {
    hide FormatShapes, SectionsOK, SectionsBytes, CanonicalSections, TakeSections, Stands;
    var body := SectionsBytes(sections, |header|);
    StandsLast(header, body);
    StillStands(body, header + body, |header|, trailer);
    FormatBack(sections, FormatShapes(w, h), header + body + trailer, |header|, AtBase, Blocks([], 0, 0));
    FormatBack(sections, FormatShapes(w, h), header + body + trailer, |header|, Lying(base), Blocks([], 0, 0));
    FormatBack(sections, FormatShapes(w, h), header + body + trailer, |header|, Copying, Blocks([], 0, 0));
  }
}
