/** The tokenizer as it works: one line buffer rewritten in place, a cursor moved along it. */
module MouthReader {
  import opened Bytes
  import opened Symbol
  import opened Mouth

  /** The engine's lexical state, which every open file reads. */
  class Lexical {
    var catcodes: Catcodes
    var endLine: int
    var paragraph: nat
    const symbols: SymbolTable

    ghost predicate Valid()
      reads this, symbols, symbols.slots
    {
      symbols.Valid()
    }

    ghost function Value(): Lex
      reads this, symbols
    {
      Lex(catcodes, endLine, paragraph, symbols.names)
    }

    method InternName(symbol: Symbol) returns (id: Option<nat>)
      requires Valid()
      modifies symbols, symbols.slots
      ensures Valid() && (symbols.slots == old(symbols.slots) || fresh(symbols.slots))
      ensures (id, Value()) == Intern(old(Value()), symbol)
    {
      hide SymbolTable.Valid, Interned;
      var r := symbols.Intern(symbol);
      id := if r.Identifier? then Some(r.id) else None;
    }

    constructor (symbols: SymbolTable, catcodes: Catcodes, endLine: int, paragraph: nat)
      requires symbols.Valid()
      ensures this.symbols == symbols && Valid() && Value() == Lex(catcodes, endLine, paragraph, symbols.names)
    {
      hide SymbolTable.Valid;
      this.symbols := symbols;
      this.catcodes := catcodes;
      this.endLine := endLine;
      this.paragraph := paragraph;
    }
  }

  lemma ReadIsRewriting(m: MouthState, cat: Catcodes)
    requires Sound(m)
    ensures Readable(m) ==> Read(m, cat, true) == ReadRewriting(m, cat)
    ensures Readable(m) ==> Read(m, cat, false) == ReadOver(m, cat)
  {
    hide Reduced;
  }

  datatype Taken = Loaded | AtEnd | TooMany

  /** A file being read. `at` holds the scalars that hstex_mouth_position takes out. */
  class MouthReader {
    const data: seq<byte>
    const lexical: Lexical
    var length: nat
    var at: Position
    var buffer: array<byte>

    /** The line in hand, where there is one. */
    ghost var line: seq<byte>

    ghost predicate Valid()
      reads this, buffer
    {
      && at.nextLine <= length <= |data|
      && (if at.loaded then at.raw <= buffer.Length && line == buffer[..at.raw] else line == [])
    }

    ghost function State(): (m: MouthState)
      reads this, buffer
      requires Valid()
      ensures Sound(m)
    {
      Restored(data, at, line).(length := length)
    }

    /** hstex_mouth_init. */
    constructor (data: seq<byte>, lexical: Lexical)
      ensures Valid() && fresh(buffer) && this.lexical == lexical && State() == Opened(data)
    {
      this.data := data;
      this.lexical := lexical;
      length := |data|;
      at := PositionOf(Opened(data));
      buffer := new byte[0];
      line := [];
    }

    /** reserve_line: doubled from 128 until the line fits. */
    method ReserveLine(required: nat)
      modifies this`buffer
      ensures buffer.Length >= required && (buffer == old(buffer) || fresh(buffer))
    {
      if required <= buffer.Length {
        return;
      }
      var capacity := if buffer.Length == 0 then 128 else buffer.Length;
      while capacity < required
        invariant capacity > 0
        decreases required - capacity
      {
        capacity := capacity * 2;
      }
      buffer := new byte[capacity](_ => 0);
    }

    /** load_line. */
    method TakeLine() returns (taken: Taken)
      requires Valid() && !at.loaded
      modifies this`at, this`line, this`buffer, buffer
      ensures Valid() && (buffer == old(buffer) || fresh(buffer))
      ensures taken == AtEnd <==> old(at.nextLine) == old(length)
      ensures taken == TooMany <==> old(at.nextLine) < old(length) && old(at.lineNumber) == UINT32_MAX
      ensures State() == if taken == Loaded then LoadLine(old(State()), lexical.endLine) else old(State())
    {
      hide LineEnd, NextStart, Trimmed, LineText;
      if at.nextLine >= length {
        return AtEnd;
      }
      if at.lineNumber == UINT32_MAX {
        return TooMany;
      }
      var start := at.nextLine;
      var end := FindEnd(start);
      var last := Trim(start, end);
      var endLine := lexical.endLine;
      var hasEnd := 0 <= endLine <= 255;
      var raw := last - start + if hasEnd then 1 else 0;
      var next := Position(NextStart(data, end, length), start, last - start, 0, raw, at.lineNumber + 1,
                           if hasEnd then endLine as byte else 0, NewLine, true, hasEnd);
      ghost var text := LineText(data, start, last, endLine);
      ghost var m := State();
      LoadedAt(m, endLine, end, last, next, text);
      hide LoadLine, Restored;
      FillLine(start, last, endLine);
      at := next;
      line := text;
      taken := Loaded;
    }

    /** What the position and the text of the next line make of the state. */
    lemma LoadedAt(m: MouthState, endLine: int, end: nat, last: nat, next: Position, text: seq<byte>)
      requires Sound(m) && m.nextLine < m.length && m.lineNumber < UINT32_MAX
      requires end == LineEnd(m.data, m.nextLine, m.length) && last == Trimmed(m.data, m.nextLine, end)
      requires text == LineText(m.data, m.nextLine, last, endLine)
      requires var hasEnd := 0 <= endLine <= 255;
        next == Position(NextStart(m.data, end, m.length), m.nextLine, last - m.nextLine, 0, |text|, m.lineNumber + 1,
                         if hasEnd then endLine as byte else 0, NewLine, true, hasEnd)
      ensures LoadLine(m, endLine) == Restored(m.data, next, text).(length := m.length)
    {
      hide LineEnd, NextStart, Trimmed, LineText;
    }

    method FindEnd(start: nat) returns (end: nat)
      requires start <= length <= |data|
      ensures end == LineEnd(data, start, length)
    {
      end := start;
      while end < length && data[end] != 10 && data[end] != 13
        invariant start <= end <= length
        invariant LineEnd(data, start, length) == LineEnd(data, end, length)
      {
        end := end + 1;
      }
    }

    method Trim(start: nat, end: nat) returns (last: nat)
      requires start <= end <= |data|
      ensures last == Trimmed(data, start, end)
    {
      last := end;
      while last > start && data[last - 1] == 32
        invariant start <= last <= end
        invariant Trimmed(data, start, end) == Trimmed(data, start, last)
        decreases last
      {
        last := last - 1;
      }
    }

    /** The text of a line and the end-of-line character behind it, in the buffer. */
    method FillLine(start: nat, last: nat, endLine: int)
      requires start <= last <= |data|
      modifies this`buffer, buffer
      ensures buffer == old(buffer) || fresh(buffer)
      ensures |LineText(data, start, last, endLine)| <= buffer.Length
      ensures buffer[..|LineText(data, start, last, endLine)|] == LineText(data, start, last, endLine)
    {
      var text := last - start;
      var ends := 0 <= endLine <= 255;
      var all := text + if ends then 1 else 0;
      ReserveLine(if all == 0 then 1 else all);
      Fill(start, last);
      if ends {
        buffer[text] := endLine as byte;
      }
    }

    method Fill(start: nat, last: nat)
      requires start <= last <= |data| && last - start <= buffer.Length
      modifies buffer
      ensures buffer[..last - start] == data[start..last]
    {
      forall i | 0 <= i < last - start {
        buffer[i] := data[start + i];
      }
    }

    /** collapse_line: the character where its notation stood, and the rest of the line moved down. */
    method CollapseLine(index: nat, value: byte, gone: nat)
      requires Valid() && at.loaded && index + 1 + gone <= at.raw
      modifies this`at, this`line, buffer
      ensures Valid()
      ensures line == old(line[..index]) + [value] + old(line[index + 1 + gone..])
      ensures at == old(at).(raw := |line|, content := ContentLength(line, at.hasEnd, at.endByte), cursor := index + 1)
    {
      Shift(index, value, gone, line);
      var raw := at.raw - gone;
      line := buffer[..raw];
      at := at.(raw := raw, cursor := index + 1,
                content := if at.hasEnd && raw != 0 && buffer[raw - 1] == at.endByte then raw - 1 else raw);
    }

    /** The bytes of a collapse. */
    method Shift(index: nat, value: byte, gone: nat, ghost line: seq<byte>)
      requires index + 1 + gone <= |line| == at.raw <= buffer.Length && line == buffer[..|line|]
      modifies buffer
      ensures buffer[..|line| - gone] == line[..index] + [value] + line[index + 1 + gone..]
    {
      buffer[index] := value;
      forall i | index + 1 <= i < at.raw - gone {
        buffer[i] := buffer[i + gone];
      }
      MovedDown(line, buffer[..], index, value, gone);
    }

    /** read_logical_character: None at the end of the line. */
    method ReadCharacter(rewrite: bool) returns (c: Option<byte>)
      requires Valid() && at.loaded
      modifies this`at, this`line, buffer
      ensures Valid()
      ensures c.None? <==> old(at.cursor) >= old(at.raw)
      ensures c.None? ==> State() == old(State())
      ensures c.Some? ==> (c.value, State()) == Read(old(State()), lexical.catcodes, rewrite)
    {
      hide Reduced, Reading, Read, Reduces;
      if at.cursor >= at.raw {
        return None;
      }
      ghost var m0 := State();
      var first := at.cursor;
      var current: byte := buffer[first];
      var cat := lexical.catcodes;
      at := at.(cursor := first + 1);
      ReadingBegins(m0, cat, rewrite);
      var more := Notation(current, cat);
      while more
        invariant Valid() && at.loaded && at.cursor <= at.raw
        invariant Reading(m0, State(), current, cat, rewrite)
        invariant more <==> Reduces(State(), current, cat)
        decreases at.raw - at.cursor
      {
        current := ReduceOnce(first, current, cat, rewrite, m0);
        more := Notation(current, cat);
      }
      ReadingEnds(m0, State(), current, cat, rewrite);
      c := Some(current);
    }

    /** Whether `^^` notation begins at the character just read. */
    method Notation(current: byte, cat: Catcodes) returns (begins: bool)
      requires Valid() && at.loaded && at.cursor <= at.raw
      ensures begins <==> Reduces(State(), current, cat)
    {
      begins := cat[current] == SUPERSCRIPT && at.cursor + 1 < at.raw && buffer[at.cursor] == current
        && buffer[at.cursor + 1] < 128;
    }

    /** One reduction, written back or stepped over. */
    method ReduceOnce(first: nat, current: byte, cat: Catcodes, rewrite: bool, ghost m0: MouthState) returns (c: byte)
      requires Valid() && at.loaded && at.cursor <= at.raw
      requires Readable(m0) && m0.cursor == first && Reading(m0, State(), current, cat, rewrite) && Reduces(State(), current, cat)
      modifies this`at, this`line, buffer
      ensures Valid() && at.loaded && at.cursor <= at.raw
      ensures at.raw - at.cursor < old(at.raw - at.cursor)
      ensures Reading(m0, State(), c, cat, rewrite)
    {
      hide Reduced, Reading, Reduces, Reduction;
      ReadingOn(m0, State(), current, cat, rewrite);
      ReadingCursor(m0, State(), current, cat, rewrite);
      var (reduced, gone) := Notated(current, cat);
      c := reduced;
      if rewrite {
        CollapseLine(first, c, gone);
      } else {
        at := at.(cursor := at.cursor + gone);
      }
    }

    /** The character the notation stands for, and how many bytes behind the first it takes. */
    function Notated(current: byte, cat: Catcodes): (r: (byte, nat))
      requires Valid() && at.loaded && at.cursor <= at.raw && Reduces(State(), current, cat)
      reads this, buffer
      ensures r == Reduction(State(), current, cat)
    {
      var third := buffer[at.cursor + 1];
      if at.cursor + 2 < at.raw && LowerHex(third) && LowerHex(buffer[at.cursor + 2]) then
        (HexOf(third) * 16 + HexOf(buffer[at.cursor + 2]), 3)
      else (Flipped(third), 2)
    }

    /** Nothing the tokenizer writes is the table's and nothing of the table's is the tokenizer's. */
    ghost predicate Apart()
      reads this, lexical, lexical.symbols
    {
      var mine: set<object>, table: set<object> := {this, buffer}, {lexical, lexical.symbols, lexical.symbols.slots};
      mine !! table
    }

    /** The letters of a name from the cursor on. */
    method ScanLetters(first: byte) returns (name: seq<byte>)
      requires Valid() && at.loaded && at.cursor <= at.raw
      modifies this`at, this`line, buffer
      ensures Valid()
      ensures (name, State()) == ScanName(old(State()), lexical.catcodes, [first])
    {
      hide Read, ReadRewriting;
      var cat := lexical.catcodes;
      name := [first];
      while at.cursor < at.raw
        invariant Valid() && at.loaded && at.cursor <= at.raw
        invariant ScanName(State(), cat, name) == ScanName(old(State()), cat, [first])
        decreases at.raw - at.cursor
      {
        var saved := at.cursor;
        ReadIsRewriting(State(), cat);
        var c := ReadCharacter(true);
        if cat[c.value] != LETTER {
          at := at.(cursor := saved);
          return;
        }
        name := name + [c.value];
      }
    }

    /** scan_control_sequence. */
    method ScanControlSequence(location: Location) returns (result: Result)
      requires Valid() && lexical.Valid() && Apart() && at.loaded && at.cursor <= at.raw
      modifies this`at, this`line, buffer, lexical.symbols, lexical.symbols.slots
      ensures Valid() && lexical.Valid() && Apart() && TableKept(old(lexical.symbols.slots))
      ensures (result, State(), lexical.Value()) == ControlSequence(old(State()), location, old(lexical.Value()))
    {
      hide ReadName, SymbolTable.Valid, Intern;
      if at.cursor == at.raw {
        var none := lexical.InternName(Symbol(Regular, []));
        if none.None? {
          return Error;
        }
        at := at.(mode := MiddleLine);
        return Token(ControlToken(none.value), location);
      }
      var name := TakeName();
      var id := lexical.InternName(Symbol(Regular, name));
      result := if id.None? then Error else Token(ControlToken(id.value), location);
    }

    method TakeName() returns (name: seq<byte>)
      requires Valid() && at.loaded && at.cursor < at.raw
      modifies this`at, this`line, buffer
      ensures Valid()
      ensures (name, State()) == ReadName(old(State()), lexical.catcodes)
    {
      hide Read, ReadRewriting, ScanName;
      ReadIsRewriting(State(), lexical.catcodes);
      var first := ReadCharacter(true);
      var category := lexical.catcodes[first.value];
      name := [first.value];
      if category == LETTER {
        name := ScanLetters(first.value);
      }
      at := at.(mode := if category == LETTER || category == SPACE then SkipSpaces else MiddleLine);
    }

    twostate predicate TableKept(slots: array<nat>)
      reads lexical.symbols
    {
      lexical.symbols.slots == slots || fresh(lexical.symbols.slots)
    }

    /** What one character does: None where the reading goes on. */
    method ActOn(c: byte, location: Location) returns (result: Option<Result>)
      requires Valid() && lexical.Valid() && Apart() && at.loaded && at.cursor <= at.raw
      modifies this`at, this`line, buffer, lexical.symbols, lexical.symbols.slots
      ensures Valid() && lexical.Valid() && Apart() && TableKept(old(lexical.symbols.slots))
      ensures result.None? ==> lexical.symbols.slots == old(lexical.symbols.slots)
      ensures Acted(Act(old(State()), c, location, old(lexical.Value())), result, State(), old(lexical.Value()), lexical.Value())
    {
      hide ControlSequence, SymbolTable.Valid, Intern;
      var category := lexical.catcodes[c];
      var previous := at.mode;
      if category == ESCAPE {
        var scanned := ScanControlSequence(location);
        return Some(scanned);
      } else if category == END_OF_LINE {
        LeaveLine();
        return match previous
          case NewLine => Some(Token(ControlToken(lexical.paragraph), location))
          case MiddleLine => Some(Token(SPACE_TOKEN, location))
          case SkipSpaces => None;
      } else if category == IGNORED {
        return None;
      } else if category == SPACE {
        if previous != MiddleLine {
          return None;
        }
        at := at.(mode := SkipSpaces);
        return Some(Token(SPACE_TOKEN, location));
      } else if category == ACTIVE {
        var id := lexical.InternName(Symbol(Active, [c]));
        if id.None? {
          return Some(Error);
        }
        at := at.(mode := MiddleLine);
        return Some(Token(ControlToken(id.value), location));
      } else if category == COMMENT {
        LeaveLine();
        return None;
      } else if category == INVALID {
        return Some(Forbidden(location));
      }
      at := at.(mode := MiddleLine);
      result := Some(Token(CharacterToken(category, c), location));
    }

    method LeaveLine()
      requires Valid() && at.loaded
      modifies this`at, this`line
      ensures Valid() && State() == LeftLine(old(State()))
    {
      at := at.(cursor := at.raw, loaded := false, mode := NewLine);
      line := [];
    }

    /** One turn of the loop of hstex_mouth_next. */
    method TakeTurn() returns (result: Option<Result>)
      requires Valid() && lexical.Valid() && Apart()
      modifies this, buffer, lexical.symbols, lexical.symbols.slots
      ensures Valid() && lexical.Valid() && Apart()
      ensures (buffer == old(buffer) || fresh(buffer)) && TableKept(old(lexical.symbols.slots))
      ensures result.None? ==> lexical.symbols.slots == old(lexical.symbols.slots)
      ensures Acted(Turn(old(State()), old(lexical.Value())), result, State(), old(lexical.Value()), lexical.Value())
    {
      hide Act, LoadLine, Read, ReadOver, SymbolTable.Valid;
      if !at.loaded {
        var taken := TakeLine();
        assert lexical.Value() == old(lexical.Value());
        return match taken
          case Loaded => None
          case TooMany => Some(Error)
          case AtEnd => Some(EndOfFile);
      } else if at.cursor >= at.raw {
        at := at.(loaded := false);
        line := [];
        return None;
      }
      ReadIsRewriting(State(), lexical.catcodes);
      var location := Location(at.lineNumber, if at.cursor + 1 > UINT32_MAX then UINT32_MAX else at.cursor + 1);
      var c := ReadCharacter(false);
      result := ActOn(c.value, location);
    }

    /** hstex_mouth_next. */
    method Next() returns (result: Result)
      requires Valid() && lexical.Valid() && Apart()
      modifies this, buffer, lexical.symbols, lexical.symbols.slots
      ensures Valid() && lexical.Valid() && Apart()
      ensures (buffer == old(buffer) || fresh(buffer)) && TableKept(old(lexical.symbols.slots))
      ensures (result, State(), lexical.Value()) == MouthNext(old(State()), old(lexical.Value()))
    {
      hide Turn, SymbolTable.Valid;
      ghost var goal := MouthNext(State(), lexical.Value());
      while true
        invariant Valid() && lexical.Valid() && Apart()
        invariant buffer == old(buffer) || fresh(buffer)
        invariant lexical.symbols.slots == old(lexical.symbols.slots)
        invariant MouthNext(State(), lexical.Value()) == goal
        decreases length - at.nextLine, at.loaded, if at.cursor < at.raw then at.raw - at.cursor else 0
      {
        var acted := TakeTurn();
        if acted.Some? {
          return acted.value;
        }
      }
    }
  }

  ghost predicate Acted(step: Step, result: Option<Result>, m: MouthState, before: Lex, lex: Lex) {
    match step
    case Stop(stopped, after, names) => result == Some(stopped) && m == after && lex == names
    case Go(after) => result == None && m == after && lex == before
  }

  lemma MovedDown(line: seq<byte>, after: seq<byte>, index: nat, value: byte, gone: nat)
    requires index + 1 + gone <= |line| <= |after|
    requires forall i :: 0 <= i < index ==> after[i] == line[i]
    requires after[index] == value
    requires forall i :: index < i < |line| - gone ==> after[i] == line[i + gone]
    ensures after[..|line| - gone] == line[..index] + [value] + line[index + 1 + gone..]
  {}
}
