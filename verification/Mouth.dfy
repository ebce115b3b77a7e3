/** TeX's three-state tokenizer: lines taken from a file, characters with their ^^ notation reduced, tokens. */
module Mouth {
  import opened Bytes
  import opened Symbol

  const ESCAPE: nat := 0
  const END_OF_LINE: nat := 5
  const SUPERSCRIPT: nat := 7
  const IGNORED: nat := 9
  const SPACE: nat := 10
  const LETTER: nat := 11
  const ACTIVE: nat := 13
  const COMMENT: nat := 14
  const INVALID: nat := 15

  type Catcodes = c: seq<nat> | |c| == 256 && forall i :: 0 <= i < 256 ==> c[i] < 16
    witness seq(256, _ => 12)

  /** What the tokenizer asks of the engine and may find changed at every call. */
  datatype Lex = Lex(catcodes: Catcodes, endLine: int, paragraph: nat, names: seq<Symbol>)

  datatype Mode = NewLine | MiddleLine | SkipSpaces

  datatype Location = Location(line: u32, column: u32)

  /** A file being read, and the line of it in hand. */
  datatype MouthState = MouthState(
    data: seq<byte>, length: nat, nextLine: nat, lineStart: nat,
    line: seq<byte>, raw: nat, content: nat, cursor: nat,
    lineNumber: u32, endByte: byte, hasEnd: bool, loaded: bool, mode: Mode)

  predicate Sound(m: MouthState) {
    && m.nextLine <= m.length <= |m.data|
    && (if m.loaded then |m.line| == m.raw else m.line == [])
  }

  /** hstex_mouth_init. */
  function Opened(data: seq<byte>): (m: MouthState)
    ensures Sound(m)
  {
    MouthState(data, |data|, 0, 0, [], 0, 0, 0, 0, 0, false, false, NewLine)
  }

  // ----- tokens -----

  function CharacterToken(category: nat, character: byte): nat { category * 256 + character }

  function ControlToken(id: nat): nat { 0x8000_0000 + id }

  const SPACE_TOKEN: nat := SPACE * 256 + 32

  datatype Result = Token(token: nat, location: Location) | Forbidden(location: Location) | EndOfFile | Error

  // ----- a line taken from the file -----

  function LineEnd(data: seq<byte>, at: nat, length: nat): (end: nat)
    requires at <= length <= |data|
    ensures at <= end <= length
    ensures end < length ==> data[end] == 10 || data[end] == 13
    ensures forall i :: at <= i < end ==> data[i] != 10 && data[i] != 13
    decreases length - at
  {
    if at < length && data[at] != 10 && data[at] != 13 then LineEnd(data, at + 1, length) else at
  }

  /** Past the terminator a line ends with: a line feed, a carriage return or the two together. */
  function NextStart(data: seq<byte>, end: nat, length: nat): (next: nat)
    requires end <= length <= |data|
    ensures end <= next <= length
    ensures end < length ==> next > end
  {
    if end == length then end
    else if data[end] == 13 && end + 1 < length && data[end + 1] == 10 then end + 2
    else end + 1
  }

  function Trimmed(data: seq<byte>, start: nat, end: nat): (last: nat)
    requires start <= end <= |data|
    ensures start <= last <= end
    ensures last > start ==> data[last - 1] != 32
    ensures forall i :: last <= i < end ==> data[i] == 32
    decreases end
  {
    if end > start && data[end - 1] == 32 then Trimmed(data, start, end - 1) else end
  }

  /** A line as it is held: its text and the end-of-line character, where that is a character. */
  function LineText(data: seq<byte>, start: nat, last: nat, endLine: int): (line: seq<byte>)
    requires start <= last <= |data|
    ensures |line| == last - start + if 0 <= endLine <= 255 then 1 else 0
  {
    data[start..last] + if 0 <= endLine <= 255 then [endLine as byte] else []
  }

  /** load_line where there is a line to load. */
  function LoadLine(m: MouthState, endLine: int): (loaded: MouthState)
    requires Sound(m) && m.nextLine < m.length && m.lineNumber < UINT32_MAX
    ensures Sound(loaded) && loaded.loaded && loaded.nextLine > m.nextLine && loaded.length == m.length
  {
    var start := m.nextLine;
    var end := LineEnd(m.data, start, m.length);
    var last := Trimmed(m.data, start, end);
    var hasEnd := 0 <= endLine <= 255;
    var line := LineText(m.data, start, last, endLine);
    m.(nextLine := NextStart(m.data, end, m.length), lineStart := start, line := line, raw := |line|,
       content := last - start, cursor := 0, lineNumber := m.lineNumber + 1,
       endByte := if hasEnd then endLine as byte else 0, hasEnd := hasEnd, loaded := true, mode := NewLine)
  }

  // ----- ^^ notation -----

  predicate LowerHex(c: byte) { 48 <= c <= 57 || 97 <= c <= 102 }

  function HexOf(c: byte): (v: nat)
    requires LowerHex(c)
    ensures v < 16
  {
    if c <= 57 then c - 48 else c - 97 + 10
  }

  function Flipped(c: byte): byte
    requires c < 128
  {
    if c < 64 then c + 64 else c - 64
  }

  /** A character and the unread line behind it, with every reduction that begins at the character made. */
  function Reduced(current: byte, rest: seq<byte>, cat: Catcodes): (r: (byte, seq<byte>))
    ensures |r.1| <= |rest|
    decreases |rest|
  {
    if cat[current] != SUPERSCRIPT || |rest| < 2 || rest[0] != current || rest[1] >= 128 then (current, rest)
    else if |rest| >= 3 && LowerHex(rest[1]) && LowerHex(rest[2]) then
      Reduced(HexOf(rest[1]) * 16 + HexOf(rest[2]), rest[3..], cat)
    else Reduced(Flipped(rest[1]), rest[2..], cat)
  }

  /** Reducing again changes nothing. */
  lemma {:induction false} ReducedOnce(current: byte, rest: seq<byte>, cat: Catcodes)
    ensures var (c, unread) := Reduced(current, rest, cat); Reduced(c, unread, cat) == (c, unread)
    decreases |rest|
  {
    if cat[current] != SUPERSCRIPT || |rest| < 2 || rest[0] != current || rest[1] >= 128 {
    } else if |rest| >= 3 && LowerHex(rest[1]) && LowerHex(rest[2]) {
      ReducedOnce(HexOf(rest[1]) * 16 + HexOf(rest[2]), rest[3..], cat);
    } else {
      ReducedOnce(Flipped(rest[1]), rest[2..], cat);
    }
  }

  /** What the line shows: all of it but an end-of-line character still standing last. */
  function ContentLength(line: seq<byte>, hasEnd: bool, endByte: byte): nat {
    if hasEnd && line != [] && line[|line| - 1] == endByte then |line| - 1 else |line|
  }

  predicate Readable(m: MouthState) { Sound(m) && m.loaded && m.cursor < m.raw }

  /** read_logical_character stepping over the notation: the line is left as it was. */
  function ReadOver(m: MouthState, cat: Catcodes): (r: (byte, MouthState))
    requires Readable(m)
    ensures Sound(r.1) && r.1.loaded && m.cursor < r.1.cursor <= r.1.raw
  {
    var (c, rest) := Reduced(m.line[m.cursor], m.line[m.cursor + 1..], cat);
    (c, m.(cursor := m.raw - |rest|))
  }

  /** read_logical_character rewriting the line: the character stands where its notation did. */
  function ReadRewriting(m: MouthState, cat: Catcodes): (r: (byte, MouthState))
    requires Readable(m)
    ensures Sound(r.1) && r.1.loaded && r.1.cursor == m.cursor + 1 <= r.1.raw <= m.raw
  {
    var (c, rest) := Reduced(m.line[m.cursor], m.line[m.cursor + 1..], cat);
    if |rest| == m.raw - m.cursor - 1 then (c, m.(cursor := m.cursor + 1)) else (c, Rewritten(m, c, rest))
  }

  /** The line with a character where its notation was, and the reading just past it. */
  function Rewritten(m: MouthState, c: byte, rest: seq<byte>): (after: MouthState)
    requires m.cursor <= |m.line|
    ensures |after.line| == after.raw == m.cursor + 1 + |rest|
  {
    var line := m.line[..m.cursor] + [c] + rest;
    m.(line := line, raw := |line|, content := ContentLength(line, m.hasEnd, m.endByte), cursor := m.cursor + 1)
  }

  function Read(m: MouthState, cat: Catcodes, rewrite: bool): (byte, MouthState)
    requires Readable(m)
  {
    if rewrite then ReadRewriting(m, cat) else ReadOver(m, cat)
  }

  /** A reading of one character under way: what is left of it and what it has done to the line. */
  ghost predicate Reading(m0: MouthState, m: MouthState, current: byte, cat: Catcodes, rewrite: bool)
    requires Readable(m0)
  {
    && Sound(m) && m.loaded && m.cursor <= m.raw
    && Reduced(current, Unread(m), cat) == Reduced(m0.line[m0.cursor], m0.line[m0.cursor + 1..], cat)
    && if rewrite && |Unread(m)| < m0.raw - m0.cursor - 1 then m == Rewritten(m0, current, Unread(m))
       else if rewrite then m == m0.(cursor := m0.cursor + 1) && current == m0.line[m0.cursor]
       else m0.cursor < m.cursor && m == m0.(cursor := m.cursor)
  }

  lemma ReadingBegins(m: MouthState, cat: Catcodes, rewrite: bool)
    requires Readable(m)
    ensures Reading(m, m.(cursor := m.cursor + 1), m.line[m.cursor], cat, rewrite)
  {
    hide Reduced;
  }

  predicate Reduces(m: MouthState, current: byte, cat: Catcodes)
    requires Sound(m) && m.loaded && m.cursor <= m.raw
  {
    && cat[current] == SUPERSCRIPT && m.cursor + 1 < m.raw && m.line[m.cursor] == current && m.line[m.cursor + 1] < 128
  }

  function Reduction(m: MouthState, current: byte, cat: Catcodes): (r: (byte, nat))
    requires Sound(m) && m.loaded && m.cursor <= m.raw && Reduces(m, current, cat)
    ensures m.cursor + r.1 <= m.raw && 2 <= r.1 <= 3
  {
    var third := m.line[m.cursor + 1];
    if m.cursor + 2 < m.raw && LowerHex(third) && LowerHex(m.line[m.cursor + 2]) then
      (HexOf(third) * 16 + HexOf(m.line[m.cursor + 2]), 3)
    else (Flipped(third), 2)
  }

  /** One reduction of it: stepped over, or written back. */
  lemma ReadingOn(m0: MouthState, m: MouthState, current: byte, cat: Catcodes, rewrite: bool)
    requires Readable(m0) && Reading(m0, m, current, cat, rewrite) && Reduces(m, current, cat)
    ensures var (c, gone) := Reduction(m, current, cat);
      Reading(m0, if rewrite then Rewritten(m.(cursor := m0.cursor), c, m.line[m.cursor + gone..]) else m.(cursor := m.cursor + gone), c, cat, rewrite)
  {
    hide Reduced, Reduces, Reduction;
    var (c, gone) := Reduction(m, current, cat);
    OneReduction(m, current, cat);
    ReadingMoves(m0, m, current, c, gone, cat, rewrite);
  }

  lemma ReadingMoves(m0: MouthState, m: MouthState, current: byte, c: byte, gone: nat, cat: Catcodes, rewrite: bool)
    requires Readable(m0) && Reading(m0, m, current, cat, rewrite) && m.cursor + gone <= m.raw && gone > 0
    requires |m.line[m.cursor + gone..]| < |Unread(m)|
    requires Reduced(current, Unread(m), cat) == Reduced(c, m.line[m.cursor + gone..], cat)
    ensures Reading(m0, if rewrite then Rewritten(m.(cursor := m0.cursor), c, m.line[m.cursor + gone..]) else m.(cursor := m.cursor + gone), c, cat, rewrite)
  {
    hide Reduced;
    if rewrite {
      hide Rewritten;
      RewrittenTwice(m0, m, current, c, m.line[m.cursor + gone..]);
    } else {
      assert Unread(m.(cursor := m.cursor + gone)) == m.line[m.cursor + gone..];
    }
  }

  lemma OneReduction(m: MouthState, current: byte, cat: Catcodes)
    requires Sound(m) && m.loaded && m.cursor <= m.raw && Reduces(m, current, cat)
    ensures var (c, gone) := Reduction(m, current, cat);
      && Reduced(current, Unread(m), cat) == Reduced(c, m.line[m.cursor + gone..], cat)
      && |m.line[m.cursor + gone..]| < |Unread(m)|
  {
    var (c, gone) := Reduction(m, current, cat);
    var rest := Unread(m);
    assert rest[0] == m.line[m.cursor] && rest[1] == m.line[m.cursor + 1];
    assert |rest| >= 3 ==> rest[2] == m.line[m.cursor + 2];
    assert rest[gone..] == m.line[m.cursor + gone..];
  }

  lemma ReadingCursor(m0: MouthState, m: MouthState, current: byte, cat: Catcodes, rewrite: bool)
    requires Readable(m0) && Reading(m0, m, current, cat, rewrite)
    ensures rewrite ==> m.cursor == m0.cursor + 1
  {
    hide Reduced;
  }

  lemma RewrittenTwice(m0: MouthState, m: MouthState, current: byte, c: byte, rest: seq<byte>)
    requires Readable(m0) && Sound(m) && m.loaded && m.cursor <= m.raw
    requires m == Rewritten(m0, current, Unread(m)) || m == m0.(cursor := m0.cursor + 1)
    ensures var after := Rewritten(m.(cursor := m0.cursor), c, rest);
      after == Rewritten(m0, c, rest) && Sound(after) && after.loaded && after.cursor <= after.raw && Unread(after) == rest
  {
    assert m.line[..m0.cursor] == m0.line[..m0.cursor];
  }

  lemma ReadingEnds(m0: MouthState, m: MouthState, current: byte, cat: Catcodes, rewrite: bool)
    requires Readable(m0) && Reading(m0, m, current, cat, rewrite) && !Reduces(m, current, cat)
    ensures (current, m) == Read(m0, cat, rewrite)
  {
    var rest := Unread(m);
    assert |rest| >= 2 ==> rest[0] == m.line[m.cursor] && rest[1] == m.line[m.cursor + 1];
    assert Reduced(current, rest, cat) == (current, rest);
    hide Reduced;
  }

  function Unread(m: MouthState): seq<byte>
    requires Sound(m) && m.loaded && m.cursor <= m.raw
  {
    m.line[m.cursor..]
  }

  lemma {:induction false} NothingReduced(current: byte, rest: seq<byte>, cat: Catcodes)
    requires |Reduced(current, rest, cat).1| == |rest|
    ensures Reduced(current, rest, cat) == (current, rest)
  {}

  /** Both readings give the same character and leave the same line unread. */
  lemma ReadingsAgree(m: MouthState, cat: Catcodes)
    requires Readable(m)
    ensures ReadOver(m, cat).0 == ReadRewriting(m, cat).0
    ensures Unread(ReadOver(m, cat).1) == Unread(ReadRewriting(m, cat).1)
  {
    hide Reduced;
    var current, rest := m.line[m.cursor], m.line[m.cursor + 1..];
    SuffixOf(current, rest, cat);
    var (c, unread) := Reduced(current, rest, cat);
    if |unread| == |rest| { NothingReduced(current, rest, cat); }
    assert m.line[m.raw - |unread|..] == rest[|rest| - |unread|..];
  }

  /** What is left unread is the end of what there was. */
  lemma {:induction false} SuffixOf(current: byte, rest: seq<byte>, cat: Catcodes)
    ensures var unread := Reduced(current, rest, cat).1; unread == rest[|rest| - |unread|..]
    decreases |rest|
  {
    if cat[current] != SUPERSCRIPT || |rest| < 2 || rest[0] != current || rest[1] >= 128 {
    } else if |rest| >= 3 && LowerHex(rest[1]) && LowerHex(rest[2]) {
      SuffixOf(HexOf(rest[1]) * 16 + HexOf(rest[2]), rest[3..], cat);
    } else {
      SuffixOf(Flipped(rest[1]), rest[2..], cat);
    }
  }

  // ----- names -----

  /** The letters of a name from the cursor on; the first character that is not one is put back. */
  function ScanName(m: MouthState, cat: Catcodes, name: seq<byte>): (r: (seq<byte>, MouthState))
    requires Sound(m) && m.loaded && m.cursor <= m.raw
    ensures Sound(r.1) && r.1.loaded && m.cursor <= r.1.cursor <= r.1.raw <= m.raw
    ensures r.1.nextLine == m.nextLine && r.1.length == m.length
    decreases m.raw - m.cursor
  {
    if m.cursor >= m.raw then (name, m)
    else
      var (c, read) := ReadRewriting(m, cat);
      if cat[c] != LETTER then (name, read.(cursor := m.cursor)) else ScanName(read, cat, name + [c])
  }

  function Intern(lex: Lex, symbol: Symbol): (Option<nat>, Lex) {
    var (r, names) := Interned(lex.names, symbol);
    (if r.Identifier? then Some(r.id) else None, lex.(names := names))
  }

  /** The name behind an escape character: letters, or one character of any other kind. */
  function ReadName(m: MouthState, cat: Catcodes): (r: (seq<byte>, MouthState))
    requires Readable(m)
    ensures Sound(r.1) && r.1.nextLine == m.nextLine && r.1.length == m.length
  {
    var (c, first) := ReadRewriting(m, cat);
    var (name, read) := if cat[c] == LETTER then ScanName(first, cat, [c]) else ([c], first);
    (name, read.(mode := if cat[c] == LETTER || cat[c] == SPACE then SkipSpaces else MiddleLine))
  }

  /** scan_control_sequence: an escape character that ends its line names the empty name. */
  function ControlSequence(m: MouthState, location: Location, lex: Lex): (r: (Result, MouthState, Lex))
    requires Sound(m) && m.loaded && m.cursor <= m.raw
    ensures Sound(r.1) && r.1.nextLine == m.nextLine && r.1.length == m.length
  {
    if m.cursor == m.raw then
      var (id, after) := Intern(lex, Symbol(Regular, []));
      if id.None? then (Error, m, after)
      else (Token(ControlToken(id.value), location), m.(mode := MiddleLine), after)
    else
      var (name, read) := ReadName(m, lex.catcodes);
      var (id, after) := Intern(lex, Symbol(Regular, name));
      if id.None? then (Error, read, after) else (Token(ControlToken(id.value), location), read, after)
  }

  // ----- the next token -----

  /** What one character does: it ends the reading or the reading goes on. */
  datatype Step = Stop(result: Result, m: MouthState, lex: Lex) | Go(m: MouthState)

  function LeftLine(m: MouthState): MouthState {
    m.(cursor := m.raw, loaded := false, line := [], mode := NewLine)
  }

  function Act(m: MouthState, c: byte, location: Location, lex: Lex): (step: Step)
    requires Sound(m) && m.loaded && m.cursor <= m.raw
    ensures Sound(step.m) && step.m.nextLine == m.nextLine && step.m.length == m.length
    ensures step.Go? && step.m.loaded ==> step.m == m
  {
    var category := lex.catcodes[c];
    if category == ESCAPE then
      var (result, after, names) := ControlSequence(m, location, lex);
      Stop(result, after, names)
    else if category == END_OF_LINE then
      match m.mode
      case NewLine => Stop(Token(ControlToken(lex.paragraph), location), LeftLine(m), lex)
      case MiddleLine => Stop(Token(SPACE_TOKEN, location), LeftLine(m), lex)
      case SkipSpaces => Go(LeftLine(m))
    else if category == IGNORED then Go(m)
    else if category == SPACE then
      if m.mode == MiddleLine then Stop(Token(SPACE_TOKEN, location), m.(mode := SkipSpaces), lex) else Go(m)
    else if category == ACTIVE then
      var (id, after) := Intern(lex, Symbol(Active, [c]));
      if id.None? then Stop(Error, m, after)
      else Stop(Token(ControlToken(id.value), location), m.(mode := MiddleLine), after)
    else if category == COMMENT then Go(LeftLine(m))
    else if category == INVALID then Stop(Forbidden(location), m, lex)
    else Stop(Token(CharacterToken(category, c), location), m.(mode := MiddleLine), lex)
  }

  /** Where a character stands: its line, and its place in it as far as 32 bits tell. */
  function LocationAt(m: MouthState, index: nat): Location {
    Location(m.lineNumber, if index + 1 > UINT32_MAX then UINT32_MAX else index + 1)
  }

  /** One turn of the tokenizer's loop: a line loaded, a line left or a character read. */
  function Turn(m: MouthState, lex: Lex): (step: Step)
    requires Sound(m)
    ensures Sound(step.m) && m.nextLine <= step.m.nextLine && step.m.length == m.length
    ensures step.Go? ==> Nearer(step.m, m)
  {
    if !m.loaded then
      if m.nextLine == m.length then Stop(EndOfFile, m, lex)
      else if m.lineNumber == UINT32_MAX then Stop(Error, m, lex)
      else Go(LoadLine(m, lex.endLine))
    else if m.cursor >= m.raw then Go(m.(loaded := false, line := []))
    else
      var (c, read) := ReadOver(m, lex.catcodes);
      Act(read, c, LocationAt(m, m.cursor), lex)
  }

  /** Less of the file is unread, or the line has been left, or less of the line is unread. */
  predicate Nearer(after: MouthState, m: MouthState) {
    && after.length == m.length
    && (|| after.nextLine > m.nextLine
        || (after.nextLine == m.nextLine && m.loaded && !after.loaded)
        || (after.nextLine == m.nextLine && m.loaded == after.loaded && m.cursor < m.raw && after.raw == m.raw && m.cursor < after.cursor))
  }

  /** hstex_mouth_next. It ends because every turn takes up a line of the file, leaves the line in
      hand or reads on in it. */
  function MouthNext(m: MouthState, lex: Lex): (r: (Result, MouthState, Lex))
    requires Sound(m)
    ensures Sound(r.1) && m.nextLine <= r.1.nextLine && r.1.length == m.length
    decreases m.length - m.nextLine, m.loaded, if m.cursor < m.raw then m.raw - m.cursor else 0
  {
    match Turn(m, lex)
    case Stop(result, after, names) => (result, after, names)
    case Go(after) => MouthNext(after, lex)
  }

  // ----- a name's terminator -----

  /** The character that ends a name, reduced where it stood and put back, is read again as itself and
      costs one byte of the line. */
  lemma TerminatorReadAgain(m: MouthState, cat: Catcodes)
    requires Readable(m)
    ensures var (c, read) := ReadRewriting(m, cat);
      var back := read.(cursor := m.cursor);
      Readable(back) && ReadOver(back, cat) == (c, back.(cursor := m.cursor + 1))
  {
    var current, rest := m.line[m.cursor], m.line[m.cursor + 1..];
    ReducedOnce(current, rest, cat);
    RewrittenLine(m, cat);
    hide Reduced, ReadRewriting;
  }

  lemma RewrittenLine(m: MouthState, cat: Catcodes)
    requires Readable(m)
    ensures var (c, read) := ReadRewriting(m, cat);
      && read.raw == |read.line| > m.cursor
      && (read.line[m.cursor], read.line[m.cursor + 1..]) == Reduced(m.line[m.cursor], m.line[m.cursor + 1..], cat)
      && c == read.line[m.cursor]
  {
    var current, rest := m.line[m.cursor], m.line[m.cursor + 1..];
    var (c, unread) := Reduced(current, rest, cat);
    if |unread| == |rest| { NothingReduced(current, rest, cat); }
    hide Reduced;
    assert (m.line[..m.cursor] + [c] + unread)[m.cursor + 1..] == unread;
  }

  // ----- names and blank lines -----

  /** A name of letters is all the letters there are: what was appended are letters, and what is unread
      behind it begins with none. */
  lemma {:induction false} NameIsAllLetters(m: MouthState, cat: Catcodes, name: seq<byte>)
    requires Sound(m) && m.loaded && m.cursor <= m.raw
    ensures var (all, after) := ScanName(m, cat, name);
      && name <= all && (forall i :: |name| <= i < |all| ==> cat[all[i]] == LETTER)
      && (after.cursor < after.raw ==> cat[ReadOver(after, cat).0] != LETTER)
    decreases m.raw - m.cursor
  {
    hide Reduced;
    if m.cursor < m.raw {
      var (c, read) := ReadRewriting(m, cat);
      if cat[c] == LETTER {
        NameIsAllLetters(read, cat, name + [c]);
      } else {
        TerminatorReadAgain(m, cat);
      }
    }
  }

  lemma OneTurn(m: MouthState, lex: Lex)
    requires Sound(m)
    ensures Turn(m, lex).Stop? ==> MouthNext(m, lex) == (Turn(m, lex).result, Turn(m, lex).m, Turn(m, lex).lex)
    ensures Turn(m, lex).Go? ==> MouthNext(m, lex) == MouthNext(Turn(m, lex).m, lex)
  {
    hide Turn;
  }

  /** A line of nothing but spaces is the paragraph token, at its first column, where the end-of-line
      character ends lines. */
  lemma BlankLineIsParagraph(m: MouthState, lex: Lex)
    requires Sound(m) && !m.loaded && m.nextLine < m.length && m.lineNumber < UINT32_MAX
    requires forall i :: m.nextLine <= i < LineEnd(m.data, m.nextLine, m.length) ==> m.data[i] == 32
    requires 0 <= lex.endLine <= 255 && lex.catcodes[lex.endLine] == END_OF_LINE
    ensures MouthNext(m, lex).0 == Token(ControlToken(lex.paragraph), Location(m.lineNumber + 1, 1))
  {
    hide MouthNext;
    var loaded := LoadLine(m, lex.endLine);
    BlankTrimmed(m.data, m.nextLine, LineEnd(m.data, m.nextLine, m.length));
    assert loaded.line == [lex.endLine as byte];
    OneTurn(m, lex);
    OneTurn(loaded, lex);
  }

  lemma {:induction false} BlankTrimmed(data: seq<byte>, start: nat, end: nat)
    requires start <= end <= |data| && forall i :: start <= i < end ==> data[i] == 32
    ensures Trimmed(data, start, end) == start
    decreases end
  {
    if start < end { BlankTrimmed(data, start, end - 1); }
  }

  // ----- no two spaces -----

  lemma TurnSpaces(m: MouthState, lex: Lex)
    requires Sound(m)
    ensures var step := Turn(m, lex);
      && (step.Stop? && step.result.Token? && step.result.token == SPACE_TOKEN ==> m.mode == MiddleLine && step.m.mode != MiddleLine)
      && (step.Go? || step.result.Forbidden? ==> step.m.mode == m.mode || step.m.mode == NewLine)
  {
    hide ScanName, Interned, Reduced, LineEnd, NextStart, Trimmed;
  }

  /** Whatever the catcodes are at each call, a space token is only given in the middle of a line and
      leaves the middle of the line, and nothing that is not a token enters it. */
  lemma {:induction false} SpaceAlone(m: MouthState, lex: Lex)
    requires Sound(m)
    ensures var (result, after, _) := MouthNext(m, lex);
      && (result.Token? && result.token == SPACE_TOKEN ==> m.mode == MiddleLine && after.mode != MiddleLine)
      && (result.Forbidden? && m.mode != MiddleLine ==> after.mode != MiddleLine)
    decreases m.length - m.nextLine, m.loaded, if m.cursor < m.raw then m.raw - m.cursor else 0
  {
    hide Turn;
    TurnSpaces(m, lex);
    if Turn(m, lex).Go? { SpaceAlone(Turn(m, lex).m, lex); }
  }

  /** The tokens of a run until the file ends or the engine stops on an error: `lexes` is what the
      tokenizer finds at each call, characters of category 15 passed over. */
  function Tokens(m: MouthState, lexes: seq<Lex>): seq<nat>
    requires Sound(m)
    decreases |lexes|
  {
    if lexes == [] then []
    else
      var (result, after, _) := MouthNext(m, lexes[0]);
      match result
      case Token(token, _) => [token] + Tokens(after, lexes[1..])
      case Forbidden(_) => Tokens(after, lexes[1..])
      case EndOfFile => []
      case Error => []
  }

  lemma {:induction false} NoTwoSpaces(m: MouthState, lexes: seq<Lex>)
    requires Sound(m)
    ensures var tokens := Tokens(m, lexes);
      && (tokens != [] && m.mode != MiddleLine ==> tokens[0] != SPACE_TOKEN)
      && forall i :: 0 <= i < |tokens| - 1 ==> !(tokens[i] == SPACE_TOKEN && tokens[i + 1] == SPACE_TOKEN)
    decreases |lexes|
  {
    hide MouthNext;
    if lexes != [] {
      SpaceAlone(m, lexes[0]);
      NoTwoSpaces(MouthNext(m, lexes[0]).1, lexes[1..]);
    }
  }

  // ----- lines -----

  datatype Span = Span(start: nat, next: nat)

  /** The lines of a file from some start on. */
  function Lines(data: seq<byte>, at: nat, length: nat): (lines: seq<Span>)
    requires at <= length <= |data|
    ensures lines == [] <==> at == length
    ensures lines != [] ==> lines[0].start == at
    decreases length - at
  {
    if at == length then []
    else
      var next := NextStart(data, LineEnd(data, at, length), length);
      [Span(at, next)] + Lines(data, next, length)
  }

  function Covered(data: seq<byte>, lines: seq<Span>): seq<byte> {
    if lines == [] then []
    else if lines[0].start <= lines[0].next <= |data| then data[lines[0].start..lines[0].next] + Covered(data, lines[1..])
    else []
  }

  /** The lines tile the file: together they are every byte of it, once, in order. */
  lemma {:induction false} LinesTile(data: seq<byte>, at: nat, length: nat)
    requires at <= length <= |data|
    ensures Covered(data, Lines(data, at, length)) == data[at..length]
    decreases length - at
  {
    if at < length {
      hide LineEnd, NextStart;
      var next := NextStart(data, LineEnd(data, at, length), length);
      LinesTile(data, next, length);
      assert data[at..length] == data[at..next] + data[next..length];
    }
  }

  /** The lines from the k-th on are those of the file from where it starts. */
  lemma {:induction false} LinesFrom(data: seq<byte>, at: nat, length: nat, k: nat)
    requires at <= length <= |data| && k < |Lines(data, at, length)|
    ensures var lines := Lines(data, at, length);
      && lines[k].start < length
      && lines[k..] == Lines(data, lines[k].start, length)
    decreases k
  {
    hide LineEnd, NextStart;
    if k > 0 {
      var next := NextStart(data, LineEnd(data, at, length), length);
      LinesFrom(data, next, length, k - 1);
    }
  }

  /** Where the tokenizer stands among the lines: it has taken as many as its line number says. */
  predicate AtLine(m: MouthState) {
    && Sound(m)
    && var lines := Lines(m.data, 0, m.length);
      && m.lineNumber <= |lines|
      && m.nextLine == (if m.lineNumber < |lines| then lines[m.lineNumber].start else m.length)
      && (m.lineNumber > 0 ==> lines[m.lineNumber - 1] == Span(m.lineStart, m.nextLine))
  }

  lemma LoadedNext(m: MouthState, endLine: int)
    requires AtLine(m) && m.nextLine < m.length && m.lineNumber < UINT32_MAX
    ensures AtLine(LoadLine(m, endLine))
  {
    hide LineEnd, NextStart, Trimmed;
    var lines := Lines(m.data, 0, m.length);
    var k := m.lineNumber;
    LinesFrom(m.data, 0, m.length, k);
    var next := NextStart(m.data, LineEnd(m.data, m.nextLine, m.length), m.length);
    assert lines[k..] == [Span(m.nextLine, next)] + Lines(m.data, next, m.length);
    assert lines[k] == lines[k..][0];
    if k + 1 < |lines| { assert lines[k + 1] == lines[k..][1]; } else { assert |lines[k..]| == 1; }
  }

  lemma ActSameLine(m: MouthState, c: byte, location: Location, lex: Lex)
    requires Sound(m) && m.loaded && m.cursor <= m.raw
    ensures SameLine(m, Act(m, c, location, lex).m)
    ensures Act(m, c, location, lex).Stop? ==> !Act(m, c, location, lex).result.EndOfFile?
  {
    hide ControlSequence, Interned;
    SequenceSameLine(m, location, lex);
  }

  lemma SequenceSameLine(m: MouthState, location: Location, lex: Lex)
    requires Sound(m) && m.loaded && m.cursor <= m.raw
    ensures SameLine(m, ControlSequence(m, location, lex).1) && !ControlSequence(m, location, lex).0.EndOfFile?
  {
    hide Interned, Reduced;
    if m.cursor < m.raw {
      var (c, first) := ReadRewriting(m, lex.catcodes);
      NameSameLine(first, lex.catcodes, [c]);
    }
  }

  predicate SameLine(m: MouthState, after: MouthState) {
    && after.data == m.data && after.length == m.length && after.nextLine == m.nextLine
    && after.lineStart == m.lineStart && after.lineNumber == m.lineNumber
  }

  lemma {:induction false} NameSameLine(m: MouthState, cat: Catcodes, name: seq<byte>)
    requires Sound(m) && m.loaded && m.cursor <= m.raw
    ensures SameLine(m, ScanName(m, cat, name).1)
    decreases m.raw - m.cursor
  {
    hide Reduced;
    if m.cursor < m.raw {
      var (c, read) := ReadRewriting(m, cat);
      if cat[c] == LETTER { NameSameLine(read, cat, name + [c]); }
    }
  }

  lemma TurnLines(m: MouthState, lex: Lex)
    requires Sound(m) && AtLine(m)
    ensures var step := Turn(m, lex);
      && AtLine(step.m) && step.m.data == m.data
      && (step.Stop? && step.result.EndOfFile? ==> step.m.lineNumber == |Lines(m.data, 0, m.length)|)
  {
    hide Reduced, Act, AtLine, LineEnd, NextStart, Trimmed;
    if !m.loaded {
      if m.nextLine == m.length {
        AllTaken(m);
      } else if m.lineNumber < UINT32_MAX {
        LoadedNext(m, lex.endLine);
      }
    } else if m.cursor >= m.raw {
      StillAtLine(m, m.(loaded := false, line := []));
    } else {
      var (c, read) := ReadOver(m, lex.catcodes);
      ActSameLine(read, c, LocationAt(m, m.cursor), lex);
      StillAtLine(m, Act(read, c, LocationAt(m, m.cursor), lex).m);
    }
  }

  /** Every call leaves the tokenizer among the same lines, and the file ends where they do. */
  lemma {:induction false} LinesTaken(m: MouthState, lex: Lex)
    requires Sound(m) && AtLine(m)
    ensures var (result, after, _) := MouthNext(m, lex);
      && AtLine(after) && after.data == m.data
      && (result.EndOfFile? ==> after.lineNumber == |Lines(m.data, 0, m.length)|)
    decreases m.length - m.nextLine, m.loaded, if m.cursor < m.raw then m.raw - m.cursor else 0
  {
    hide Turn, AtLine;
    TurnLines(m, lex);
    if Turn(m, lex).Go? { LinesTaken(Turn(m, lex).m, lex); }
  }

  lemma StillAtLine(m: MouthState, after: MouthState)
    requires AtLine(m) && SameLine(m, after) && Sound(after)
    ensures AtLine(after)
  {
    hide Lines;
  }

  lemma AllTaken(m: MouthState)
    requires AtLine(m) && m.nextLine == m.length
    ensures m.lineNumber == |Lines(m.data, 0, m.length)|
  {
    hide LineEnd, NextStart;
    if m.lineNumber < |Lines(m.data, 0, m.length)| {
      LinesFrom(m.data, 0, m.length, m.lineNumber);
    }
  }

  lemma TurnKeeps(m: MouthState, lex: Lex)
    requires Sound(m)
    ensures Turn(m, lex).m.data == m.data
  {
    hide Reduced, Act, LineEnd, NextStart, Trimmed;
    if m.loaded && m.cursor < m.raw {
      var (c, read) := ReadOver(m, lex.catcodes);
      ActSameLine(read, c, LocationAt(m, m.cursor), lex);
    }
  }

  /** Reading changes nothing of the file. */
  lemma {:induction false} MouthKeeps(m: MouthState, lex: Lex)
    requires Sound(m)
    ensures MouthNext(m, lex).1.data == m.data
    decreases m.length - m.nextLine, m.loaded, if m.cursor < m.raw then m.raw - m.cursor else 0
  {
    hide Turn;
    TurnKeeps(m, lex);
    if Turn(m, lex).Go? { MouthKeeps(Turn(m, lex).m, lex); }
  }

  // ----- the position taken out and put back -----

  datatype Position = Position(
    nextLine: nat, lineStart: nat, content: nat, cursor: nat, raw: nat,
    lineNumber: u32, endByte: byte, mode: Mode, loaded: bool, hasEnd: bool)

  /** hstex_mouth_position; the line goes with it where one is loaded. */
  function PositionOf(m: MouthState): Position {
    Position(m.nextLine, m.lineStart, m.content, m.cursor, m.raw, m.lineNumber, m.endByte, m.mode, m.loaded, m.hasEnd)
  }

  /** hstex_mouth_restore over the file as it is reopened. */
  function Restored(data: seq<byte>, at: Position, line: seq<byte>): MouthState {
    MouthState(data, |data|, at.nextLine, at.lineStart, if at.loaded then line else [], at.raw, at.content, at.cursor,
               at.lineNumber, at.endByte, at.hasEnd, at.loaded, at.mode)
  }

  /** The position carries everything but a length the file was cut to. */
  lemma PositionRestores(m: MouthState)
    requires Sound(m)
    ensures Restored(m.data, PositionOf(m), m.line) == m.(length := |m.data|)
    ensures Restored(m.data, PositionOf(m), m.line) == m <==> m.length == |m.data|
  {}
}
