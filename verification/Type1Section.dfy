/** Private sections in the form the disassembler prints, and what the assembler makes of them. */
module Type1Section {
  import opened Bytes
  import opened Type1Numbers
  import opened Type1Charstring
  import opened Type1Private
  import Cipher = Type1Cipher

  /** The header of an entry: `dup` and a number, or a glyph's name, and the blanks it was written with. */
  datatype Header =
    | SubrHeader(lead: seq<byte>, gap: seq<byte>, number: seq<byte>)
    | GlyphHeader(lead: seq<byte>, name: seq<byte>)

  datatype Line = Plain(text: seq<byte>) | Entry(header: Header, items: seq<Element>, tail: seq<byte>)

  function HeaderText(h: Header): seq<byte> {
    match h
    case SubrHeader(lead, gap, number) => lead + DUP + gap + number
    case GlyphHeader(lead, name) => lead + [SLASH] + name
  }

  predicate GlyphNameByte(b: byte) { NameByte(b) && b != LF }

  predicate HeaderOK(h: Header) {
    && All(h.lead, Horizontal)
    && match h
       case SubrHeader(_, gap, number) => gap != [] && All(gap, Horizontal) && number != [] && All(number, Digit)
       case GlyphHeader(_, name) => name != [] && All(name, GlyphNameByte)
  }

  predicate OneLine(s: seq<byte>) { forall i :: 0 <= i < |s| ==> s[i] != LF && s[i] != CR }

  /** What may stand behind an entry's terminator. */
  predicate TailOK(tail: seq<byte>) {
    OneLine(tail) && (tail == [] || Horizontal(tail[0]) || tail[0] == PERCENT)
  }

  /** A line the disassembler prints and the assembler takes for what it is. */
  predicate LineOK(line: Line, subroutines: bool) {
    match line
    case Plain(text) => OneLine(text) && EntryBrace(text, subroutines).None?
    case Entry(h, _, tail) =>
      && HeaderOK(h) && h.SubrHeader? == subroutines
      && TailOK(tail)
  }

  /** Whether the closing brace of an entry is printed on a line of its own. */
  predicate Closed(line: Line) { line.Entry? ==> AtLineStart(line.items) }

  function ClosingText(subroutines: bool, tail: seq<byte>): seq<byte> {
    [SPACE] + Terminator(subroutines) + tail + [LF]
  }

  /** The closing line of an entry, as printed. */
  function EntryEnd(subroutines: bool, tail: seq<byte>): seq<byte> {
    SHUT + ClosingText(subroutines, tail)
  }

  function PrintedLine(line: Line, subroutines: bool): seq<byte> {
    match line
    case Plain(text) => text + [LF]
    case Entry(h, items, tail) =>
      HeaderText(h) + OPEN + Printed(items, true) + EntryEnd(subroutines, tail)
  }

  /** The bytes an entry's charstring is stored as. */
  function Stored(items: seq<Element>, lenIV: int): seq<byte>
    requires lenIV >= -1
  {
    CharstringRoundTrip(items, lenIV);
    Enciphered(Printed(items, true), lenIV).value
  }

  function StoredLine(line: Line, subroutines: bool, lenIV: int): seq<byte>
    requires lenIV >= -1
  {
    match line
    case Plain(text) => text + [LF]
    case Entry(h, items, tail) =>
      HeaderText(h) + [SPACE] + Digits(|Stored(items, lenIV)|) + READ + Stored(items, lenIV)
      + ClosingText(subroutines, tail)
  }

  // ----- one line of text at a time -----

  lemma {:induction false} LineAfterOf(w: seq<byte>, rest: seq<byte>)
    requires forall i :: 0 <= i < |w| ==> w[i] != LF
    ensures LineAfter(w + [LF] + rest) == |w| + 1
  {
    var s := w + [LF] + rest;
    if w != [] {
      assert s[1..] == w[1..] + [LF] + rest;
      LineAfterOf(w[1..], rest);
    }
  }

  lemma LineContentOf(w: seq<byte>, rest: seq<byte>)
    requires OneLine(w)
    ensures LineAfter(w + [LF] + rest) == |w| + 1 && LineContent(w + [LF] + rest) == |w|
    ensures (w + [LF] + rest)[..|w|] == w && (w + [LF] + rest)[|w| + 1..] == rest
  {
    LineAfterOf(w, rest);
    hide LineAfter;
    var s := w + [LF] + rest;
    assert s[|w|] == LF;
    assert w != [] ==> s[|w| - 1] == w[|w| - 1];
  }

  lemma PlainTransforms(text: seq<byte>, subroutines: bool, lenIV: int, rest: seq<byte>)
    requires OneLine(text) && EntryBrace(text, subroutines).None?
    ensures Transformed(text + [LF] + rest, subroutines, lenIV)
         == Prefixed(text + [LF], Transformed(rest, subroutines, lenIV))
  {
    LineContentOf(text, rest);
    hide LineAfter, LineContent, EntryBrace;
    assert (text + [LF] + rest)[..|text| + 1] == text + [LF];
  }

  // ----- recognising a header -----

  lemma BraceBehind(line: seq<byte>, at: nat)
    requires at + 2 == |line| && line[at] == SPACE && line[at + 1] == BRACE
    ensures BraceAt(line, at) == Some(at + 1)
  {
    assert line[at..] == [SPACE] + [BRACE];
    SpanOf([SPACE], [BRACE], Horizontal);
    assert line[at + 2..] == [];
  }

  lemma SubrParts(h: Header, behind: seq<byte>)
    requires h.SubrHeader?
    ensures var line := HeaderText(h) + behind;
      && line == h.lead + (DUP + (h.gap + (h.number + behind)))
      && line[|h.lead|..] == DUP + (h.gap + (h.number + behind))
      && line[|h.lead| + 3..] == h.gap + (h.number + behind)
      && line[|h.lead| + 3 + |h.gap|..] == h.number + behind
      && line[|HeaderText(h)|..] == behind
      && |HeaderText(h)| == |h.lead| + 3 + |h.gap| + |h.number|
  {}

  predicate DupAt(line: seq<byte>, lead: nat) { lead + 3 <= |line| && line[lead..lead + 3] == DUP }

  lemma SubrBraceSteps(line: seq<byte>, lead: nat, gap: nat, number: nat)
    requires Span(line, Horizontal) == lead && lead + 3 <= |line| && DupAt(line, lead)
    requires Span(line[lead + 3..], Horizontal) == gap > 0
    requires Span(line[lead + 3 + gap..], Digit) == number > 0
    ensures SubrBrace(line) == BraceAt(line, lead + 3 + gap + number)
  {
    hide Span, BraceAt, All, BehindDup, SubrBrace, Horizontal, Digit, DupAt;
    BehindDupSteps(line, lead + 3, gap, number);
    DupSteps(line, lead);
  }

  lemma DupSteps(line: seq<byte>, lead: nat)
    requires Span(line, Horizontal) == lead && lead + 3 <= |line| && DupAt(line, lead)
    ensures SubrBrace(line) == BehindDup(line, lead + 3)
  {
    hide Span, All, BehindDup;
  }

  lemma BehindDupSteps(line: seq<byte>, at: nat, gap: nat, number: nat)
    requires at <= |line| && Span(line[at..], Horizontal) == gap > 0
    requires Span(line[at + gap..], Digit) == number > 0
    ensures BehindDup(line, at) == BraceAt(line, at + gap + number)
  {
    hide Span, BraceAt, All;
  }

  lemma SubrSpans(h: Header, line: seq<byte>)
    requires h.SubrHeader? && HeaderOK(h) && line == HeaderText(h) + [SPACE, BRACE]
    ensures Span(line, Horizontal) == |h.lead|
    ensures |h.lead| + 3 <= |line| && line[|h.lead|..|h.lead| + 3] == DUP
    ensures Span(line[|h.lead| + 3..], Horizontal) == |h.gap|
    ensures Span(line[|h.lead| + 3 + |h.gap|..], Digit) == |h.number|
    ensures |HeaderText(h)| == |h.lead| + 3 + |h.gap| + |h.number|
  {
    hide Span, HeaderText;
    var behind := h.number + [SPACE, BRACE];
    SubrParts(h, [SPACE, BRACE]);
    assert line[|h.lead|..|h.lead| + 3] == line[|h.lead|..][..3];
    assert Digit(h.number[0]);
    SpanOf(h.lead, DUP + (h.gap + behind), Horizontal);
    SpanOf(h.gap, behind, Horizontal);
    SpanOf(h.number, [SPACE, BRACE], Digit);
  }

  /** The assembler sees the brace of every printed header. */
  lemma SubrBraceFound(h: Header)
    requires h.SubrHeader? && HeaderOK(h)
    ensures SubrBrace(HeaderText(h) + [SPACE, BRACE]) == Some(|HeaderText(h)| + 1)
  {
    hide Span, BraceAt, SubrBrace, HeaderText;
    var line := HeaderText(h) + [SPACE, BRACE];
    BraceBehind(line, |HeaderText(h)|);
    SubrSpans(h, line);
    SubrBraceSteps(line, |h.lead|, |h.gap|, |h.number|);
  }

  lemma GlyphSpans(h: Header, line: seq<byte>)
    requires h.GlyphHeader? && HeaderOK(h) && line == HeaderText(h) + [SPACE, BRACE]
    ensures Span(line, Horizontal) == |h.lead| < |line| && line[|h.lead|] == SLASH
    ensures Span(line[|h.lead| + 1..], NameByte) == |h.name| > 0
    ensures |HeaderText(h)| == |h.lead| + 1 + |h.name|
  {
    hide Span;
    GlyphParts(h, line);
    SpanOf(h.lead, [SLASH] + h.name + [SPACE, BRACE], Horizontal);
    NameSpan(h.name);
  }

  lemma GlyphParts(h: Header, line: seq<byte>)
    requires h.GlyphHeader? && line == HeaderText(h) + [SPACE, BRACE]
    ensures line == h.lead + ([SLASH] + h.name + [SPACE, BRACE])
    ensures |HeaderText(h)| == |h.lead| + 1 + |h.name| < |line| && line[|h.lead|] == SLASH
    ensures line[|h.lead| + 1..] == h.name + [SPACE, BRACE]
  {}

  lemma NameSpan(name: seq<byte>)
    requires All(name, GlyphNameByte)
    ensures Span(name + [SPACE, BRACE], NameByte) == |name|
  {
    assert forall i :: 0 <= i < |name| ==> GlyphNameByte(name[i]);
    SpanOf(name, [SPACE, BRACE], NameByte);
  }

  lemma GlyphBraceFound(h: Header)
    requires h.GlyphHeader? && HeaderOK(h)
    ensures GlyphBrace(HeaderText(h) + [SPACE, BRACE]) == Some(|HeaderText(h)| + 1)
  {
    hide Span, BraceAt, HeaderText, HeaderOK, All;
    var line := HeaderText(h) + [SPACE, BRACE];
    BraceBehind(line, |HeaderText(h)|);
    GlyphSpans(h, line);
  }

  lemma HeaderIsOneLine(h: Header)
    requires HeaderOK(h)
    ensures forall i :: 0 <= i < |HeaderText(h)| ==> HeaderText(h)[i] != LF
  {
    var text := HeaderText(h);
    assert forall i :: 0 <= i < |h.lead| ==> Horizontal(h.lead[i]);
    match h
    case SubrHeader(lead, gap, number) =>
      assert forall i :: 0 <= i < |gap| ==> Horizontal(gap[i]);
      assert forall i :: 0 <= i < |number| ==> Digit(number[i]);
      assert forall i :: 0 <= i < 3 ==> DUP[i] != LF;
    case GlyphHeader(lead, name) =>
      assert forall i :: 0 <= i < |name| ==> GlyphNameByte(name[i]);
  }

  // ----- finding the end of an entry -----

  /** The index of the first operator. */
  function FirstCommand(items: seq<Element>): (k: nat)
    ensures k <= |items|
    ensures forall i :: 0 <= i < k ==> items[i].Number?
    ensures k < |items| ==> items[k].Command?
  {
    if items == [] || items[0].Command? then 0 else 1 + FirstCommand(items[1..])
  }

  /** The first printed line of a charstring, without its newline. */
  function FirstLineText(items: seq<Element>): seq<byte>
    requires FirstCommand(items) < |items|
  {
    var k := FirstCommand(items);
    Printed(items[..k], true) + [if k == 0 then TAB else SPACE] + Word(items[k])
  }

  lemma {:induction false} NumbersOneLine(items: seq<Element>, lineStart: bool)
    requires forall i :: 0 <= i < |items| ==> items[i].Number?
    ensures forall i :: 0 <= i < |Printed(items, lineStart)| ==> Printed(items, lineStart)[i] != LF
  {
    if items != [] {
      WordHasNoStop(items[0]);
      NumbersOneLine(items[1..], false);
      hide Word;
    }
  }

  /** Numbers and the operator behind them stand on one line, which a newline ends. */
  lemma FirstLine(items: seq<Element>)
    requires FirstCommand(items) < |items|
    ensures var k := FirstCommand(items);
      Printed(items, true) == FirstLineText(items) + [LF] + Printed(items[k + 1..], true)
  {
    hide Word, Printed, FirstLineText, PrintedOne, FirstCommand;
    var end := FirstCommand(items) + 1;
    PrintedAfter(items, end);
    FirstLineTextEnds(items);
    assert Printed(items[..end], true) == FirstLineText(items) + [LF];
  }

  lemma PrintedAfter(items: seq<Element>, end: nat)
    requires 0 < end <= |items| && items[end - 1].Command?
    ensures Printed(items, true) == Printed(items[..end], true) + Printed(items[end..], true)
  {
    hide Printed;
    PrintedSplit(items, end, true);
  }

  lemma CommandLine(numbers: seq<Element>, command: Element)
    requires forall i :: 0 <= i < |numbers| ==> numbers[i].Number?
    requires command.Command?
    ensures Printed(numbers + [command], true)
         == Printed(numbers, true) + [if numbers == [] then TAB else SPACE] + Word(command) + [LF]
  {
    hide Word, Printed;
    PrintedAppend(numbers, command, true);
    var sep := [if numbers == [] then TAB else SPACE];
    assert PrintedOne(command, numbers == []) == sep + Word(command) + [LF];
    hide PrintedOne;
    Assoc(Printed(numbers, true), sep + Word(command), [LF]);
    Assoc(Printed(numbers, true), sep, Word(command));
  }

  lemma FirstLineTextEnds(items: seq<Element>)
    requires FirstCommand(items) < |items|
    ensures Printed(items[..FirstCommand(items) + 1], true) == FirstLineText(items) + [LF]
  {
    hide Word, Printed, FirstCommand;
    var k := FirstCommand(items);
    TakeOneMore(items, k);
    CommandLine(items[..k], items[k]);
  }

  lemma FirstLineIsOne(items: seq<Element>)
    requires FirstCommand(items) < |items|
    ensures forall i :: 0 <= i < |FirstLineText(items)| ==> FirstLineText(items)[i] != LF
  {
    var k := FirstCommand(items);
    hide Word, Printed;
    NumbersOneLine(items[..k], true);
    WordHasNoStop(items[k]);
    assert forall i :: 0 <= i < |Word(items[k])| ==> Word(items[k])[i] != LF;
  }

  lemma {:induction false} PrintedSplit(items: seq<Element>, k: nat, lineStart: bool)
    requires 0 < k <= |items|
    ensures Printed(items, lineStart) == Printed(items[..k], lineStart) + Printed(items[k..], items[k - 1].Command?)
  {
    hide PrintedOne;
    if k == 1 {
      assert items[..1] == [items[0]] && items[..1][1..] == [];
    } else {
      PrintedSplit(items[1..], k - 1, items[0].Command?);
      assert items[..k][1..] == items[1..][..k - 1];
      assert items[1..][k - 1..] == items[k..];
    }
  }

  /** A printed charstring begins with a tab and then neither a blank nor a brace. */
  lemma PrintedBegins(items: seq<Element>, rest: seq<byte>)
    requires items != []
    ensures |Printed(items, true)| >= 2
    ensures Printed(items, true)[0] == TAB
    ensures !Horizontal(Printed(items, true)[1]) && Printed(items, true)[1] != CLOSING
  {
    WordBegins(items[0]);
    hide Word;
  }

  lemma WordBegins(e: Element)
    ensures Word(e) != [] && !Horizontal(Word(e)[0]) && Word(e)[0] < 123
  {
    WordHasNoStop(e);
    match e
    case Number(v) => DecimalBegins(v);
    case Command(op) =>
      SpellingPlain(op);
      hide Spelling;
      assert Name(op)[0] == Spelling(op)[0] as int;
  }

  lemma DecimalBegins(v: i32)
    ensures Decimal(v) != [] && Decimal(v)[0] < 123
  {
    var digits := Digits(if v < 0 then -(v as int) else v);
    hide Digits;
    assert Digit(digits[0]);
  }

  /** The content of a line keeps its first two bytes, where the second is no blank. */
  lemma ContentKeepsTwo(w: seq<byte>, rest: seq<byte>)
    requires |w| >= 2 && !Horizontal(w[1])
    requires forall i :: 0 <= i < |w| ==> w[i] != LF
    ensures LineAfter(w + [LF] + rest) == |w| + 1
    ensures 2 <= LineContent(w + [LF] + rest) <= |w|
  {
    LineAfterOf(w, rest);
    hide LineAfter;
    var s := w + [LF] + rest;
    assert s[|w|] == LF && s[|w| - 1] == w[|w| - 1];
  }

  /** A line that begins with a tab and then neither a blank nor a brace. */
  predicate TabLine(w: seq<byte>) {
    && |w| >= 2 && w[0] == TAB && !Horizontal(w[1]) && w[1] != CLOSING
    && forall i :: 0 <= i < |w| ==> w[i] != LF
  }

  lemma TabLineDoesNotClose(w: seq<byte>, rest: seq<byte>, terminator: seq<byte>)
    requires TabLine(w) && |terminator| == 2
    ensures ClosingLine(w + [LF] + rest, terminator).None?
    ensures LineAfter(w + [LF] + rest) == |w| + 1
  {
    var s := w + [LF] + rest;
    ContentKeepsTwo(w, rest);
    hide LineContent, LineAfter, Span, TabLine;
    TabThenWord(w, s[..LineContent(s)]);
  }

  lemma TabThenWord(w: seq<byte>, content: seq<byte>)
    requires TabLine(w) && 2 <= |content| <= |w| && content == w[..|content|]
    ensures Span(content, Horizontal) == 1 && content[1] != CLOSING
  {
    hide Span;
    assert content == [TAB] + content[1..] && content[1] == w[1];
    SpanOf([TAB], content[1..], Horizontal);
  }

  lemma NotClosing(w: seq<byte>, rest: seq<byte>, terminator: seq<byte>)
    requires TabLine(w) && |terminator| == 2
    ensures EntryFinish(w + [LF] + rest, terminator) == Shifted(EntryFinish(rest, terminator), |w| + 1)
  {
    hide EntryFinish, LineAfter, ClosingLine, TabLine;
    TabLineDoesNotClose(w, rest, terminator);
    FinishBehind(w + [LF] + rest, terminator);
    assert (w + [LF] + rest)[|w| + 1..] == rest;
  }

  lemma {:induction false} FinishBehind(s: seq<byte>, terminator: seq<byte>)
    requires s != [] && |terminator| == 2 && ClosingLine(s, terminator).None?
    ensures EntryFinish(s, terminator) == Shifted(EntryFinish(s[LineAfter(s)..], terminator), LineAfter(s))
  {
    hide ClosingLine, LineAfter;
  }

  lemma ClosesHere(subroutines: bool, tail: seq<byte>, rest: seq<byte>)
    requires TailOK(tail)
    ensures ClosingLine(EntryEnd(subroutines, tail) + rest, Terminator(subroutines))
         == Some(Closing(1, 5, |EntryEnd(subroutines, tail)|))
  {
    var content := SHUT + [SPACE] + Terminator(subroutines) + tail;
    var t := Terminator(subroutines);
    EntryEndIs(subroutines, tail);
    TerminatorBytes(subroutines);
    EndOneLine(t, tail);
    EndTail(t, tail);
    assert content == SHUT + [SPACE] + (t + tail);
    EndSpans(content, t + tail);
    TailBehind(tail);
    hide LineContent, LineAfter, EntryEnd, Span, Horizontal, Terminator, TailOK, OneLine;
    LineContentOf(content, rest);
    ClosingContent(content, rest, t, tail);
  }

  lemma EntryEndIs(subroutines: bool, tail: seq<byte>)
    ensures EntryEnd(subroutines, tail) == SHUT + [SPACE] + Terminator(subroutines) + tail + [LF]
  {
    hide Terminator;
  }

  lemma TailBehind(tail: seq<byte>)
    requires TailOK(tail)
    ensures tail == [] || Horizontal(tail[0]) || tail[0] == PERCENT
  {}

  /** A line of the form of an entry's end is taken for one. */
  lemma ClosingContent(content: seq<byte>, rest: seq<byte>, t: seq<byte>, tail: seq<byte>)
    requires |t| == 2 && |content| >= 5 && content[1] == CLOSING && content[3..5] == t && content[5..] == tail
    requires Span(content, Horizontal) == 1 && Span(content[2..], Horizontal) == 1
    requires tail == [] || Horizontal(tail[0]) || tail[0] == PERCENT
    requires LineContent(content + [LF] + rest) == |content| && LineAfter(content + [LF] + rest) == |content| + 1
    ensures ClosingLine(content + [LF] + rest, t) == Some(Closing(1, 5, |content| + 1))
  {
    hide LineContent, LineAfter, Span, Horizontal;
    assert (content + [LF] + rest)[..|content|] == content;
    assert |content| > 5 ==> content[5] == tail[0];
  }

  lemma TerminatorBytes(subroutines: bool)
    ensures !Horizontal(Terminator(subroutines)[0]) && OneLine(Terminator(subroutines))
  {}

  lemma EndOneLine(t: seq<byte>, tail: seq<byte>)
    requires OneLine(t) && OneLine(tail)
    ensures OneLine(SHUT + [SPACE] + t + tail)
  {}

  lemma EndTail(t: seq<byte>, tail: seq<byte>)
    requires |t| == 2
    ensures var content := SHUT + [SPACE] + t + tail;
      content[1] == CLOSING && content[3..5] == t && content[5..] == tail
  {}

  lemma EndSpans(content: seq<byte>, behind: seq<byte>)
    requires behind != [] && !Horizontal(behind[0]) && content == SHUT + [SPACE] + behind
    ensures Span(content, Horizontal) == 1 && Span(content[2..], Horizontal) == 1
  {
    assert content == [TAB] + ([CLOSING] + [SPACE] + behind);
    SpanOf([TAB], [CLOSING] + [SPACE] + behind, Horizontal);
    assert content[2..] == [SPACE] + behind;
    SpanOf([SPACE], behind, Horizontal);
  }

  /** Where the end of a printed entry is found: on its own closing line, unless its charstring ends
      with a number; then the closing brace stands behind that number and the line is passed over. */
  function PrintedFinish(items: seq<Element>, subroutines: bool, tail: seq<byte>, rest: seq<byte>): Option<Closing> {
    var p := |Printed(items, true)|;
    var end := p + |EntryEnd(subroutines, tail)|;
    if AtLineStart(items) then Some(Closing(p + 1, p + 5, end))
    else Shifted(EntryFinish(rest, Terminator(subroutines)), end)
  }

  lemma LastElement(items: seq<Element>, k: nat)
    requires k < |items| && items[k].Command?
    ensures AtLineStart(items) == AtLineStart(items[k + 1..])
  {
    assert items[k + 1..] != [] ==> items[k + 1..][|items| - k - 2] == items[|items| - 1];
  }

  lemma FinishShifts(items: seq<Element>, later: seq<Element>, subroutines: bool, tail: seq<byte>, rest: seq<byte>, n: nat)
    requires |Printed(items, true)| == n + |Printed(later, true)|
    requires AtLineStart(items) == AtLineStart(later)
    ensures PrintedFinish(items, subroutines, tail, rest) == Shifted(PrintedFinish(later, subroutines, tail, rest), n)
  {
    hide Printed, EntryEnd, EntryFinish, AtLineStart;
  }

  lemma FinishHere(s: seq<byte>, terminator: seq<byte>)
    requires |terminator| == 2 && s != [] && ClosingLine(s, terminator).Some?
    ensures EntryFinish(s, terminator) == ClosingLine(s, terminator)
  {
    hide ClosingLine;
  }

  lemma ClosesAtOnce(subroutines: bool, tail: seq<byte>, rest: seq<byte>)
    requires TailOK(tail)
    ensures EntryFinish(Printed([], true) + (EntryEnd(subroutines, tail) + rest), Terminator(subroutines))
         == PrintedFinish([], subroutines, tail, rest)
  {
    hide ClosingLine, EntryEnd, Terminator, TailOK, EntryFinish;
    ClosesHere(subroutines, tail, rest);
    FinishHere(EntryEnd(subroutines, tail) + rest, Terminator(subroutines));
    assert Printed([], true) + (EntryEnd(subroutines, tail) + rest) == EntryEnd(subroutines, tail) + rest;
  }

  lemma {:induction false} EntryFinishOfPrinted(items: seq<Element>, subroutines: bool, tail: seq<byte>, rest: seq<byte>)
    requires TailOK(tail)
    ensures EntryFinish(Printed(items, true) + (EntryEnd(subroutines, tail) + rest), Terminator(subroutines))
         == PrintedFinish(items, subroutines, tail, rest)
    decreases |items|
  {
    hide EntryFinish, EntryEnd, Printed, PrintedFinish, Terminator, TailOK;
    var k := FirstCommand(items);
    if items == [] {
      ClosesAtOnce(subroutines, tail, rest);
    } else if k < |items| {
      EntryFinishOfPrinted(items[k + 1..], subroutines, tail, rest);
      FirstLineFinish(items, subroutines, tail, rest);
    } else {
      LastNumbersEntry(items, subroutines, tail, rest);
    }
  }

  lemma FirstLineFinish(items: seq<Element>, subroutines: bool, tail: seq<byte>, rest: seq<byte>)
    requires FirstCommand(items) < |items|
    requires var later := items[FirstCommand(items) + 1..];
      EntryFinish(Printed(later, true) + (EntryEnd(subroutines, tail) + rest), Terminator(subroutines))
      == PrintedFinish(later, subroutines, tail, rest)
    ensures EntryFinish(Printed(items, true) + (EntryEnd(subroutines, tail) + rest), Terminator(subroutines))
         == PrintedFinish(items, subroutines, tail, rest)
  {
    hide EntryFinish, EntryEnd, Printed, PrintedFinish, Terminator, FirstLineText, Shifted;
    var later := items[FirstCommand(items) + 1..];
    FirstLineLength(items);
    FinishShifts(items, later, subroutines, tail, rest, |FirstLineText(items)| + 1);
    FirstLineEntry(items, EntryEnd(subroutines, tail) + rest, Terminator(subroutines));
  }

  lemma FirstLineLength(items: seq<Element>)
    requires FirstCommand(items) < |items|
    ensures var later := items[FirstCommand(items) + 1..];
      && |Printed(items, true)| == |FirstLineText(items)| + 1 + |Printed(later, true)|
      && AtLineStart(items) == AtLineStart(later)
  {
    hide Printed, FirstLineText;
    FirstLine(items);
    LastElement(items, FirstCommand(items));
  }

  lemma FirstLineEntry(items: seq<Element>, rest: seq<byte>, terminator: seq<byte>)
    requires FirstCommand(items) < |items| && |terminator| == 2
    ensures var k := FirstCommand(items);
      EntryFinish(Printed(items, true) + rest, terminator)
      == Shifted(EntryFinish(Printed(items[k + 1..], true) + rest, terminator), |FirstLineText(items)| + 1)
  {
    hide ClosingLine, LineAfter, Word, EntryFinish, PrintedOne;
    var k := FirstCommand(items);
    var w := FirstLineText(items);
    PrintedBegins(items, []);
    FirstLine(items);
    FirstLineIsOne(items);
    FirstLineLong(items);
    assert TabLine(w);
    NotClosing(w, Printed(items[k + 1..], true) + rest, terminator);
    assert Printed(items, true) + rest == w + [LF] + (Printed(items[k + 1..], true) + rest);
  }

  lemma FirstLineLong(items: seq<Element>)
    requires FirstCommand(items) < |items|
    ensures var w := FirstLineText(items); |w| >= 2 && w[0] == Printed(items, true)[0] && w[1] == Printed(items, true)[1]
  {
    hide Word;
    var k := FirstCommand(items);
    FirstLine(items);
    if k == 0 {
      WordHasNoStop(items[0]);
    } else {
      PrintedBegins(items[..k], []);
    }
  }

  lemma EntryEndIsOne(subroutines: bool, tail: seq<byte>)
    requires OneLine(tail)
    ensures var last := SHUT + [SPACE] + Terminator(subroutines) + tail;
      EntryEnd(subroutines, tail) == last + [LF] && forall i :: 0 <= i < |last| ==> last[i] != LF
  {}

  lemma LastNumbersLine(items: seq<Element>, last: seq<byte>)
    requires items != [] && !(FirstCommand(items) < |items|)
    requires forall i :: 0 <= i < |last| ==> last[i] != LF
    ensures TabLine(Printed(items, true) + last) && !AtLineStart(items)
  {
    hide Printed;
    assert items[|items| - 1].Number?;
    NumbersOneLine(items, true);
    PrintedBegins(items, []);
  }

  lemma LastNumbersEntry(items: seq<Element>, subroutines: bool, tail: seq<byte>, rest: seq<byte>)
    requires items != [] && !(FirstCommand(items) < |items|) && TailOK(tail)
    ensures EntryFinish(Printed(items, true) + (EntryEnd(subroutines, tail) + rest), Terminator(subroutines))
         == PrintedFinish(items, subroutines, tail, rest)
  {
    hide ClosingLine, LineAfter, Word, EntryFinish, Printed, TabLine, AtLineStart, EntryEnd, Terminator, Shifted;
    var last := SHUT + [SPACE] + Terminator(subroutines) + tail;
    EntryEndIsOne(subroutines, tail);
    LastNumbersLine(items, last);
    LineThenRest(Printed(items, true), last, rest, Terminator(subroutines));
  }

  lemma LineThenRest(a: seq<byte>, last: seq<byte>, rest: seq<byte>, terminator: seq<byte>)
    requires TabLine(a + last) && |terminator| == 2
    ensures EntryFinish(a + (last + [LF] + rest), terminator)
         == Shifted(EntryFinish(rest, terminator), |a| + |last + [LF]|)
  {
    hide TabLine, EntryFinish, Shifted;
    NotClosing(a + last, rest, terminator);
    assert a + (last + [LF] + rest) == a + last + [LF] + rest;
  }

  // ----- one entry assembled -----

  lemma HeaderLine(h: Header, rest: seq<byte>)
    requires HeaderOK(h)
    ensures var text := HeaderText(h) + OPEN + rest;
      && LineContent(text) == |HeaderText(h)| + 2
      && text[..LineContent(text)] == HeaderText(h) + [SPACE, BRACE]
      && text[|HeaderText(h)| + 2..] == [LF] + rest
  {
    HeaderIsOneLine(h);
    hide HeaderText, LineAfter;
    var w := HeaderText(h) + [SPACE, BRACE];
    var text := HeaderText(h) + OPEN + rest;
    assert text == w + [LF] + rest;
    LineAfterOf(w, rest);
    assert text[|w| - 1] == BRACE && text[|w|] == LF;
  }

  lemma HeaderBrace(h: Header)
    requires HeaderOK(h)
    ensures EntryBrace(HeaderText(h) + [SPACE, BRACE], h.SubrHeader?) == Some(|HeaderText(h)| + 1)
  {
    hide SubrBrace, GlyphBrace, HeaderText;
    if h.SubrHeader? { SubrBraceFound(h); } else { GlyphBraceFound(h); }
  }

  lemma EmptyLineFirst(s: seq<byte>, terminator: seq<byte>)
    requires |terminator| == 2
    ensures EntryFinish([LF] + s, terminator) == Shifted(EntryFinish(s, terminator), 1)
  {
    var text := [LF] + s;
    assert LineAfter(text) == 1 && LineContent(text) == 0;
    assert text[1..] == s;
    assert ClosingLine(text, terminator).None?;
  }

  /** The charstring between the braces of a printed entry assembles to its own elements. */
  lemma InsideAssembles(items: seq<Element>, behind: seq<byte>)
    requires behind == [] || Blank(behind[0])
    ensures Assembled([LF] + (Printed(items, true) + behind)) == Prefixed(Codes(items), Assembled(behind))
  {
    PrintedAssembles(items, true, behind);
    AssembledBlank(LF, Printed(items, true) + behind);
  }

  lemma InsideStored(items: seq<Element>, lenIV: int)
    requires lenIV >= -1
    ensures Enciphered([LF] + (Printed(items, true) + [TAB]), lenIV) == Some(Stored(items, lenIV))
  {
    InsideAssembles(items, [TAB]);
    AssembledBlank(TAB, []);
    assert [TAB] + [] == [TAB];
    PrintedAssembles(items, true, []);
    assert Printed(items, true) + [] == Printed(items, true);
    CharstringRoundTrip(items, lenIV);
    hide Assembled, Printed;
  }

  /** A brace is no token, so a charstring that runs into one does not assemble. */
  lemma BraceStopsAssembly(items: seq<Element>, behind: seq<byte>, lenIV: int)
    ensures Enciphered([LF] + (Printed(items, true) + (SHUT + behind)), lenIV).None?
  {
    var rest := [CLOSING] + behind;
    assert SHUT + behind == [TAB] + rest;
    InsideAssembles(items, SHUT + behind);
    AssembledBlank(TAB, rest);
    var token := rest[..TokenLength(rest)];
    assert token[0] == CLOSING;
    assert ParsedInteger(token).None?;
    BraceNamesNothing(token);
    assert Assembled(rest).None?;
  }

  lemma NameBegins(op: Operator)
    ensures Name(op) != [] && Name(op)[0] < CLOSING
  {
    hide Spelling;
    SpellingPlain(op);
    assert Name(op)[0] == Spelling(op)[0] as int;
  }

  lemma BraceNamesNothing(token: seq<byte>)
    requires token != [] && token[0] == CLOSING
    ensures ByName(token).None?
  {
    hide ByName, Name;
    var found := ByName(token);
    if found.Some? {
      NameBegins(found.value);
    }
  }

  lemma PrintedEntryText(line: Line, subroutines: bool, rest: seq<byte>)
    requires line.Entry?
    ensures PrintedLine(line, subroutines) + rest
         == HeaderText(line.header) + OPEN + (Printed(line.items, true) + (EntryEnd(subroutines, line.tail) + rest))
  {
    hide HeaderText, Printed, EntryEnd;
    Assoc(HeaderText(line.header) + OPEN + Printed(line.items, true), EntryEnd(subroutines, line.tail), rest);
    Assoc(HeaderText(line.header) + OPEN, Printed(line.items, true), EntryEnd(subroutines, line.tail) + rest);
  }

  lemma HeaderTransforms(line: Line, subroutines: bool, lenIV: int, rest: seq<byte>)
    requires line.Entry? && LineOK(line, subroutines)
    ensures Transformed(PrintedLine(line, subroutines) + rest, subroutines, lenIV)
         == AfterBrace(HeaderText(line.header) + [SPACE],
                       [LF] + (Printed(line.items, true) + (EntryEnd(subroutines, line.tail) + rest)), subroutines, lenIV)
  {
    hide LineContent, LineAfter, EntryBrace, HeaderText, Printed, EntryEnd, AfterBrace, PrintedLine, HeaderOK;
    PrintedEntryText(line, subroutines, rest);
    BraceTransforms(line.header, Printed(line.items, true) + (EntryEnd(subroutines, line.tail) + rest), lenIV);
  }

  lemma BraceTransforms(h: Header, behind: seq<byte>, lenIV: int)
    requires HeaderOK(h)
    ensures Transformed(HeaderText(h) + OPEN + behind, h.SubrHeader?, lenIV)
         == AfterBrace(HeaderText(h) + [SPACE], [LF] + behind, h.SubrHeader?, lenIV)
  {
    hide LineContent, LineAfter, EntryBrace, HeaderText, AfterBrace, HeaderOK;
    HeaderLine(h, behind);
    HeaderBrace(h);
    BeforeBrace(HeaderText(h), behind);
  }

  lemma BeforeBrace(header: seq<byte>, behind: seq<byte>)
    ensures (header + OPEN + behind)[..|header| + 1] == header + [SPACE]
  {}

  /** The pieces of an entry's text behind its opening brace. */
  lemma InsidePieces(p: seq<byte>, subroutines: bool, tail: seq<byte>, rest: seq<byte>)
    ensures var end := EntryEnd(subroutines, tail);
      var inside := [LF] + (p + (end + rest));
      && |end| == 6 + |tail|
      && inside[..|p| + 2] == [LF] + (p + [TAB])
      && inside[|p| + 6..|p| + 1 + |end|] == tail + [LF]
      && inside[|p| + 1 + |end|..] == rest
  {}

  lemma InsideFinish(items: seq<Element>, subroutines: bool, tail: seq<byte>, rest: seq<byte>)
    requires TailOK(tail)
    ensures EntryFinish([LF] + (Printed(items, true) + (EntryEnd(subroutines, tail) + rest)), Terminator(subroutines))
         == Shifted(PrintedFinish(items, subroutines, tail, rest), 1)
  {
    hide EntryFinish, Printed, EntryEnd, TailOK, Terminator, PrintedFinish, Shifted;
    EmptyLineFirst(Printed(items, true) + (EntryEnd(subroutines, tail) + rest), Terminator(subroutines));
    EntryFinishOfPrinted(items, subroutines, tail, rest);
  }

  lemma ClosedEntry(header: seq<byte>, items: seq<Element>, subroutines: bool, tail: seq<byte>, rest: seq<byte>, lenIV: int)
    requires TailOK(tail) && lenIV >= -1 && AtLineStart(items)
    ensures AfterBrace(header, [LF] + (Printed(items, true) + (EntryEnd(subroutines, tail) + rest)), subroutines, lenIV)
         == Prefixed(StoredEntry(header, Stored(items, lenIV), Terminator(subroutines), tail + [LF]),
                     Transformed(rest, subroutines, lenIV))
  {
    hide EntryFinish, Enciphered, StoredEntry, Transformed, Printed, EntryEnd, Stored, Terminator, AtLineStart, TailOK;
    InsideFinish(items, subroutines, tail, rest);
    InsidePieces(Printed(items, true), subroutines, tail, rest);
    InsideStored(items, lenIV);
  }

  lemma OpenEntry(header: seq<byte>, items: seq<Element>, subroutines: bool, tail: seq<byte>, rest: seq<byte>, lenIV: int)
    requires TailOK(tail) && !AtLineStart(items)
    ensures AfterBrace(header, [LF] + (Printed(items, true) + (EntryEnd(subroutines, tail) + rest)), subroutines, lenIV).None?
  {
    hide EntryFinish, Enciphered, StoredEntry, Transformed, Printed, EntryEnd, Terminator, AtLineStart, TailOK;
    InsideFinish(items, subroutines, tail, rest);
    var finish := EntryFinish(rest, Terminator(subroutines));
    if finish.Some? {
      var later := finish.value.brace;
      InsideCut(Printed(items, true), subroutines, tail, rest, later);
      BraceStopsAssembly(items, ClosingText(subroutines, tail) + rest[..later], lenIV);
    }
  }

  lemma InsideCut(p: seq<byte>, subroutines: bool, tail: seq<byte>, rest: seq<byte>, later: nat)
    requires later <= |rest|
    ensures var end := EntryEnd(subroutines, tail);
      ([LF] + (p + (end + rest)))[..1 + |p| + |end| + later]
      == [LF] + (p + (SHUT + (ClosingText(subroutines, tail) + rest[..later])))
  {}

  /** An entry whose charstring ends with an operator, or is empty, assembles to its stored form; one
      whose charstring ends with a number does not assemble. */
  lemma EntryTransforms(line: Line, subroutines: bool, lenIV: int, rest: seq<byte>)
    requires line.Entry? && LineOK(line, subroutines) && lenIV >= -1
    ensures Transformed(PrintedLine(line, subroutines) + rest, subroutines, lenIV)
         == if Closed(line) then Prefixed(StoredLine(line, subroutines, lenIV), Transformed(rest, subroutines, lenIV))
            else None
  {
    hide Transformed, AfterBrace, PrintedLine, StoredLine, StoredEntry, HeaderText, Printed, EntryEnd, AtLineStart;
    var Entry(h, items, tail) := line;
    HeaderTransforms(line, subroutines, lenIV, rest);
    if AtLineStart(items) {
      ClosedEntry(HeaderText(h) + [SPACE], items, subroutines, tail, rest, lenIV);
      StoredEntryIsLine(line, subroutines, lenIV);
    } else {
      OpenEntry(HeaderText(h) + [SPACE], items, subroutines, tail, rest, lenIV);
    }
  }

  lemma StoredEntryIsLine(line: Line, subroutines: bool, lenIV: int)
    requires line.Entry? && lenIV >= -1
    ensures StoredEntry(HeaderText(line.header) + [SPACE], Stored(line.items, lenIV), Terminator(subroutines), line.tail + [LF])
         == StoredLine(line, subroutines, lenIV)
  {
    hide HeaderText, Stored, Digits;
    var front := HeaderText(line.header) + [SPACE];
    assert front[|front| - 1] == SPACE;
    var code := Stored(line.items, lenIV);
    var head := front + Digits(|code|) + READ + code;
    assert front + [] == front;
    assert head + [SPACE] + Terminator(subroutines) + (line.tail + [LF]) == head + ClosingText(subroutines, line.tail);
  }

  // ----- a whole run of lines -----

  function PrintedLines(lines: seq<Line>, subroutines: bool): seq<byte> {
    if lines == [] then [] else PrintedLine(lines[0], subroutines) + PrintedLines(lines[1..], subroutines)
  }

  function StoredLines(lines: seq<Line>, subroutines: bool, lenIV: int): seq<byte>
    requires lenIV >= -1
  {
    if lines == [] then [] else StoredLine(lines[0], subroutines, lenIV) + StoredLines(lines[1..], subroutines, lenIV)
  }

  predicate LinesOK(lines: seq<Line>, subroutines: bool) {
    forall i :: 0 <= i < |lines| ==> LineOK(lines[i], subroutines)
  }

  predicate AllClosed(lines: seq<Line>) { forall i :: 0 <= i < |lines| ==> Closed(lines[i]) }

  /** type1_transform_entries over printed lines succeeds exactly when every entry's charstring ends
      with an operator or is empty, and then stores every entry. */
  lemma {:induction false} LinesTransform(lines: seq<Line>, subroutines: bool, lenIV: int, rest: seq<byte>)
    requires LinesOK(lines, subroutines) && lenIV >= -1
    ensures Transformed(PrintedLines(lines, subroutines) + rest, subroutines, lenIV)
         == if AllClosed(lines) then Prefixed(StoredLines(lines, subroutines, lenIV), Transformed(rest, subroutines, lenIV))
            else None
  {
    hide Transformed, PrintedLine, StoredLine, LineOK, Closed;
    if lines == [] {
      assert PrintedLines(lines, subroutines) + rest == rest;
      PrefixedEmpty(Transformed(rest, subroutines, lenIV));
    } else {
      var later := PrintedLines(lines[1..], subroutines) + rest;
      LinesTransform(lines[1..], subroutines, lenIV, rest);
      LineTransforms(lines[0], subroutines, lenIV, later);
      Assoc(PrintedLine(lines[0], subroutines), PrintedLines(lines[1..], subroutines), rest);
      PrefixedTwice(StoredLine(lines[0], subroutines, lenIV), StoredLines(lines[1..], subroutines, lenIV),
                    Transformed(rest, subroutines, lenIV));
      assert AllClosed(lines) <==> Closed(lines[0]) && AllClosed(lines[1..]) by {
        assert forall i :: 0 < i < |lines| ==> lines[i] == lines[1..][i - 1];
      }
    }
  }

  lemma LineTransforms(line: Line, subroutines: bool, lenIV: int, rest: seq<byte>)
    requires LineOK(line, subroutines) && lenIV >= -1
    ensures Transformed(PrintedLine(line, subroutines) + rest, subroutines, lenIV)
         == if Closed(line) then Prefixed(StoredLine(line, subroutines, lenIV), Transformed(rest, subroutines, lenIV))
            else None
  {
    hide Transformed;
    match line
    case Plain(text) => PlainTransforms(text, subroutines, lenIV, rest);
    case Entry(_, _, _) => EntryTransforms(line, subroutines, lenIV, rest);
  }
}
