/** Stored sections disassembled, and the whole way from printed section to font and back. */
module Type1RoundTrip {
  import opened Bytes
  import opened Type1Numbers
  import opened Type1Charstring
  import opened Type1Private
  import opened Type1Section
  import Cipher = Type1Cipher

  // ----- recognising a stored entry -----

  /** What lies between a stored entry's length and the end of its data. */
  function AfterLength(code: seq<byte>, rest: seq<byte>): seq<byte> { READ + (code + rest) }

  function StoredText(h: Header, code: seq<byte>, rest: seq<byte>): seq<byte> {
    HeaderText(h) + ([SPACE] + (Digits(|code|) + AfterLength(code, rest)))
  }

  lemma LeadingNumberOf(number: seq<byte>, rest: seq<byte>)
    requires AllDigits(number) && (rest == [] || !Digit(rest[0]))
    ensures LeadingNumber(number + rest) == number
  {
    assert All(number, Digit) by { assert forall i :: 0 <= i < |number| ==> Digit(number[i]); }
    SpanOf(number, rest, Digit);
    hide Span;
  }

  lemma ReadAt(s: seq<byte>, code: seq<byte>, rest: seq<byte>, at: nat)
    requires at <= |s| && s[at..] == AfterLength(code, rest)
    ensures at + 4 <= |s| && s[at..at + 4] == [SPACE] + RD + [SPACE]
    ensures s[at + 4..] == code + rest
  {
    assert s[at..at + 4] == s[at..][..4];
    assert s[at + 4..] == s[at..][4..];
  }

  lemma ReadingWordFound(s: seq<byte>, prefix: nat, code: seq<byte>, rest: seq<byte>, at: nat)
    requires prefix <= at <= |s| && s[at..] == AfterLength(code, rest)
    ensures ReadingWord(s, prefix, Digits(|code|), at, RD) == Some(Found(prefix, at + 4, |code|))
  {
    hide Digits, DigitsValue, AfterLength;
    DigitsValueOfDigits(|code|);
    ReadAt(s, code, rest, at);
  }

  /** What the disassembler's scan of a stored entry's header finds, step by step. */
  predicate HeaderScan(s: seq<byte>, lead: nat, word: nat, digits: nat, first: seq<byte>) {
    && Span(s, Horizontal) == lead <= |s|
    && lead + Span(s[lead..], WordByte) == word < |s|
    && Horizontal(s[word])
    && word + Span(s[word..], Horizontal) == digits <= |s|
    && LeadingNumber(s[digits..]) == first
    && first != []
  }

  /** The two ways type1_disassembly_entry reads the numbers behind the first word. */
  lemma TwoNumbers(s: seq<byte>, lead: nat, word: nat, digits: nat, first: seq<byte>, second: seq<byte>)
    requires HeaderScan(s, lead, word, digits, first) && digits + |first| <= |s|
    requires Span(s[digits + |first|..], Horizontal) == 1
    requires digits + |first| + 1 <= |s| && LeadingNumber(s[digits + |first| + 1..]) == second
    ensures second != [] ==> digits + |first| + 1 + |second| <= |s|
    ensures EntryShape(s, RD)
         == if second != [] then ReadingWord(s, digits + |first|, second, digits + |first| + 1 + |second|, RD)
            else ReadingWord(s, word, first, digits + |first|, RD)
  {
    hide Span, LeadingNumber, ReadingWord, Horizontal, All, AllDigits, BehindNumber;
    assert EntryShape(s, RD) == BehindNumber(s, word, first, digits + |first|, RD);
    SecondNumber(s, word, first, digits + |first|, second);
  }

  lemma SecondNumber(s: seq<byte>, word: nat, first: seq<byte>, after: nat, second: seq<byte>)
    requires word <= after < |s| && AllDigits(first)
    requires Span(s[after..], Horizontal) == 1 && LeadingNumber(s[after + 1..]) == second
    ensures BehindNumber(s, word, first, after, RD)
         == if second != [] then ReadingWord(s, after, second, after + 1 + |second|, RD)
            else ReadingWord(s, word, first, after, RD)
  {
    hide Span, LeadingNumber, ReadingWord, All, AllDigits;
  }

  lemma DupIsAWord(rest: seq<byte>)
    requires rest != [] && Horizontal(rest[0])
    ensures Span(DUP + rest, WordByte) == 3
  {
    SpanOf(DUP, rest, WordByte);
  }

  lemma SubrStoredSpans(h: Header, tail: seq<byte>)
    requires h.SubrHeader? && HeaderOK(h) && tail != [] && tail[0] == SPACE
    ensures HeaderScan(HeaderText(h) + tail, |h.lead|, |h.lead| + 3, |h.lead| + 3 + |h.gap|, h.number)
    ensures |HeaderText(h)| == |h.lead| + 3 + |h.gap| + |h.number|
  {
    hide Span, HeaderText, LeadingNumber;
    SubrParts(h, tail);
    assert Digit(h.number[0]) && Horizontal(h.gap[0]);
    SpanOf(h.lead, DUP + (h.gap + (h.number + tail)), Horizontal);
    DupIsAWord(h.gap + (h.number + tail));
    SpanOf(h.gap, h.number + tail, Horizontal);
    assert AllDigits(h.number) by { assert forall i :: 0 <= i < |h.number| ==> Digit(h.number[i]); }
    LeadingNumberOf(h.number, tail);
  }

  lemma GlyphStoredParts(h: Header, tail: seq<byte>)
    requires h.GlyphHeader?
    ensures var s := HeaderText(h) + tail;
      && s == h.lead + ([SLASH] + h.name + tail)
      && s[|h.lead|..] == [SLASH] + h.name + tail
      && s[|HeaderText(h)|..] == tail
      && |HeaderText(h)| == |h.lead| + 1 + |h.name|
  {}

  lemma GlyphStoredSpans(h: Header, tail: seq<byte>)
    requires h.GlyphHeader? && HeaderOK(h) && tail != [] && tail[0] == SPACE
    ensures var s := HeaderText(h) + tail;
      && Span(s, Horizontal) == |h.lead| <= |s|
      && |h.lead| + Span(s[|h.lead|..], WordByte) == |HeaderText(h)| < |s|
      && Horizontal(s[|HeaderText(h)|])
      && s[|HeaderText(h)|..] == tail
  {
    GlyphStoredParts(h, tail);
    hide Span, HeaderText;
    SpanOf(h.lead, [SLASH] + h.name + tail, Horizontal);
    assert forall i :: 0 <= i < |h.name| ==> GlyphNameByte(h.name[i]);
    SpanOf([SLASH] + h.name, tail, WordByte);
  }

  lemma ReadParts(code: seq<byte>, rest: seq<byte>)
    ensures var after := AfterLength(code, rest);
      && after != [] && !Digit(after[0])
      && Span(after, Horizontal) == 1
      && LeadingNumber(after[1..]) == []
  {
    hide Span, LeadingNumber, All, AllDigits;
    var after := AfterLength(code, rest);
    assert after == [SPACE] + after[1..] && after[1] == 82;
    assert All([SPACE], Horizontal) by { BlankIsHorizontal(); }
    SpanOf([SPACE], after[1..], Horizontal);
    NoNumber(after[1..]);
  }

  lemma BlankIsHorizontal()
    ensures All([SPACE], Horizontal)
  {}

  lemma NoNumber(s: seq<byte>)
    requires s != [] && !Digit(s[0])
    ensures LeadingNumber(s) == []
  {}

  /** The length and the reading word behind a header, whichever number they are taken for. */
  lemma LengthParts(code: seq<byte>, rest: seq<byte>)
    ensures var tail := [SPACE] + (Digits(|code|) + AfterLength(code, rest));
      && Span(tail, Horizontal) == 1
      && tail[1..] == Digits(|code|) + AfterLength(code, rest)
      && LeadingNumber(tail[1..]) == Digits(|code|)
      && tail[1 + |Digits(|code|)|..] == AfterLength(code, rest)
      && Span(AfterLength(code, rest), Horizontal) == 1
      && LeadingNumber(AfterLength(code, rest)[1..]) == []
  {
    hide Digits, Span, LeadingNumber, AfterLength, All;
    var d := Digits(|code|);
    var after := AfterLength(code, rest);
    ReadParts(code, rest);
    assert Digit(d[0]);
    BlankIsHorizontal();
    SpanOf([SPACE], d + after, Horizontal);
    assert ([SPACE] + (d + after))[1..] == d + after;
    LeadingNumberOf(d, after);
  }

  lemma TailSlices(header: seq<byte>, tail: seq<byte>, d: nat)
    requires 1 + d < |tail|
    ensures var s := header + tail;
      && s[|header|..] == tail
      && s[|header| + 1..] == tail[1..]
      && s[|header| + 1 + d..] == tail[1 + d..]
      && s[|header| + 1 + d + 1..] == tail[1 + d..][1..]
  {}

  /** The scan behind any header: one blank, the length, and the reading word. */
  lemma StoredScan(header: seq<byte>, code: seq<byte>, rest: seq<byte>)
    ensures var d := |Digits(|code|)|;
      var s := header + ([SPACE] + (Digits(|code|) + AfterLength(code, rest)));
      var n := |header|;
      && n + 1 + d + 1 <= |s|
      && Span(s[n..], Horizontal) == 1 && LeadingNumber(s[n + 1..]) == Digits(|code|)
      && s[n + 1 + d..] == AfterLength(code, rest)
      && Span(s[n + 1 + d..], Horizontal) == 1 && LeadingNumber(s[n + 1 + d + 1..]) == []
  {
    hide Span, LeadingNumber, Digits, AfterLength, All, AllDigits, Horizontal;
    LengthParts(code, rest);
    assert |AfterLength(code, rest)| > 0;
    TailSlices(header, [SPACE] + (Digits(|code|) + AfterLength(code, rest)), |Digits(|code|)|);
  }

  lemma SubrShape(h: Header, code: seq<byte>, rest: seq<byte>)
    requires h.SubrHeader? && HeaderOK(h)
    ensures EntryShape(StoredText(h, code, rest), RD)
         == Some(Found(|HeaderText(h)|, |HeaderText(h)| + 1 + |Digits(|code|)| + 4, |code|))
  {
    hide Span, LeadingNumber, HeaderText, Digits, AfterLength, HeaderOK, ReadingWord, EntryShape, Horizontal, All, AllDigits, HeaderScan;
    var tail := [SPACE] + (Digits(|code|) + AfterLength(code, rest));
    SubrStoredSpans(h, tail);
    StoredScan(HeaderText(h), code, rest);
    TwoNumbers(HeaderText(h) + tail, |h.lead|, |h.lead| + 3, |h.lead| + 3 + |h.gap|, h.number, Digits(|code|));
    ReadingWordFound(HeaderText(h) + tail, |HeaderText(h)|, code, rest, |HeaderText(h)| + 1 + |Digits(|code|)|);
  }

  lemma ScanOf(s: seq<byte>, lead: nat, word: nat, first: seq<byte>)
    requires Span(s, Horizontal) == lead <= |s|
    requires lead + Span(s[lead..], WordByte) == word < |s| && Horizontal(s[word])
    requires Span(s[word..], Horizontal) == 1 && LeadingNumber(s[word + 1..]) == first != []
    ensures HeaderScan(s, lead, word, word + 1, first)
  {
    hide Span, LeadingNumber, All, AllDigits;
  }

  lemma GlyphScan(h: Header, code: seq<byte>, rest: seq<byte>)
    requires h.GlyphHeader? && HeaderOK(h)
    ensures HeaderScan(StoredText(h, code, rest), |h.lead|, |HeaderText(h)|, |HeaderText(h)| + 1, Digits(|code|))
  {
    hide Span, LeadingNumber, HeaderText, Digits, AfterLength, HeaderOK, All, AllDigits, HeaderScan;
    GlyphStoredSpans(h, [SPACE] + (Digits(|code|) + AfterLength(code, rest)));
    StoredScan(HeaderText(h), code, rest);
    ScanOf(StoredText(h, code, rest), |h.lead|, |HeaderText(h)|, Digits(|code|));
  }

  lemma GlyphShape(h: Header, code: seq<byte>, rest: seq<byte>)
    requires h.GlyphHeader? && HeaderOK(h)
    ensures EntryShape(StoredText(h, code, rest), RD)
         == Some(Found(|HeaderText(h)|, |HeaderText(h)| + 1 + |Digits(|code|)| + 4, |code|))
  {
    hide Span, LeadingNumber, HeaderText, Digits, AfterLength, HeaderOK, ReadingWord, EntryShape, Horizontal, All, AllDigits, HeaderScan;
    var s := StoredText(h, code, rest);
    var n := |HeaderText(h)|;
    GlyphScan(h, code, rest);
    StoredScan(HeaderText(h), code, rest);
    TwoNumbers(s, |h.lead|, n, n + 1, Digits(|code|), []);
    ReadingWordFound(s, n, code, rest, n + 1 + |Digits(|code|)|);
  }

  // ----- a stored line disassembled -----

  /** A stored entry and what follows it, as the disassembler meets them. */
  lemma StoredLineText(line: Line, subroutines: bool, lenIV: int, rest: seq<byte>)
    requires line.Entry? && lenIV >= -1
    ensures StoredLine(line, subroutines, lenIV) + rest
         == StoredText(line.header, Stored(line.items, lenIV), ClosingText(subroutines, line.tail) + rest)
  {
    hide HeaderText, Stored, Digits, ClosingText;
    var code := Stored(line.items, lenIV);
    var closing := ClosingText(subroutines, line.tail);
    var h := HeaderText(line.header);
    Assoc(h + [SPACE] + Digits(|code|) + READ + code, closing, rest);
    Assoc(h + [SPACE] + Digits(|code|) + READ, code, closing + rest);
    Assoc(h + [SPACE] + Digits(|code|), READ, code + (closing + rest));
    Assoc(h + [SPACE], Digits(|code|), READ + (code + (closing + rest)));
    Assoc(h, [SPACE], Digits(|code|) + (READ + (code + (closing + rest))));
  }

  lemma StoredMatch(h: Header, code: seq<byte>, rest: seq<byte>)
    requires HeaderOK(h)
    ensures var s := StoredText(h, code, rest);
      var data := |HeaderText(h)| + 1 + |Digits(|code|)| + 4;
      && EntryMatch(s, RD) == Some(Found(|HeaderText(h)|, data, |code|))
      && s[..|HeaderText(h)|] == HeaderText(h)
      && data + |code| <= |s| && s[data..data + |code|] == code && s[data + |code|..] == rest
  {
    hide EntryShape, HeaderText, Digits, HeaderOK;
    if h.SubrHeader? { SubrShape(h, code, rest); } else { GlyphShape(h, code, rest); }
    StoredData(HeaderText(h), Digits(|code|), code, rest);
  }

  lemma StoredData(h: seq<byte>, digits: seq<byte>, code: seq<byte>, rest: seq<byte>)
    ensures var s := h + ([SPACE] + (digits + AfterLength(code, rest)));
      var data := |h| + 1 + |digits| + 4;
      && s[..|h|] == h
      && |s| == data + |code| + |rest|
      && s[data..data + |code|] == code && s[data + |code|..] == rest
  {}

  lemma {:induction false} TextContentOf(w: seq<byte>, rest: seq<byte>)
    requires OneLine(w)
    ensures TextContent(w + [LF] + rest) == |w|
  {
    if w != [] {
      assert (w + [LF] + rest)[1..] == w[1..] + [LF] + rest;
      TextContentOf(w[1..], rest);
    }
  }

  lemma NormalLineOf(w: seq<byte>, rest: seq<byte>)
    requires OneLine(w)
    ensures var s := w + [LF] + rest;
      && s[..TextContent(s)] == w && NormalLine(s) == w + [LF] && s[TextAfter(s)..] == rest
  {
    TextContentOf(w, rest);
    hide TextContent;
    var s := w + [LF] + rest;
    assert s[|w|] == LF;
  }

  lemma ClosingTextIsOne(subroutines: bool, tail: seq<byte>)
    requires OneLine(tail)
    ensures var w := [SPACE] + Terminator(subroutines) + tail;
      OneLine(w) && ClosingText(subroutines, tail) == w + [LF]
  {}

  /** One entry of the disassembler's loop. */
  lemma EntryStep(s: seq<byte>, settings: Settings, f: Found, text: seq<byte>)
    requires EntryMatch(s, settings.name) == Some(f)
    requires Disassembled(s[f.data..f.data + f.length], settings.lenIV) == Some(text)
    ensures var behind := s[f.data + f.length..];
      DisassembledPrivate(s, settings)
      == Prefixed(s[..f.prefix] + OPEN + text + SHUT + NormalLine(behind),
                  DisassembledPrivate(behind[TextAfter(behind)..], settings))
  {
    hide EntryMatch, Disassembled, NormalLine, TextAfter, TextContent, LineSettings, InlineEntry;
  }

  lemma StoredDisassembles(items: seq<Element>, lenIV: int)
    requires lenIV >= -1
    ensures Disassembled(Stored(items, lenIV), lenIV) == Some(Printed(items, true))
  {
    hide Disassembled, Printed, Enciphered;
    CharstringRoundTrip(items, lenIV);
  }

  lemma StoredTextDisassembles(h: Header, items: seq<Element>, subroutines: bool, tail: seq<byte>, lenIV: int, rest: seq<byte>)
    requires HeaderOK(h) && OneLine(tail) && lenIV >= -1
    ensures DisassembledPrivate(StoredText(h, Stored(items, lenIV), ClosingText(subroutines, tail) + rest), Settings(lenIV, RD))
         == Prefixed(HeaderText(h) + OPEN + Printed(items, true) + SHUT + ClosingText(subroutines, tail),
                     DisassembledPrivate(rest, Settings(lenIV, RD)))
  {
    hide Stored, Disassembled, Printed, EntryMatch, NormalLine, TextAfter, TextContent, HeaderText,
      StoredText, ClosingText, HeaderOK, DisassembledPrivate, Digits, OneLine, Terminator;
    var code := Stored(items, lenIV);
    var behind := ClosingText(subroutines, tail) + rest;
    var f := Found(|HeaderText(h)|, |HeaderText(h)| + 1 + |Digits(|code|)| + 4, |code|);
    StoredDisassembles(items, lenIV);
    StoredMatch(h, code, behind);
    EntryStep(StoredText(h, code, behind), Settings(lenIV, RD), f, Printed(items, true));
    ClosingTextReads(subroutines, tail, rest);
  }

  /** A stored entry is printed back as it was. */
  lemma StoredEntryDisassembles(line: Line, subroutines: bool, lenIV: int, rest: seq<byte>)
    requires line.Entry? && LineOK(line, subroutines) && lenIV >= -1
    ensures DisassembledPrivate(StoredLine(line, subroutines, lenIV) + rest, Settings(lenIV, RD))
         == Prefixed(PrintedLine(line, subroutines), DisassembledPrivate(rest, Settings(lenIV, RD)))
  {
    hide Stored, Printed, HeaderText, StoredLine, PrintedLine, StoredText, ClosingText, HeaderOK, DisassembledPrivate;
    StoredLineText(line, subroutines, lenIV, rest);
    PrintedPieces(line, subroutines);
    StoredTextDisassembles(line.header, line.items, subroutines, line.tail, lenIV, rest);
  }

  lemma ClosingTextReads(subroutines: bool, tail: seq<byte>, rest: seq<byte>)
    requires OneLine(tail)
    ensures var behind := ClosingText(subroutines, tail) + rest;
      NormalLine(behind) == ClosingText(subroutines, tail) && behind[TextAfter(behind)..] == rest
  {
    hide NormalLine, TextAfter, TextContent;
    ClosingTextIsOne(subroutines, tail);
    NormalLineOf([SPACE] + Terminator(subroutines) + tail, rest);
  }

  lemma PrintedPieces(line: Line, subroutines: bool)
    requires line.Entry?
    ensures HeaderText(line.header) + OPEN + Printed(line.items, true) + SHUT + ClosingText(subroutines, line.tail)
         == PrintedLine(line, subroutines)
  {
    hide HeaderText, Printed, ClosingText;
    Assoc(HeaderText(line.header) + OPEN + Printed(line.items, true), SHUT, ClosingText(subroutines, line.tail));
  }

  /** A plain line the disassembler copies: no entry begins on it. */
  predicate PlainReads(text: seq<byte>, name: seq<byte>) {
    OneLine(text) && EntryShape(text + [LF], name).None? && InlineEntry(text).None?
  }

  lemma SpanAtNewline(s: seq<byte>, rest: seq<byte>, p: byte -> bool)
    requires s != [] && s[|s| - 1] == LF && !p(LF)
    ensures Span(s + rest, p) == Span(s, p) < |s|
  {
    hide Span;
    var n := Span(s, p);
    forall i | 0 <= i < n
      ensures p(s[i])
    {
      assert s[..n][i] == s[i];
    }
    SpanLocal(s, rest, p);
  }

  lemma SpanFrom(t: seq<byte>, rest: seq<byte>, k: nat, p: byte -> bool)
    requires k < |t| && t[|t| - 1] == LF && !p(LF)
    ensures Span((t + rest)[k..], p) == Span(t[k..], p) < |t| - k
  {
    hide Span;
    assert (t + rest)[k..] == t[k..] + rest;
    SpanAtNewline(t[k..], rest, p);
  }

  lemma NumberFrom(t: seq<byte>, rest: seq<byte>, k: nat)
    requires k < |t| && t[|t| - 1] == LF
    ensures LeadingNumber((t + rest)[k..]) == LeadingNumber(t[k..])
    ensures |LeadingNumber(t[k..])| < |t| - k
  {
    SpanFrom(t, rest, k, Digit);
    hide Span;
    var n := Span(t[k..], Digit);
    assert (t + rest)[k..][..n] == t[k..][..n];
  }

  predicate NoNewline(s: seq<byte>) { forall i :: 0 <= i < |s| ==> s[i] != LF }

  lemma ReadingWordLocal(t: seq<byte>, rest: seq<byte>, prefix: nat, number: seq<byte>, at: nat, name: seq<byte>)
    requires prefix <= at < |t| && t[|t| - 1] == LF && AllDigits(number) && NoNewline(name)
    ensures ReadingWord(t + rest, prefix, number, at, name).Some? ==> ReadingWord(t, prefix, number, at, name).Some?
  {
    hide DigitsValue;
    var s := t + rest;
    var k := |name| + 2;
    var wanted := [SPACE] + name + [SPACE];
    if |s| - at >= k && s[at..at + k] == wanted {
      NewlineBehind(s, at, wanted, |t| - 1);
      assert t[at..at + k] == s[at..at + k];
    }
  }

  /** Where a text without a newline stands before one, it ends before it. */
  lemma NewlineBehind(s: seq<byte>, at: nat, wanted: seq<byte>, newline: nat)
    requires at + |wanted| <= |s| && s[at..at + |wanted|] == wanted && NoNewline(wanted)
    requires at <= newline < |s| && s[newline] == LF
    ensures at + |wanted| <= newline
  {
    forall i | at <= i < at + |wanted|
      ensures s[i] != LF
    {
      assert s[i] == wanted[i - at];
    }
  }

  lemma BehindNumberLocal(t: seq<byte>, rest: seq<byte>, word: nat, first: seq<byte>, after: nat, name: seq<byte>)
    requires word <= after < |t| && t[|t| - 1] == LF && AllDigits(first) && NoNewline(name)
    ensures BehindNumber(t + rest, word, first, after, name).Some? ==> BehindNumber(t, word, first, after, name).Some?
  {
    hide Span, LeadingNumber, ReadingWord, NoNewline, AllDigits, All;
    SpanFrom(t, rest, after, Horizontal);
    var next := after + Span(t[after..], Horizontal);
    NumberFrom(t, rest, next);
    var second := LeadingNumber(t[next..]);
    ReadingWordLocal(t, rest, after, second, next + |second|, name);
    ReadingWordLocal(t, rest, word, first, after, name);
  }

  lemma BehindWordLocal(t: seq<byte>, rest: seq<byte>, word: nat, name: seq<byte>)
    requires word < |t| && t[|t| - 1] == LF && NoNewline(name)
    ensures BehindWord(t + rest, word, name).Some? ==> BehindWord(t, word, name).Some?
  {
    hide Span, LeadingNumber, BehindNumber, NoNewline, AllDigits, All;
    SpanFrom(t, rest, word, Horizontal);
    var digits := word + Span(t[word..], Horizontal);
    NumberFrom(t, rest, digits);
    var first := LeadingNumber(t[digits..]);
    BehindNumberLocal(t, rest, word, first, digits + |first|, name);
  }

  /** Whether a line is shaped like an entry shows on the line alone. */
  lemma ShapeLocal(t: seq<byte>, rest: seq<byte>, name: seq<byte>)
    requires t != [] && t[|t| - 1] == LF && NoNewline(name)
    ensures EntryShape(t + rest, name).Some? ==> EntryShape(t, name).Some?
  {
    hide Span, BehindWord, NoNewline, All, Horizontal;
    assert !Horizontal(LF) by { NewlineIsNoBlank(); }
    SpanAtNewline(t, rest, Horizontal);
    var lead := Span(t, Horizontal);
    SpanFrom(t, rest, lead, WordByte);
    var word := lead + Span(t[lead..], WordByte);
    BehindWordLocal(t, rest, word, name);
    assert (t + rest)[word] == t[word];
  }

  lemma NewlineIsNoBlank()
    ensures !Horizontal(LF)
  {}

  /** A plain line is copied and tells the disassembler what it tells it. */
  lemma PlainDisassembles(text: seq<byte>, settings: Settings, rest: seq<byte>)
    requires PlainReads(text, settings.name) && NoNewline(settings.name)
    ensures DisassembledPrivate(text + [LF] + rest, settings)
         == Prefixed(text + [LF], DisassembledPrivate(rest, LineSettings(text, settings)))
  {
    hide EntryShape, InlineEntry, LineSettings, NormalLine, TextAfter, TextContent, NoNewline;
    ShapeLocal(text + [LF], rest, settings.name);
    NormalLineOf(text, rest);
  }

  // ----- a whole section -----

  /** A private section as printed: its lines up to the one that opens the subroutines, the
      subroutines, the line that opens the glyphs (cut where the dictionary's name stands), and the
      glyphs up to the closing line. */
  datatype Section = Section(head: seq<seq<byte>>, subrs: seq<Line>, before: seq<byte>, opening: seq<byte>,
                             glyphs: seq<Line>)

  function PlainText(lines: seq<seq<byte>>): seq<byte> {
    if lines == [] then [] else lines[0] + [LF] + PlainText(lines[1..])
  }

  function SectionText(s: Section): seq<byte> {
    PlainText(s.head) + PrintedLines(s.subrs, true) + (s.before + s.opening + [LF]) + PrintedLines(s.glyphs, false)
  }

  function SectionStored(s: Section, lenIV: int): seq<byte>
    requires lenIV >= -1
  {
    PlainText(s.head) + StoredLines(s.subrs, true, lenIV) + (s.before + s.opening + [LF])
    + StoredLines(s.glyphs, false, lenIV)
  }

  /** What the disassembler's settings are behind the head, where it reads every line as plain. */
  function HeadSettings(head: seq<seq<byte>>, settings: Settings): Option<Settings> {
    if head == [] then Some(settings)
    else if PlainReads(head[0], settings.name) && NoNewline(settings.name)
    then HeadSettings(head[1..], LineSettings(head[0], settings))
    else None
  }

  /** A plain line behind the head: read as plain, and changing nothing. */
  predicate Quiet(text: seq<byte>, settings: Settings) {
    PlainReads(text, settings.name) && LineSettings(text, settings) == settings
  }

  predicate QuietLine(line: Line, settings: Settings) { line.Plain? ==> Quiet(line.text, settings) }

  predicate QuietLines(lines: seq<Line>, settings: Settings) {
    forall i :: 0 <= i < |lines| ==> QuietLine(lines[i], settings)
  }

  /** The printed form: `RD` and one `lenIV` settled by the head, and no later plain line that is
      shaped like an entry or settles them again. */
  predicate PrintedForm(s: Section, lenIV: int) {
    && lenIV >= -1
    && HeadSettings(s.head, INITIAL_SETTINGS) == Some(Settings(lenIV, RD))
    && LinesOK(s.subrs, true) && QuietLines(s.subrs, Settings(lenIV, RD))
    && OneLine(s.before) && EntryBrace(s.before, true).None?
    && Quiet(s.before + s.opening, Settings(lenIV, RD))
    && LinesOK(s.glyphs, false) && QuietLines(s.glyphs, Settings(lenIV, RD))
  }

  lemma {:induction false} HeadDisassembles(head: seq<seq<byte>>, settings: Settings, rest: seq<byte>)
    requires HeadSettings(head, settings).Some?
    ensures DisassembledPrivate(PlainText(head) + rest, settings)
         == Prefixed(PlainText(head), DisassembledPrivate(rest, HeadSettings(head, settings).value))
  {
    hide DisassembledPrivate, PlainReads, NoNewline, LineSettings;
    if head == [] {
      assert PlainText(head) + rest == rest;
      PrefixedEmpty(DisassembledPrivate(rest, settings));
    } else {
      var later := PlainText(head[1..]);
      var next := LineSettings(head[0], settings);
      HeadDisassembles(head[1..], next, rest);
      PlainDisassembles(head[0], settings, later + rest);
      Assoc(head[0] + [LF], later, rest);
      PrefixedTwice(head[0] + [LF], later, DisassembledPrivate(rest, HeadSettings(head, settings).value));
    }
  }

  lemma LineDisassembles(line: Line, subroutines: bool, lenIV: int, rest: seq<byte>)
    requires LineOK(line, subroutines) && QuietLine(line, Settings(lenIV, RD)) && lenIV >= -1
    ensures DisassembledPrivate(StoredLine(line, subroutines, lenIV) + rest, Settings(lenIV, RD))
         == Prefixed(PrintedLine(line, subroutines), DisassembledPrivate(rest, Settings(lenIV, RD)))
  {
    hide DisassembledPrivate, PlainReads, LineSettings;
    match line
    case Plain(text) => PlainDisassembles(text, Settings(lenIV, RD), rest);
    case Entry(_, _, _) => StoredEntryDisassembles(line, subroutines, lenIV, rest);
  }

  lemma {:induction false} LinesDisassemble(lines: seq<Line>, subroutines: bool, lenIV: int, rest: seq<byte>)
    requires LinesOK(lines, subroutines) && QuietLines(lines, Settings(lenIV, RD)) && lenIV >= -1
    ensures DisassembledPrivate(StoredLines(lines, subroutines, lenIV) + rest, Settings(lenIV, RD))
         == Prefixed(PrintedLines(lines, subroutines), DisassembledPrivate(rest, Settings(lenIV, RD)))
  {
    hide DisassembledPrivate, LineOK, QuietLine, StoredLine, PrintedLine;
    if lines == [] {
      assert StoredLines(lines, subroutines, lenIV) + rest == rest;
      PrefixedEmpty(DisassembledPrivate(rest, Settings(lenIV, RD)));
    } else {
      var later := StoredLines(lines[1..], subroutines, lenIV);
      LinesDisassemble(lines[1..], subroutines, lenIV, rest);
      LineDisassembles(lines[0], subroutines, lenIV, later + rest);
      Assoc(StoredLine(lines[0], subroutines, lenIV), later, rest);
      PrefixedTwice(PrintedLine(lines[0], subroutines), PrintedLines(lines[1..], subroutines),
                    DisassembledPrivate(rest, Settings(lenIV, RD)));
    }
  }

  /** A stored section disassembles to the text it was assembled from. */
  lemma SectionDisassembles(s: Section, lenIV: int)
    requires PrintedForm(s, lenIV)
    ensures DisassembledPrivate(SectionStored(s, lenIV), INITIAL_SETTINGS) == Some(SectionText(s))
  {
    hide DisassembledPrivate, HeadSettings, LinesOK, QuietLines, PlainReads, LineSettings, StoredLines, PrintedLines;
    var st := Settings(lenIV, RD);
    var glyphs := StoredLines(s.glyphs, false, lenIV);
    var glyphLine := s.before + s.opening + [LF];
    var subrs := StoredLines(s.subrs, true, lenIV);
    LinesDisassemble(s.glyphs, false, lenIV, []);
    assert glyphs + [] == glyphs;
    NothingLeft(st, PrintedLines(s.glyphs, false));
    PlainDisassembles(s.before + s.opening, st, glyphs);
    LinesDisassemble(s.subrs, true, lenIV, glyphLine + glyphs);
    HeadDisassembles(s.head, INITIAL_SETTINGS, subrs + (glyphLine + glyphs));
    Assoc(PlainText(s.head) + subrs, glyphLine, glyphs);
    Assoc(PlainText(s.head), subrs, glyphLine + glyphs);
    Assoc(PlainText(s.head) + PrintedLines(s.subrs, true), glyphLine, PrintedLines(s.glyphs, false));
    Assoc(PlainText(s.head), PrintedLines(s.subrs, true), glyphLine + PrintedLines(s.glyphs, false));
  }

  lemma NothingLeft(settings: Settings, text: seq<byte>)
    ensures Prefixed(text, DisassembledPrivate([], settings)) == Some(text)
  {
    assert text + [] == text;
  }

  // ----- from text to font and back -----

  /** Where the printed section's parts begin. */
  function SubrEntriesAt(s: Section): nat { |PlainText(s.head)| }

  function CharStringsAt(s: Section): nat { SubrEntriesAt(s) + |PrintedLines(s.subrs, true)| + |s.before| }

  function GlyphEntriesAt(s: Section): nat { CharStringsAt(s) + |s.opening| + 1 }

  /** The assembler finds the section's parts where they were printed, in a text that goes on behind
      the section: `/Subrs ` first stands on the last line of the head, `/CharStrings ` where the
      line that opens the glyphs was cut, and the closing phrase first on the last line. */
  predicate Located(s: Section, trailer: seq<byte>, parts: Parts) {
    && var text := SectionText(s) + trailer;
    && FindParts(text) == Some(parts)
    && parts.subrs < SubrEntriesAt(s) && NoNewline(text[parts.subrs..SubrEntriesAt(s) - 1])
    && parts.charstrings == CharStringsAt(s)
    && GlyphEntriesAt(s) <= parts.close && OneLine(s.opening)
    && parts.close + |CLOSE| < |SectionText(s)| && NoNewline(text[parts.close + |CLOSE|..|SectionText(s)| - 1])
  }

  lemma LineAfterTo(text: seq<byte>, start: nat, end: nat)
    requires start < end <= |text| && text[end - 1] == LF && NoNewline(text[start..end - 1])
    ensures LineAfter(text[start..]) == end - start
  {
    hide LineAfter;
    var w := text[start..end - 1];
    assert text[start..] == w + [LF] + text[end..];
    LineAfterOf(w, text[end..]);
  }

  lemma PlainTextEnds(lines: seq<seq<byte>>)
    ensures lines != [] ==> PlainText(lines) != [] && PlainText(lines)[|PlainText(lines)| - 1] == LF
    ensures lines == [] ==> PlainText(lines) == []
  {}

  lemma {:induction false} PrintedLinesEnd(lines: seq<Line>, subroutines: bool)
    ensures lines != [] ==>
      PrintedLines(lines, subroutines) != [] && PrintedLines(lines, subroutines)[|PrintedLines(lines, subroutines)| - 1] == LF
    ensures lines == [] ==> PrintedLines(lines, subroutines) == []
  {
    if lines != [] {
      var first := PrintedLine(lines[0], subroutines);
      assert first[|first| - 1] == LF by { PrintedLineEnds(lines[0], subroutines); }
      hide PrintedLine;
      PrintedLinesEnd(lines[1..], subroutines);
    }
  }

  lemma PrintedLineEnds(line: Line, subroutines: bool)
    ensures var first := PrintedLine(line, subroutines); first != [] && first[|first| - 1] == LF
  {
    hide HeaderText, Printed;
    if line.Entry? {
      var end := EntryEnd(subroutines, line.tail);
      assert end[|end| - 1] == LF;
    }
  }

  /** The slices of the printed text the assembler works on. */
  lemma SectionSlices(s: Section, trailer: seq<byte>)
    ensures var text := SectionText(s) + trailer;
      && SubrEntriesAt(s) <= CharStringsAt(s) <= GlyphEntriesAt(s) <= |SectionText(s)| <= |text|
      && text[..SubrEntriesAt(s)] == PlainText(s.head)
      && text[SubrEntriesAt(s)..CharStringsAt(s)] == PrintedLines(s.subrs, true) + s.before
      && text[CharStringsAt(s)..GlyphEntriesAt(s)] == s.opening + [LF]
      && text[GlyphEntriesAt(s)..|SectionText(s)|] == PrintedLines(s.glyphs, false)
  {
    hide PlainText, PrintedLines;
  }

  lemma {:induction false} LineAfterAll(w: seq<byte>)
    requires NoNewline(w)
    ensures LineAfter(w) == |w|
  {
    if w != [] { LineAfterAll(w[1..]); }
  }

  lemma PartialLineTransforms(w: seq<byte>, subroutines: bool, lenIV: int)
    requires OneLine(w) && EntryBrace(w, subroutines).None?
    ensures Transformed(w, subroutines, lenIV) == Some(w)
  {
    if w != [] {
      LineAfterAll(w);
      assert LineContent(w) == |w|;
      assert w[..|w|] == w && w[|w|..] == [] && w + [] == w;
      hide EntryBrace, LineContent, LineAfter;
    }
  }

  /** The lines the assembler steps over end where the printed parts end. */
  lemma LocatedLines(s: Section, trailer: seq<byte>, parts: Parts)
    requires Located(s, trailer, parts)
    ensures var text := SectionText(s) + trailer;
      && parts.subrs + LineAfter(text[parts.subrs..parts.charstrings]) == SubrEntriesAt(s)
      && parts.charstrings + LineAfter(text[parts.charstrings..parts.close]) == GlyphEntriesAt(s)
      && parts.close + |CLOSE| + LineAfter(text[parts.close + |CLOSE|..]) == |SectionText(s)|
  {
    hide LineAfter, PlainText, PrintedLines, FindParts, SectionText;
    var text := SectionText(s) + trailer;
    SectionSlices(s, trailer);
    SubrLineLocated(s, trailer, parts);
    GlyphLineLocated(s, trailer, parts);
    CloseLineLocated(s, trailer, parts);
  }

  lemma SubrLineLocated(s: Section, trailer: seq<byte>, parts: Parts)
    requires Located(s, trailer, parts)
    ensures parts.subrs + LineAfter((SectionText(s) + trailer)[parts.subrs..parts.charstrings]) == SubrEntriesAt(s)
  {
    hide LineAfter, PlainText, PrintedLines, FindParts, SectionText;
    var text := SectionText(s) + trailer;
    SectionSlices(s, trailer);
    PlainTextEnds(s.head);
    var cut := text[..parts.charstrings];
    var end := SubrEntriesAt(s);
    assert text[end - 1] == text[..end][end - 1];
    assert cut[parts.subrs..end - 1] == text[parts.subrs..end - 1];
    LineAfterTo(cut, parts.subrs, end);
    assert cut[parts.subrs..] == text[parts.subrs..parts.charstrings];
  }

  lemma GlyphLineLocated(s: Section, trailer: seq<byte>, parts: Parts)
    requires Located(s, trailer, parts)
    ensures parts.charstrings + LineAfter((SectionText(s) + trailer)[parts.charstrings..parts.close]) == GlyphEntriesAt(s)
  {
    hide LineAfter, PlainText, PrintedLines, FindParts, SectionText;
    var text := SectionText(s) + trailer;
    SectionSlices(s, trailer);
    var cut := text[..parts.close];
    var start := parts.charstrings;
    var end := GlyphEntriesAt(s);
    var line := text[start..end];
    assert line[|line| - 1] == LF && text[end - 1] == line[|line| - 1];
    assert cut[start..end - 1] == line[..|line| - 1] == s.opening;
    LineAfterTo(cut, start, end);
    assert cut[start..] == text[start..parts.close];
  }

  lemma CloseLineLocated(s: Section, trailer: seq<byte>, parts: Parts)
    requires Located(s, trailer, parts)
    ensures parts.close + |CLOSE| + LineAfter((SectionText(s) + trailer)[parts.close + |CLOSE|..]) == |SectionText(s)|
  {
    hide LineAfter, PlainText, PrintedLines, FindParts, SectionText;
    var text := SectionText(s) + trailer;
    SectionSlices(s, trailer);
    PrintedLinesEnd(s.glyphs, false);
    var end := |SectionText(s)|;
    var glyphs := text[GlyphEntriesAt(s)..end];
    assert glyphs[|glyphs| - 1] == text[end - 1];
    LineAfterTo(text, parts.close + |CLOSE|, end);
  }

  /** The assembler makes of a printed section the stored one, if and only if the charstring of every
      entry ends with an operator or is empty; a number at the end puts the closing brace on a line
      that is not the brace's own, and the assembler refuses the section. */
  lemma SectionAssembles(s: Section, lenIV: int, trailer: seq<byte>, parts: Parts)
    requires PrintedForm(s, lenIV) && Located(s, trailer, parts)
    requires PrivateLenIV((SectionText(s) + trailer)[..parts.subrs]) == Some(lenIV)
    ensures AssembledPrivate(SectionText(s) + trailer)
         == if AllClosed(s.subrs) && AllClosed(s.glyphs) then Some(SectionStored(s, lenIV)) else None
  {
    hide LineAfter, PlainText, PrintedLines, StoredLines, FindParts, SectionText, Transformed, PrivateLenIV, EntryBrace,
      LinesOK, QuietLines, Quiet, HeadSettings, AllClosed, SubrEntriesAt, CharStringsAt, GlyphEntriesAt;
    LocatedParts(s, trailer, parts);
    LocatedLines(s, trailer, parts);
    SectionSlices(s, trailer);
    LinesTransform(s.subrs, true, lenIV, s.before);
    PartialLineTransforms(s.before, true, lenIV);
    LinesTransform(s.glyphs, false, lenIV, []);
    assert PrintedLines(s.glyphs, false) + [] == PrintedLines(s.glyphs, false);
    TransformedEmpty(StoredLines(s.glyphs, false, lenIV), false, lenIV);
    if AllClosed(s.subrs) && AllClosed(s.glyphs) {
      StoredPieces(s, lenIV);
    }
  }

  lemma LocatedParts(s: Section, trailer: seq<byte>, parts: Parts)
    requires Located(s, trailer, parts)
    ensures FindParts(SectionText(s) + trailer) == Some(parts) && parts.charstrings == CharStringsAt(s)
  {}

  lemma TransformedEmpty(code: seq<byte>, subroutines: bool, lenIV: int)
    ensures Prefixed(code, Transformed([], subroutines, lenIV)) == Some(code)
  {
    assert code + [] == code;
  }

  lemma StoredPieces(s: Section, lenIV: int)
    requires lenIV >= -1
    ensures PlainText(s.head) + (StoredLines(s.subrs, true, lenIV) + s.before) + (s.opening + [LF])
            + StoredLines(s.glyphs, false, lenIV)
         == SectionStored(s, lenIV)
  {
    hide PlainText, StoredLines;
    var subrs := StoredLines(s.subrs, true, lenIV);
    Assoc(PlainText(s.head), subrs, s.before);
    Assoc(PlainText(s.head) + subrs, s.before, s.opening + [LF]);
    Assoc(s.before, s.opening, [LF]);
  }

  /** For a section in the printed form whose charstrings end with operators, assembling it,
      deciphering it and disassembling it returns the text; `plain` is what the eexec reader hands
      back, the stored section whole where no line before its last holds the closing phrase. */
  lemma PrivateRoundTrip(s: Section, lenIV: int, trailer: seq<byte>, parts: Parts, end: nat)
    requires PrintedForm(s, lenIV) && Located(s, trailer, parts)
    requires PrivateLenIV((SectionText(s) + trailer)[..parts.subrs]) == Some(lenIV)
    requires AllClosed(s.subrs) && AllClosed(s.glyphs)
    requires Cipher.SectionEnd(SectionStored(s, lenIV), |SectionStored(s, lenIV)|)
    ensures AssembledPrivate(SectionText(s) + trailer).Some?
    ensures var cipher := Cipher.Encrypted(Zeros(4) + AssembledPrivate(SectionText(s) + trailer).value, Cipher.EEXEC_KEY);
      Cipher.SectionEnd(Cipher.Body(cipher), end) ==>
        end == |Cipher.Body(cipher)| && DisassembledPrivate(Cipher.Body(cipher)[..end], INITIAL_SETTINGS) == Some(SectionText(s))
  {
    assert lenIV >= -1;
    hide PrintedForm, Located, SectionText, SectionStored, DisassembledPrivate, AssembledPrivate, PrivateLenIV, AllClosed;
    SectionAssembles(s, lenIV, trailer, parts);
    var stored := SectionStored(s, lenIV);
    Cipher.EexecWholeSection(Zeros(4), stored);
    SectionDisassembles(s, lenIV);
    if Cipher.SectionEnd(stored, end) { EndsWhole(stored, end); }
  }

  lemma EndsWhole(stored: seq<byte>, end: nat)
    requires Cipher.SectionEnd(stored, |stored|) && Cipher.SectionEnd(stored, end)
    ensures end == |stored| && stored[..end] == stored
  {
    hide Cipher.SectionEnd;
    Cipher.SectionEndUnique(stored, end, |stored|);
  }

  /** The shortest failing input: a subroutine whose charstring is one number prints as text the
      assembler refuses. */
  lemma NumberAtEndRefused()
    ensures Transformed(PrintedLine(Entry(SubrHeader([], [SPACE], [ZERO]), [Number(5)], []), true), true, 4).None?
  {
    var line := Entry(SubrHeader([], [SPACE], [ZERO]), [Number(5)], []);
    assert !Closed(line);
    hide PrintedLine, Transformed;
    EntryTransforms(line, true, 4, []);
    assert PrintedLine(line, true) + [] == PrintedLine(line, true);
  }
}
