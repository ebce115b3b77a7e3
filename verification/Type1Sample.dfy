/** A section in the printed form: what the round trip asks of a section can all be met at once. */
module Type1Sample {
  import opened Bytes
  import opened Type1Numbers
  import opened Type1Charstring
  import opened Type1Private
  import opened Type1Section
  import opened Type1RoundTrip
  import Cipher = Type1Cipher

  /** "/lenIV -1" */
  const PREFIX: seq<byte> := LEN_IV + [45, 49]
  /** "/Subrs /RD string currentfile readstring" */
  const READER: seq<byte> := SUBRS + [47, 82, 68, 32] + STRING_CURRENTFILE + [32] + READSTRING
  const GLYPH: Line := Entry(GlyphHeader([], [97]), [Command(EndChar)], [])
  const SAMPLE: Section := Section([PREFIX, READER], [], [], CHARSTRINGS, [GLYPH, Plain(CLOSE)])
  const SETTLED: Settings := Settings(-1, RD)

  // ----- where a phrase stands -----

  predicate Lacks(s: seq<byte>, b: byte) { forall i :: 0 <= i < |s| ==> s[i] != b }

  lemma OccursByte(s: seq<byte>, phrase: seq<byte>, j: nat, k: nat)
    requires k < |phrase| && j + |phrase| <= |s|
    ensures Cipher.OccursAt(s, phrase, j) ==> s[j + k] == phrase[k]
  {
    assert s[j..j + |phrase|][k] == s[j + k];
  }

  /** A phrase does not stand where one of its bytes does not. */
  lemma Nowhere(s: seq<byte>, phrase: seq<byte>, k: nat)
    requires k < |phrase| && Lacks(s, phrase[k])
    ensures FirstAt(s, phrase).None? && !Cipher.Contains(s, phrase)
  {
    forall j: nat | j + |phrase| <= |s|
      ensures !Cipher.OccursAt(s, phrase, j)
    {
      OccursByte(s, phrase, j, k);
    }
  }

  /** A phrase first stands behind bytes that lack one of its own. */
  lemma FirstBehind(before: seq<byte>, phrase: seq<byte>, after: seq<byte>, from: nat, k: nat)
    requires k < |phrase| && from <= |before| && Lacks(before[from..] + phrase[..k], phrase[k])
    ensures FirstAt(before + phrase + after, phrase, from) == Some(|before|)
  {
    var s, near := before + phrase + after, before[from..] + phrase[..k];
    assert s[|before|..|before| + |phrase|] == phrase;
    assert Cipher.OccursAt(s, phrase, |before|);
    forall j: nat | from <= j < |before|
      ensures !Cipher.OccursAt(s, phrase, j)
    {
      OccursByte(s, phrase, j, k);
      assert near[j - from + k] == s[j + k];
    }
  }

  // ----- the bytes of the phrases -----

  /** Lower-case letters and spaces, and neither `m` nor `o`. */
  predicate Letters(s: seq<byte>) { forall i :: 0 <= i < |s| ==> s[i] == 32 || (97 <= s[i] && s[i] != 109 && s[i] != 111) }

  lemma ReaderRange()
    ensures |STRING_CURRENTFILE| == 18 && STRING_CURRENTFILE[0] == 115 && STRING_CURRENTFILE[1] == 116
    ensures forall i :: 0 <= i < 18 ==> STRING_CURRENTFILE[i] == 32 || 97 <= STRING_CURRENTFILE[i]
  {}

  lemma ReaderNoM()
    ensures Lacks(STRING_CURRENTFILE, 109)
  {}

  lemma ReaderNoO()
    ensures Lacks(STRING_CURRENTFILE, 111)
  {}

  lemma ReaderLetters()
    ensures |STRING_CURRENTFILE| == 18 && Letters(STRING_CURRENTFILE) && STRING_CURRENTFILE[0] == 115 && STRING_CURRENTFILE[1] == 116
  {
    ReaderRange();
    ReaderNoM();
    ReaderNoO();
    hide STRING_CURRENTFILE;
  }

  lemma ReadStringLetters()
    ensures |READSTRING| == 10 && Letters(READSTRING)
  {}

  lemma SubrsBytes()
    ensures |SUBRS| == 7 && SUBRS[0] == 47 && SUBRS[1] == 83
    ensures forall i :: 2 <= i < 7 ==> SUBRS[i] == 32 || 98 <= SUBRS[i] <= 117
    ensures Lacks(SUBRS, 109) && Lacks(SUBRS, 111) && Lacks(SUBRS, 116)
  {}

  lemma LenIVBytes()
    ensures LEN_IV == LEN_IV_NAME + [32] && |LEN_IV| == 7
    ensures LEN_IV[0] == 47 && LEN_IV[1] == 108 && LEN_IV[2] == 101 && LEN_IV[3] == 110 && LEN_IV[4] == 73 && LEN_IV[5] == 86
  {}

  lemma OpeningBytes()
    ensures |CHARSTRINGS| == 13 && CHARSTRINGS[0] == 47 && CHARSTRINGS[1] == 67 && CHARSTRINGS[12] == 32
    ensures forall i :: 2 <= i < 12 ==> 83 == CHARSTRINGS[i] || 97 <= CHARSTRINGS[i]
    ensures Lacks(CHARSTRINGS, 109) && Lacks(CHARSTRINGS, 111)
  {}

  lemma CloseLetters()
    ensures |CLOSE| == 26 && CLOSE[0] == 109 && CLOSE[4] == 32 && CLOSE[5] == 99
    ensures forall i :: 0 <= i < 26 ==> CLOSE[i] == 32 || (97 <= CLOSE[i] && CLOSE[i] != 103)
  {}

  lemma CloseFirstWord()
    ensures forall i :: 0 <= i < 4 ==> CLOSE[i] != 32
  {}

  lemma CloseHolds()
    ensures |Cipher.CLOSE_PHRASE| == 21 && Cipher.CLOSE_PHRASE[14] == 111 && Cipher.Contains(CLOSE, Cipher.CLOSE_PHRASE)
  {
    assert "mark currentfile closefile"[5..] == "currentfile closefile";
    assert CLOSE[5..26] == Cipher.CLOSE_PHRASE;
    assert Cipher.OccursAt(CLOSE, Cipher.CLOSE_PHRASE, 5);
  }

  // ----- what the head settles -----

  lemma PrefixSettles()
    ensures PlainReads(PREFIX, []) && LineSettings(PREFIX, INITIAL_SETTINGS) == Settings(-1, [])
  {
    LenIVBytes();
    OpeningBytes();
    ReaderRange();
    hide LEN_IV, CHARSTRINGS, STRING_CURRENTFILE;
    assert PREFIX[0..0 + |LEN_IV|] == LEN_IV && PREFIX[7..] == [45, 49] == Decimal(-1);
    assert Span(PREFIX[7..], NotHorizontal) == 2 by { SpanOf([45, 49], [], NotHorizontal); }
    DecimalParses(-1);
    hide ParsedInteger;
  }

  lemma ReaderBytes()
    ensures |READER| == 40 && READER[7] == 47 && READER[8] == 82 && READER[9] == 68 && READER[10] == 32
    ensures Lacks(READER, 10) && Lacks(READER, 13) && Lacks(READER, 67) && Lacks(READER, 86) && Lacks(READER, 109) && Lacks(READER, 111)
  {
    SubrsBytes();
    ReaderLetters();
    ReadStringLetters();
    hide SUBRS, STRING_CURRENTFILE, READSTRING;
  }

  lemma ReaderFound()
    ensures FirstAt(READER, STRING_CURRENTFILE) == Some(11) && FirstAt(READER, READSTRING).Some?
  {
    SubrsBytes();
    ReaderLetters();
    ReadStringLetters();
    hide SUBRS, STRING_CURRENTFILE, READSTRING;
    var before := SUBRS + [47, 82, 68, 32];
    assert before[0..] == before && STRING_CURRENTFILE[..1] == [115];
    FirstBehind(before, STRING_CURRENTFILE, [32] + READSTRING, 0, 1);
    assert READER == before + STRING_CURRENTFILE + ([32] + READSTRING);
    assert READER[30..40] == READSTRING;
    assert Cipher.OccursAt(READER, READSTRING, 30);
  }

  lemma ReaderNames()
    ensures NameAfter(READER, []) == RD
  {
    ReaderFound();
    ReaderBytes();
    hide READER, STRING_CURRENTFILE, READSTRING, FirstAt;
    assert PastSlash(READER, 8) == 8;
    assert PastSlash(READER, 9) == 8;
    assert PastSlash(READER, 10) == 8;
    assert READER[8..11] == RD + [32];
    SpanOf(RD, [32], NameByte);
  }

  lemma ReaderSettles()
    ensures PlainReads(READER, []) && LineSettings(READER, Settings(-1, [])) == SETTLED
  {
    ReaderNames();
    ReaderBytes();
    OpeningBytes();
    LenIVBytes();
    hide READER, CHARSTRINGS, LEN_IV, FirstAt, NameAfter;
    Nowhere(READER, CHARSTRINGS, 1);
    Nowhere(READER, LEN_IV, 5);
  }

  lemma HeadSettles()
    ensures HeadSettings([PREFIX, READER], INITIAL_SETTINGS) == Some(SETTLED)
  {
    PrefixSettles();
    ReaderSettles();
    hide PREFIX, READER, PlainReads, LineSettings;
    assert [PREFIX, READER][1..] == [READER] && [READER][1..] == [];
    assert HeadSettings([], SETTLED) == Some(SETTLED);
    assert HeadSettings([READER], Settings(-1, [])) == Some(SETTLED);
  }

  // ----- the other lines -----

  /** A word, one blank and no digit behind it: no entry begins so. */
  lemma NoEntry(word: seq<byte>, behind: seq<byte>)
    requires word != [] && All(word, WordByte) && behind != [] && !Horizontal(behind[0]) && !Digit(behind[0])
    ensures EntryShape(word + [32] + behind, RD).None?
  {
    var s, at := word + [32] + behind, |word|;
    SpanOf([], s, Horizontal);
    SpanOf(word, [32] + behind, WordByte);
    SpanOf([32], behind, Horizontal);
    SpanOf([], behind, Digit);
    hide Span, Horizontal, WordByte, Digit, All;
    Slices(word, behind);
    NoNumber(s, at);
  }

  lemma Slices(word: seq<byte>, behind: seq<byte>)
    ensures var s := word + [32] + behind;
      [] + s == s == s[0..] == word + ([32] + behind) && s[|word|..] == [32] + behind && s[|word| + 1..] == behind == [] + behind
  {}

  lemma NoNumber(s: seq<byte>, word: nat)
    requires word + 1 < |s| && Horizontal(s[word]) && Span(s, Horizontal) == 0 && Span(s[0..], WordByte) == word
    requires Span(s[word..], Horizontal) == 1 && Span(s[word + 1..], Digit) == 0
    ensures EntryShape(s, RD).None?
  {
    hide Span, Horizontal, WordByte, Digit, All, AllDigits;
  }

  lemma OpeningQuiet()
    ensures Quiet(CHARSTRINGS, SETTLED) && OneLine(CHARSTRINGS)
  {
    OpeningBytes();
    OpeningPhrases();
    OpeningShape();
    hide CHARSTRINGS, LEN_IV, STRING_CURRENTFILE, DICT_DUP_BEGIN, EntryShape, FirstAt;
  }

  lemma OpeningPhrases()
    ensures FirstAt(CHARSTRINGS, CHARSTRINGS) == Some(0) && FirstAt(CHARSTRINGS, DICT_DUP_BEGIN).None?
    ensures FirstAt(CHARSTRINGS, LEN_IV).None? && FirstAt(CHARSTRINGS, STRING_CURRENTFILE).None?
  {
    OpeningBytes();
    LenIVBytes();
    ReaderRange();
    assert |DICT_DUP_BEGIN| == 14;
    hide CHARSTRINGS, LEN_IV, STRING_CURRENTFILE, DICT_DUP_BEGIN;
    assert CHARSTRINGS[0..0 + 13] == CHARSTRINGS;
    Nowhere(CHARSTRINGS, LEN_IV, 5);
  }

  lemma OpeningShape()
    ensures EntryShape(CHARSTRINGS + [LF], RD).None?
  {
    OpeningBytes();
    hide CHARSTRINGS;
    assert CHARSTRINGS + [LF] == CHARSTRINGS[..12] + [32] + [LF];
    NoEntry(CHARSTRINGS[..12], [LF]);
  }

  lemma CloseQuiet()
    ensures Quiet(CLOSE, SETTLED) && LineOK(Plain(CLOSE), false)
  {
    CloseLetters();
    OpeningBytes();
    LenIVBytes();
    ReaderG();
    CloseShape();
    hide CLOSE, CHARSTRINGS, LEN_IV, STRING_CURRENTFILE, FirstAt, EntryShape;
    Nowhere(CLOSE, CHARSTRINGS, 1);
    Nowhere(CLOSE, LEN_IV, 5);
    Nowhere(CLOSE, STRING_CURRENTFILE, 5);
    assert CLOSE == [] + CLOSE;
    SpanOf([], CLOSE, Horizontal);
  }

  lemma ReaderG()
    ensures |STRING_CURRENTFILE| == 18 && STRING_CURRENTFILE[5] == 103
  {}

  lemma CloseShape()
    ensures EntryShape(CLOSE + [LF], RD).None?
  {
    CloseLetters();
    CloseFirstWord();
    hide CLOSE;
    assert CLOSE + [LF] == CLOSE[..4] + [32] + (CLOSE[5..] + [LF]);
    NoEntry(CLOSE[..4], CLOSE[5..] + [LF]);
  }

  /** The sample is in the printed form. */
  lemma SampleIsPrinted()
    ensures PrintedForm(SAMPLE, -1) && AllClosed(SAMPLE.subrs) && AllClosed(SAMPLE.glyphs)
  {
    HeadSettles();
    OpeningQuiet();
    CloseQuiet();
    hide PREFIX, READER, CHARSTRINGS, CLOSE, Quiet, HeadSettings, PlainReads;
    assert [] + CHARSTRINGS == CHARSTRINGS;
    assert EntryBrace([], true).None?;
    assert LineOK(GLYPH, false);
  }

  // ----- where its parts stand -----

  const HEADS: seq<byte> := PREFIX + [LF] + (READER + [LF])
  const PRINTED_GLYPH: seq<byte> := PrintedLine(GLYPH, false)
  const STORED_GLYPH: seq<byte> := StoredLine(GLYPH, false, -1)

  /** Its lines as they are printed and as they are stored. */
  lemma SampleText()
    ensures SectionText(SAMPLE) == HEADS + (CHARSTRINGS + [LF]) + PRINTED_GLYPH + CLOSE + [LF]
    ensures SectionStored(SAMPLE, -1) == HEADS + (CHARSTRINGS + [LF]) + STORED_GLYPH + CLOSE + [LF]
    ensures SubrEntriesAt(SAMPLE) == CharStringsAt(SAMPLE) == |HEADS| && GlyphEntriesAt(SAMPLE) == |HEADS| + |CHARSTRINGS| + 1
  {
    HeadText();
    GlyphLines();
    hide HEADS, CHARSTRINGS, CLOSE, PRINTED_GLYPH, STORED_GLYPH, PREFIX, READER, PlainText;
    assert PrintedLines([], true) == StoredLines([], true, -1) == [];
    hide PrintedLines, StoredLines;
    Together(HEADS, CHARSTRINGS, PRINTED_GLYPH, CLOSE + [LF]);
    Together(HEADS, CHARSTRINGS, STORED_GLYPH, CLOSE + [LF]);
    Assoc(HEADS + (CHARSTRINGS + [LF]) + PRINTED_GLYPH, CLOSE, [LF]);
    Assoc(HEADS + (CHARSTRINGS + [LF]) + STORED_GLYPH, CLOSE, [LF]);
  }

  lemma Together(head: seq<byte>, opening: seq<byte>, glyph: seq<byte>, last: seq<byte>)
    ensures head + [] + ([] + opening + [LF]) + (glyph + last) == head + (opening + [LF]) + glyph + last
  {}

  lemma HeadText()
    ensures PlainText([PREFIX, READER]) == HEADS
  {
    hide PREFIX, READER;
    assert [PREFIX, READER][1..] == [READER] && [READER][1..] == [];
    assert PlainText([READER]) == READER + [LF] by { assert PlainText([]) == []; }
  }

  lemma GlyphLines()
    ensures PrintedLines([GLYPH, Plain(CLOSE)], false) == PRINTED_GLYPH + (CLOSE + [LF])
    ensures StoredLines([GLYPH, Plain(CLOSE)], false, -1) == STORED_GLYPH + (CLOSE + [LF])
  {
    hide CLOSE;
    var lines := [GLYPH, Plain(CLOSE)];
    assert lines[1..] == [Plain(CLOSE)] && [Plain(CLOSE)][1..] == [];
    assert PrintedLine(Plain(CLOSE), false) == StoredLine(Plain(CLOSE), false, -1) == CLOSE + [LF];
    hide PrintedLine, StoredLine;
    assert PrintedLines([Plain(CLOSE)], false) == CLOSE + [LF] by { assert PrintedLines([], false) == []; }
    assert StoredLines([Plain(CLOSE)], false, -1) == CLOSE + [LF] by { assert StoredLines([], false, -1) == []; }
  }

  lemma EndCharLacks()
    ensures Lacks(Name(EndChar), 109)
  {}

  lemma PrintedGlyphLacks()
    ensures Lacks(PRINTED_GLYPH, 109)
  {
    EndCharLacks();
    hide Name;
    assert [Command(EndChar)][1..] == [];
    assert Printed([Command(EndChar)], true) == [9] + Name(EndChar) + [10] + Printed([], true);
    assert Lacks(Printed([Command(EndChar)], true), 109);
    hide Printed;
  }

  lemma StoredGlyphBytes()
    ensures STORED_GLYPH == [47, 97, 32, 49] + READ + [14] + [32, 78, 68, 10]
  {
    StoredEndChar();
    hide Stored;
    assert HeaderText(GLYPH.header) == [47, 97] && Digits(1) == [49] && ClosingText(false, []) == [32, 78, 68, 10];
    hide HeaderText, Digits, ClosingText, READ;
    assert STORED_GLYPH == [47, 97] + [SPACE] + [49] + READ + [14] + [32, 78, 68, 10];
    assert [47, 97] + [SPACE] + [49] == [47, 97, 32, 49];
  }

  lemma StoredEndChar()
    ensures Stored([Command(EndChar)], -1) == [14]
  {
    var items := [Command(EndChar)];
    hide Printed;
    PrintedAssembles(items, true, []);
    assert items[1..] == [];
    assert Codes(items) == [14] by { assert Codes([]) == [] && Code(items[0]) == [14]; }
    assert Printed(items, true) + [] == Printed(items, true) && Codes(items) + [] == Codes(items);
  }

  lemma HeadBytes()
    ensures |HEADS| == 51 && HEADS == PREFIX + [LF] + READER + [LF] && |PREFIX| == 9 && Lacks(HEADS, 109) && Lacks(HEADS, 111)
    ensures HEADS[..10] == PREFIX + [LF] && HEADS[10..] == READER + [LF] && Lacks(PREFIX, 83)
  {
    LenIVBytes();
    ReaderBytes();
    assert LEN_IV[6] == 32;
    hide LEN_IV, READER;
  }

  /** Where the assembler finds the parts. */
  lemma SampleParts(close: nat)
    requires close == |HEADS + (CHARSTRINGS + [LF]) + PRINTED_GLYPH|
    ensures FindParts(SectionText(SAMPLE)) == Some(Parts(10, 51, close))
  {
    SampleText();
    HeadBytes();
    SubrsBytes();
    OpeningBytes();
    CloseLetters();
    PrintedGlyphLacks();
    ReaderBytes();
    hide HEADS, PREFIX, READER, CHARSTRINGS, CLOSE, SUBRS, PRINTED_GLYPH, SectionText, FirstAt;
    var before := HEADS + (CHARSTRINGS + [LF]) + PRINTED_GLYPH;
    assert before[0..] + CLOSE[..0] == before;
    FirstBehind(before, CLOSE, [LF], 0, 0);
    assert SectionText(SAMPLE)[..close] == before;
    SubrsFound(before);
    OpeningFound(before);
  }

  lemma SubrsFound(text: seq<byte>)
    requires text == HEADS + (CHARSTRINGS + [LF]) + PRINTED_GLYPH
    ensures FirstAt(text, SUBRS) == Some(10)
  {
    HeadBytes();
    SubrsBytes();
    ReaderSplits();
    hide SUBRS, PREFIX, CHARSTRINGS, PRINTED_GLYPH, HEADS, READER;
    var before := PREFIX + [LF];
    assert before[0..] + SUBRS[..1] == before + [47];
    FirstBehind(before, SUBRS, READER[7..] + [LF] + ((CHARSTRINGS + [LF]) + PRINTED_GLYPH), 0, 1);
    Joins(before, SUBRS, READER[7..], (CHARSTRINGS + [LF]) + PRINTED_GLYPH);
    Assoc(HEADS, CHARSTRINGS + [LF], PRINTED_GLYPH);
  }

  lemma ReaderSplits()
    ensures |READER| >= 7 && READER == SUBRS + READER[7..]
  {
    SubrsBytes();
    hide SUBRS, STRING_CURRENTFILE, READSTRING;
  }

  lemma Joins(before: seq<byte>, a: seq<byte>, b: seq<byte>, after: seq<byte>)
    ensures before + (a + b) + [LF] + after == before + a + (b + [LF] + after)
  {}

  lemma OpeningFound(text: seq<byte>)
    requires text == HEADS + (CHARSTRINGS + [LF]) + PRINTED_GLYPH
    ensures FirstAt(text, CHARSTRINGS, 10) == Some(51)
  {
    HeadBytes();
    ReaderBytes();
    OpeningBytes();
    hide HEADS, PREFIX, READER, CHARSTRINGS, PRINTED_GLYPH;
    assert HEADS[10..] + CHARSTRINGS[..1] == READER + [LF] + [47];
    FirstBehind(HEADS, CHARSTRINGS, [LF] + PRINTED_GLYPH, 10, 1);
    assert text == HEADS + CHARSTRINGS + ([LF] + PRINTED_GLYPH);
  }

  lemma SampleIsLocated(close: nat)
    requires close == |HEADS + (CHARSTRINGS + [LF]) + PRINTED_GLYPH|
    ensures Located(SAMPLE, [], Parts(10, 51, close)) && PrivateLenIV((SectionText(SAMPLE) + [])[..10]) == Some(-1)
  {
    SampleParts(close);
    SampleText();
    HeadBytes();
    ReaderBytes();
    OpeningQuiet();
    CloseLetters();
    PrefixLenIV();
    hide HEADS, PREFIX, READER, CHARSTRINGS, CLOSE, PRINTED_GLYPH, FindParts, SectionText, Quiet, SubrEntriesAt, CharStringsAt, GlyphEntriesAt, PrivateLenIV;
    PartSlices(HEADS, (CHARSTRINGS + [LF]) + PRINTED_GLYPH, CLOSE, READER);
    Assoc(HEADS, CHARSTRINGS + [LF], PRINTED_GLYPH);
  }

  lemma PartSlices(heads: seq<byte>, lines: seq<byte>, close: seq<byte>, reader: seq<byte>)
    requires |heads| == 51 && heads[10..] == reader + [LF] && |close| == 26
    ensures var text, at := heads + lines + close + [LF], |heads + lines|;
      text + [] == text && text[10..50] == reader && text[..10] == heads[..10] && text[at + 26..|text| - 1] == []
  {
    assert heads[10..][..40] == reader;
  }

  lemma PrefixLenIV()
    ensures PrivateLenIV(PREFIX + [LF]) == Some(-1)
  {
    LenIVBytes();
    hide LEN_IV, LEN_IV_NAME;
    var text := PREFIX + [LF];
    assert text[0..6] == LEN_IV_NAME;
    assert text[6..] == [32] + [45, 49, 10] && text[7..] == [45, 49] + [10] && [45, 49] == Decimal(-1);
    SpanOf([32], [45, 49, 10], Blank);
    SpanOf([45, 49], [10], NotBlank);
    DecimalParses(-1);
    hide ParsedInteger, Span;
    assert ([45, 49] + [10])[..2] == [45, 49];
  }

  // ----- where it ends once stored -----

  /** Lines that lack a byte of the closing phrase do not close the section: the closing line behind them does. */
  lemma ClosesLast(lines: seq<byte>, close: seq<byte>)
    requires lines != [] && lines[|lines| - 1] == LF && OneLine(close) && Lacks(lines, 111)
    requires Cipher.Contains(close, Cipher.CLOSE_PHRASE)
    ensures Cipher.SectionEnd(lines + close + [LF], |lines + close + [LF]|)
  {
    hide Cipher.Contains;
    var s, last := lines + close + [LF], |lines| + |close|;
    var start := Cipher.LineStart(s, last);
    assert s[|lines| - 1] == LF;
    assert forall i :: |lines| <= i < last ==> s[i] == close[i - |lines|];
    assert start == |lines| && s[start..last] == close;
    forall j: nat | j < last
      ensures !Cipher.ClosesAt(s, j)
    {
      if j < |lines| { LineOpen(lines, s, j); }
    }
    assert Cipher.FirstClose(s, last) && Cipher.AfterTerminator(s, last) == |s|;
  }

  lemma LineOpen(lines: seq<byte>, s: seq<byte>, j: nat)
    requires lines <= s && j < |lines| && Lacks(lines, 111)
    ensures !Cipher.ClosesAt(s, j)
  {
    CloseHolds();
    var line := s[Cipher.LineStart(s, j)..j];
    assert line == lines[Cipher.LineStart(s, j)..j];
    Nowhere(line, Cipher.CLOSE_PHRASE, 14);
  }

  lemma StoredLacks()
    ensures var lines := HEADS + (CHARSTRINGS + [LF]) + STORED_GLYPH;
      lines != [] && lines[|lines| - 1] == LF && Lacks(lines, 111)
  {
    HeadBytes();
    OpeningBytes();
    StoredGlyphBytes();
    hide HEADS, CHARSTRINGS, STORED_GLYPH;
    assert Lacks(STORED_GLYPH, 111) && STORED_GLYPH[|STORED_GLYPH| - 1] == LF;
  }

  lemma CloseOneLine()
    ensures OneLine(CLOSE)
  {
    CloseLetters();
    hide CLOSE;
  }

  lemma SampleEnds()
    ensures Cipher.SectionEnd(SectionStored(SAMPLE, -1), |SectionStored(SAMPLE, -1)|)
  {
    hide HEADS, CHARSTRINGS, STORED_GLYPH, CLOSE, SectionStored, Cipher.SectionEnd, Cipher.Contains, Lacks;
    SampleText();
    StoredLacks();
    CloseOneLine();
    CloseHolds();
    ClosesLast(HEADS + (CHARSTRINGS + [LF]) + STORED_GLYPH, CLOSE);
  }

  /** The sample meets everything the round trip asks, so it assembles, and deciphered and disassembled it is
      the text it was. */
  lemma SampleRoundTrip() returns (close: nat)
    ensures PrintedForm(SAMPLE, -1) && Located(SAMPLE, [], Parts(10, 51, close))
    ensures AssembledPrivate(SectionText(SAMPLE)) == Some(SectionStored(SAMPLE, -1))
    ensures Cipher.SectionEnd(SectionStored(SAMPLE, -1), |SectionStored(SAMPLE, -1)|)
    ensures var cipher := Cipher.Encrypted(Zeros(4) + SectionStored(SAMPLE, -1), Cipher.EEXEC_KEY);
      DisassembledPrivate(Cipher.Body(cipher), INITIAL_SETTINGS) == Some(SectionText(SAMPLE))
  {
    hide PrintedForm, Located, SectionText, SectionStored, AssembledPrivate, DisassembledPrivate, PrivateLenIV, AllClosed,
      Cipher.SectionEnd, Cipher.Encrypted, Cipher.Body, HEADS, CHARSTRINGS, PRINTED_GLYPH;
    close := |HEADS + (CHARSTRINGS + [LF]) + PRINTED_GLYPH|;
    SampleIsPrinted();
    SampleIsLocated(close);
    SampleEnds();
    assert SectionText(SAMPLE) + [] == SectionText(SAMPLE);
    SectionAssembles(SAMPLE, -1, [], Parts(10, 51, close));
    SectionDisassembles(SAMPLE, -1);
    Cipher.EexecWholeSection(Zeros(4), SectionStored(SAMPLE, -1));
  }
}
