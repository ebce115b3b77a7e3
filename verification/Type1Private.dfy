/** The private section: entries assembled from their printed text, and disassembled from their bytes. */
module Type1Private {
  import opened Bytes
  import opened Type1Numbers
  import opened Type1Charstring
  import Cipher = Type1Cipher

  const LF: byte := 10
  const CR: byte := 13
  const BRACE: byte := 123
  const CLOSING: byte := 125
  const SLASH: byte := 47
  const DUP: seq<byte> := [100, 117, 112]           // "dup"
  const OPEN: seq<byte> := [32, 123, 10]            // " {" and a newline
  const SHUT: seq<byte> := [9, 125]                 // tab and "}"
  const RD: seq<byte> := [82, 68]                   // "RD"
  const READ: seq<byte> := [32, 82, 68, 32]         // " RD "

  /** The word an entry's last line closes with: "NP" for a subroutine, "ND" for a glyph. */
  function Terminator(subroutine: bool): (t: seq<byte>)
    ensures |t| == 2
  {
    if subroutine then [78, 80] else [78, 68]
  }

  /** type1_horizontal_space. */
  predicate Horizontal(b: byte) { b == 32 || b == 9 || b == 13 || b == 12 }

  predicate NotHorizontal(b: byte) { !Horizontal(b) }

  predicate WordByte(b: byte) { !Horizontal(b) && b != LF }

  predicate NameByte(b: byte) { !Horizontal(b) && b != BRACE }

  predicate All(s: seq<byte>, p: byte -> bool) { forall i :: 0 <= i < |s| ==> p(s[i]) }

  /** How far a run of bytes of one sort goes. */
  function Span(s: seq<byte>, p: byte -> bool): (n: nat)
    ensures n <= |s|
    ensures All(s[..n], p)
    ensures n < |s| ==> !p(s[n])
  {
    if s == [] || !p(s[0]) then 0 else 1 + Span(s[1..], p)
  }

  lemma {:induction false} SpanOf(word: seq<byte>, rest: seq<byte>, p: byte -> bool)
    requires All(word, p)
    requires rest == [] || !p(rest[0])
    ensures Span(word + rest, p) == |word|
  {
    if word == [] {
      assert word + rest == rest;
    } else {
      assert word[0] == (word + rest)[0] && p(word[0]);
      assert (word + rest)[1..] == word[1..] + rest;
      SpanOf(word[1..], rest, p);
    }
  }

  /** What lies behind the byte a run stops at has no say in it. */
  lemma {:induction false} SpanLocal(s: seq<byte>, rest: seq<byte>, p: byte -> bool)
    requires Span(s, p) < |s|
    ensures Span(s + rest, p) == Span(s, p)
  {
    if p(s[0]) {
      assert (s + rest)[1..] == s[1..] + rest;
      SpanLocal(s[1..], rest, p);
    }
  }

  // ----- headers -----

  /** type1_header_tail: nothing but blanks or a comment behind the brace. */
  predicate HeaderTail(s: seq<byte>) {
    var n := Span(s, Horizontal);
    n == |s| || s[n] == PERCENT
  }

  /** Where the brace stands behind a header that ends at `at`. */
  function BraceAt(line: seq<byte>, at: nat): Option<nat>
    requires at <= |line|
  {
    var brace := at + Span(line[at..], Horizontal);
    if brace < |line| && line[brace] == BRACE && HeaderTail(line[brace + 1..]) then Some(brace) else None
  }

  /** type1_subr_brace. */
  function SubrBrace(line: seq<byte>): (brace: Option<nat>)
    ensures brace.Some? ==> brace.value < |line| && line[brace.value] == BRACE
  {
    var at := Span(line, Horizontal);
    if |line| - at < 3 || line[at..at + 3] != DUP then None else BehindDup(line, at + 3)
  }

  /** A blank and a number must stand between `dup` and the brace. */
  function BehindDup(line: seq<byte>, at: nat): (brace: Option<nat>)
    requires at <= |line|
    ensures brace.Some? ==> brace.value < |line| && line[brace.value] == BRACE
  {
    var gap := Span(line[at..], Horizontal);
    if gap == 0 then None
    else
      var number := Span(line[at + gap..], Digit);
      if number == 0 then None else BraceAt(line, at + gap + number)
  }

  /** type1_glyph_brace. */
  function GlyphBrace(line: seq<byte>): (brace: Option<nat>)
    ensures brace.Some? ==> brace.value < |line| && line[brace.value] == BRACE
  {
    var at := Span(line, Horizontal);
    if at == |line| || line[at] != SLASH then None
    else
      var name := Span(line[at + 1..], NameByte);
      if name == 0 then None else BraceAt(line, at + 1 + name)
  }

  function EntryBrace(line: seq<byte>, subroutine: bool): (brace: Option<nat>)
    ensures brace.Some? ==> brace.value < |line| && line[brace.value] == BRACE
  {
    if subroutine then SubrBrace(line) else GlyphBrace(line)
  }

  // ----- the assembler -----

  /** type1_line_content_finish. */
  function LineContent(s: seq<byte>): (n: nat)
    ensures n <= LineAfter(s)
  {
    var after := LineAfter(s);
    var n := if after > 0 && s[after - 1] == LF then after - 1 else after;
    if n > 0 && s[n - 1] == CR then n - 1 else n
  }

  /** Where a closing line's brace stands, past its terminator, and past the line. */
  datatype Closing = Closing(brace: nat, afterTerminator: nat, afterLine: nat)

  function ClosingLine(s: seq<byte>, terminator: seq<byte>): (c: Option<Closing>)
    requires |terminator| == 2
    ensures c.Some? ==> c.value.brace < c.value.afterTerminator <= c.value.afterLine == LineAfter(s)
  {
    var content := s[..LineContent(s)];
    var at := Span(content, Horizontal);
    if at == |content| || content[at] != CLOSING then None
    else
      var name := at + 1 + Span(content[at + 1..], Horizontal);
      if |content| - name >= 2 && content[name..name + 2] == terminator
         && (name + 2 == |content| || Horizontal(content[name + 2]) || content[name + 2] == PERCENT)
      then Some(Closing(at, name + 2, LineAfter(s))) else None
  }

  /** type1_find_entry_finish: the first closing line from here on. */
  function EntryFinish(s: seq<byte>, terminator: seq<byte>): (c: Option<Closing>)
    requires |terminator| == 2
    ensures c.Some? ==> c.value.brace < c.value.afterTerminator <= c.value.afterLine <= |s|
    decreases |s|
  {
    if s == [] then None
    else
      var here := ClosingLine(s, terminator);
      if here.Some? then here
      else
        var n := LineAfter(s);
        var later := EntryFinish(s[n..], terminator);
        if later.None? then None
        else Some(Closing(later.value.brace + n, later.value.afterTerminator + n, later.value.afterLine + n))
  }

  /** The stored entry type1_append_entry writes. */
  function StoredEntry(header: seq<byte>, code: seq<byte>, terminator: seq<byte>, tail: seq<byte>): seq<byte> {
    header + (if header != [] && !Horizontal(header[|header| - 1]) then [SPACE] else [])
    + Digits(|code|) + READ + code + [SPACE] + terminator + tail
  }

  /** type1_transform_entries. */
  function Transformed(text: seq<byte>, subroutines: bool, lenIV: int): Option<seq<byte>>
    decreases |text|
  {
    if text == [] then Some([])
    else
      var n := LineAfter(text);
      var brace := EntryBrace(text[..LineContent(text)], subroutines);
      if brace.None? then Prefixed(text[..n], Transformed(text[n..], subroutines, lenIV))
      else AfterBrace(text[..brace.value], text[brace.value + 1..], subroutines, lenIV)
  }

  /** type1_append_entry and what follows it: the header before an opening brace, the text behind it. */
  function AfterBrace(header: seq<byte>, inside: seq<byte>, subroutines: bool, lenIV: int): Option<seq<byte>>
    decreases |inside|
  {
    var finish := EntryFinish(inside, Terminator(subroutines));
    if finish.None? then None
    else
      var code := Enciphered(inside[..finish.value.brace], lenIV);
      if code.None? then None
      else
        var stored := StoredEntry(header, code.value, Terminator(subroutines),
                                  inside[finish.value.afterTerminator..finish.value.afterLine]);
        Prefixed(stored, Transformed(inside[finish.value.afterLine..], subroutines, lenIV))
  }

  /** type1_transform_entries, its loop over lines. */
  method TransformEntries(text: seq<byte>, subroutines: bool, lenIV: int) returns (result: Option<seq<byte>>)
    ensures result == Transformed(text, subroutines, lenIV)
  {
    hide LineAfter, LineContent, EntryBrace, AfterBrace, Transformed, Prefixed;
    var output: seq<byte> := [];
    var rest := text;
    PrefixedEmpty(Transformed(text, subroutines, lenIV));
    while rest != []
      invariant Transformed(text, subroutines, lenIV) == Prefixed(output, Transformed(rest, subroutines, lenIV))
      decreases |rest|
    {
      TransformedStep(rest, subroutines, lenIV);
      var brace := EntryBrace(rest[..LineContent(rest)], subroutines);
      if brace.None? {
        var n := LineAfter(rest);
        PrefixedTwice(output, rest[..n], Transformed(rest[n..], subroutines, lenIV));
        output := output + rest[..n];
        rest := rest[n..];
      } else {
        var entry := AppendEntry(rest[..brace.value], rest[brace.value + 1..], subroutines, lenIV);
        if entry.None? {
          TransformedEnd(output, subroutines, lenIV);
          return None;
        }
        var (piece, next) := entry.value;
        PrefixedTwice(output, piece, Transformed(next, subroutines, lenIV));
        output := output + piece;
        rest := next;
      }
    }
    TransformedEnd(output, subroutines, lenIV);
    result := Some(output);
  }

  /** One turn of the loop over lines. */
  lemma TransformedStep(text: seq<byte>, subroutines: bool, lenIV: int)
    requires text != []
    ensures LineAfter(text) > 0
    ensures var brace := EntryBrace(text[..LineContent(text)], subroutines);
      Transformed(text, subroutines, lenIV)
      == if brace.None? then Prefixed(text[..LineAfter(text)], Transformed(text[LineAfter(text)..], subroutines, lenIV))
         else AfterBrace(text[..brace.value], text[brace.value + 1..], subroutines, lenIV)
  {
    hide LineAfter, LineContent, EntryBrace, AfterBrace;
  }

  lemma TransformedEnd(output: seq<byte>, subroutines: bool, lenIV: int)
    ensures Prefixed(output, Transformed([], subroutines, lenIV)) == Some(output)
    ensures Prefixed(output, None) == None
  {
    assert output + [] == output;
  }

  /** type1_append_entry: the stored entry and the text behind it. */
  method AppendEntry(header: seq<byte>, inside: seq<byte>, subroutines: bool, lenIV: int)
    returns (entry: Option<(seq<byte>, seq<byte>)>)
    ensures AfterBrace(header, inside, subroutines, lenIV)
         == if entry.None? then None else Prefixed(entry.value.0, Transformed(entry.value.1, subroutines, lenIV))
    ensures entry.Some? ==> |entry.value.1| <= |inside|
  {
    hide StoredEntry, Enciphered, Transformed;
    var finish := FindEntryFinish(inside, Terminator(subroutines));
    if finish.None? {
      return None;
    }
    var code := EncodeCharstring(inside[..finish.value.brace], lenIV);
    if code.None? {
      return None;
    }
    entry := Some((StoredEntry(header, code.value, Terminator(subroutines),
                               inside[finish.value.afterTerminator..finish.value.afterLine]),
                   inside[finish.value.afterLine..]));
  }

  lemma PrefixedEmpty(r: Option<seq<byte>>)
    ensures Prefixed([], r) == r
  {
    if r.Some? { assert [] + r.value == r.value; }
  }

  method FindEntryFinish(s: seq<byte>, terminator: seq<byte>) returns (finish: Option<Closing>)
    requires |terminator| == 2
    ensures finish == EntryFinish(s, terminator)
  {
    hide LineAfter, ClosingLine;
    var at: nat := 0;
    var rest := s;
    while rest != []
      invariant EntryFinish(s, terminator) == Shifted(EntryFinish(rest, terminator), at)
      decreases |rest|
    {
      var here := ClosingLine(rest, terminator);
      if here.Some? {
        return Shifted(here, at);
      }
      at := at + LineAfter(rest);
      rest := rest[LineAfter(rest)..];
    }
    return None;
  }

  function Shifted(c: Option<Closing>, offset: nat): Option<Closing> {
    if c.None? then None
    else Some(Closing(c.value.brace + offset, c.value.afterTerminator + offset, c.value.afterLine + offset))
  }

  /** type1_encode_charstring into a buffer of its own. */
  method EncodeCharstring(text: seq<byte>, lenIV: int) returns (cipher: Option<seq<byte>>)
    ensures cipher == Enciphered(text, lenIV)
  {
    hide Assembled;
    if lenIV < -1 {
      return None;
    }
    var code := Assemble(text);
    if code.None? || lenIV == -1 {
      return code;
    }
    var plain := Zeros(lenIV) + code.value;
    var bytes := new byte[|plain|](i requires 0 <= i < |plain| => plain[i]);
    assert bytes[..] == plain;
    Cipher.EncryptInPlace(bytes, Cipher.CHARSTRING_KEY);
    cipher := Some(bytes[..]);
  }

  // ----- the disassembler -----

  /** An entry as it lies in the plain section: where its header ends, where its data begin, and how
      long the data say they are. */
  datatype Found = Found(prefix: nat, data: nat, length: nat)

  /** The header of type1_disassembly_entry: up to and past the reading word, whatever follows. A
      second number, where one stands, is the length and the first belongs to the header. */
  function EntryShape(s: seq<byte>, name: seq<byte>): (f: Option<Found>)
    ensures f.Some? ==> f.value.prefix <= f.value.data <= |s| && f.value.data > 0
  {
    if name == [] then None
    else
      var lead := Span(s, Horizontal);
      var word := lead + Span(s[lead..], WordByte);
      if word == |s| || !Horizontal(s[word]) then None else BehindWord(s, word, name)
  }

  /** Behind the first word: a number must stand there. */
  function BehindWord(s: seq<byte>, word: nat, name: seq<byte>): (f: Option<Found>)
    requires word < |s|
    ensures f.Some? ==> f.value.prefix <= f.value.data <= |s| && f.value.data > 0
  {
    var digits := word + Span(s[word..], Horizontal);
    var first := LeadingNumber(s[digits..]);
    if first == [] then None else BehindNumber(s, word, first, digits + |first|, name)
  }

  /** Behind the first number: a second one, where it stands, is the length. */
  function BehindNumber(s: seq<byte>, word: nat, first: seq<byte>, after: nat, name: seq<byte>): (f: Option<Found>)
    requires word <= after <= |s| && AllDigits(first)
    ensures f.Some? ==> f.value.prefix <= f.value.data <= |s| && f.value.data > 0
  {
    var next := after + Span(s[after..], Horizontal);
    var second := LeadingNumber(s[next..]);
    if next > after && second != []
    then ReadingWord(s, after, second, next + |second|, name)
    else ReadingWord(s, word, first, after, name)
  }

  function LeadingNumber(s: seq<byte>): (number: seq<byte>)
    ensures AllDigits(number) && |number| <= |s|
  {
    var n := Span(s, Digit);
    assert forall i :: 0 <= i < n ==> Digit(s[..n][i]);
    s[..n]
  }

  /** The space, the reading word and the space behind a length that ends at `at`. */
  function ReadingWord(s: seq<byte>, prefix: nat, number: seq<byte>, at: nat, name: seq<byte>): (f: Option<Found>)
    requires prefix <= at <= |s| && AllDigits(number)
    ensures f.Some? ==> f.value.prefix <= f.value.data <= |s| && f.value.data > 0
  {
    if |s| - at < |name| + 2 || s[at..at + |name| + 2] != [SPACE] + name + [SPACE] then None
    else Some(Found(prefix, at + |name| + 2, DigitsValue(number)))
  }

  /** type1_disassembly_entry. */
  function EntryMatch(s: seq<byte>, name: seq<byte>): (f: Option<Found>)
    ensures f.Some? ==> f.value.prefix <= f.value.data && 0 < f.value.data && f.value.data + f.value.length <= |s|
  {
    var f := EntryShape(s, name);
    if f.Some? && f.value.length <= |s| - f.value.data then f else None
  }

  /** type1_text_line_after: where the content of a line ends. */
  function TextContent(s: seq<byte>): (n: nat)
    ensures n <= |s|
    ensures forall i :: 0 <= i < n ==> !Cipher.Terminator(s[i])
    ensures n < |s| ==> Cipher.Terminator(s[n])
  {
    if s == [] || Cipher.Terminator(s[0]) then 0 else 1 + TextContent(s[1..])
  }

  /** And where the next line begins, a CR and LF together ending one line. */
  function TextAfter(s: seq<byte>): (n: nat)
    ensures TextContent(s) <= n <= |s|
    ensures TextContent(s) < |s| ==> n > TextContent(s)
    ensures s != [] ==> n > 0
  {
    var n := TextContent(s);
    if n == |s| then n
    else if s[n] == CR && n + 1 < |s| && s[n + 1] == LF then n + 2
    else n + 1
  }

  /** A line's content and, where it was ended, one newline. */
  function NormalLine(s: seq<byte>): seq<byte> {
    s[..TextContent(s)] + (if TextContent(s) < |s| then [LF] else [])
  }

  // ----- what a plain line tells the disassembler -----

  const LEN_IV: seq<byte> := Ascii("/lenIV ")
  const STRING_CURRENTFILE: seq<byte> := Ascii("string currentfile")
  const READSTRING: seq<byte> := Ascii("readstring")
  const CHARSTRINGS: seq<byte> := Ascii("/CharStrings ")
  const DICT_DUP_BEGIN: seq<byte> := Ascii("dict dup begin")

  /** The first place from `from` on where a phrase stands. */
  function FirstAt(s: seq<byte>, phrase: seq<byte>, from: nat := 0): (k: Option<nat>)
    ensures k.Some? ==> from <= k.value && Cipher.OccursAt(s, phrase, k.value)
    ensures k.Some? ==> forall j: nat :: from <= j < k.value ==> !Cipher.OccursAt(s, phrase, j)
    ensures k.None? ==> forall j: nat :: from <= j ==> !Cipher.OccursAt(s, phrase, j)
    decreases |s| - from
  {
    if from + |phrase| > |s| then None
    else if s[from..from + |phrase|] == phrase then Some(from)
    else if from == |s| then None
    else FirstAt(s, phrase, from + 1)
  }

  datatype Settings = Settings(lenIV: int, name: seq<byte>)

  const INITIAL_SETTINGS := Settings(4, [])

  /** The lenIV a line sets, or the one there was. */
  function LenIVAfter(line: seq<byte>, lenIV: int): int {
    var k := FirstAt(line, LEN_IV);
    if k.None? then lenIV
    else
      var number := line[k.value + |LEN_IV|..];
      var parsed := ParsedInteger(number[..Span(number, NotHorizontal)]);
      if parsed.Some? then parsed.value else lenIV
  }

  /** Just past the last slash before `at`, or zero where there is none. */
  function PastSlash(line: seq<byte>, at: nat): (k: nat)
    requires at <= |line|
    ensures k <= at
  {
    if at == 0 || line[at - 1] == SLASH then at else PastSlash(line, at - 1)
  }

  /** The reading word a line defines, or the one there was. */
  function NameAfter(line: seq<byte>, name: seq<byte>): seq<byte> {
    var reader := FirstAt(line, STRING_CURRENTFILE);
    if reader.None? || FirstAt(line, READSTRING).None? then name
    else
      var start := PastSlash(line, reader.value);
      if start == 0 then name
      else
        var length := Span(line[start..reader.value], NameByte);
        if length == 0 || length >= 64 then name else line[start..start + length]
  }

  /** type1_disassembly_settings. */
  function LineSettings(line: seq<byte>, settings: Settings): Settings {
    Settings(LenIVAfter(line, settings.lenIV), NameAfter(line, settings.name))
  }

  /** type1_inline_charstrings: an entry begun on the line that opens its dictionary. */
  function InlineEntry(line: seq<byte>): (k: Option<nat>)
    ensures k.Some? ==> 0 < k.value < |line|
  {
    var header := FirstAt(line, CHARSTRINGS);
    if header.None? then None
    else
      var begin := FirstAt(line, DICT_DUP_BEGIN, header.value);
      if begin.None? then None
      else
        var k := begin.value + |DICT_DUP_BEGIN|;
        var at := k + Span(line[k..], Blank);
        if at < |line| && line[at] == SLASH then Some(at) else None
  }

  /** type1_disassemble_private. */
  function DisassembledPrivate(s: seq<byte>, settings: Settings): Option<seq<byte>>
    decreases |s|
  {
    if s == [] then Some([])
    else
      var entry := EntryMatch(s, settings.name);
      if entry.Some? then
        var Found(prefix, data, length) := entry.value;
        var text := Disassembled(s[data..data + length], settings.lenIV);
        if text.None? then None
        else
          var rest := s[data + length..];
          Prefixed(s[..prefix] + OPEN + text.value + SHUT + NormalLine(rest),
                   DisassembledPrivate(rest[TextAfter(rest)..], settings))
      else
        var line := s[..TextContent(s)];
        var entryAt := InlineEntry(line);
        if entryAt.Some? then
          Prefixed(s[..entryAt.value] + [LF], DisassembledPrivate(s[entryAt.value..], settings))
        else
          Prefixed(NormalLine(s), DisassembledPrivate(s[TextAfter(s)..], LineSettings(line, settings)))
  }

  /** type1_disassemble_private, its loop over the section. */
  method DisassemblePrivate(s: seq<byte>) returns (result: Option<seq<byte>>)
    ensures result == DisassembledPrivate(s, INITIAL_SETTINGS)
  {
    hide EntryMatch, InlineEntry, LineSettings, TextContent, TextAfter, NormalLine, Disassembled;
    var output: seq<byte> := [];
    var settings := INITIAL_SETTINGS;
    var rest := s;
    PrefixedEmpty(DisassembledPrivate(s, settings));
    while rest != []
      invariant DisassembledPrivate(s, INITIAL_SETTINGS) == Prefixed(output, DisassembledPrivate(rest, settings))
      decreases |rest|
    {
      var entry := EntryMatch(rest, settings.name);
      var line := rest[..TextContent(rest)];
      var inlineAt := InlineEntry(line);
      ghost var before := settings;
      var piece;
      var next;
      if entry.Some? {
        var Found(prefix, data, length) := entry.value;
        var text := DisassembleCharstring(rest[data..data + length], settings.lenIV);
        if text.None? {
          return None;
        }
        var behind := rest[data + length..];
        piece := rest[..prefix] + OPEN + text.value + SHUT + NormalLine(behind);
        next := behind[TextAfter(behind)..];
      } else if inlineAt.Some? {
        piece := rest[..inlineAt.value] + [LF];
        next := rest[inlineAt.value..];
      } else {
        piece := NormalLine(rest);
        next := rest[TextAfter(rest)..];
        settings := LineSettings(line, settings);
      }
      PrefixedTwice(output, piece, DisassembledPrivate(next, settings));
      output := output + piece;
      rest := next;
    }
    assert output + [] == output;
    result := Some(output);
  }

  /** type1_disassemble_charstring. */
  method DisassembleCharstring(cipher: seq<byte>, lenIV: int) returns (text: Option<seq<byte>>)
    ensures text == Disassembled(cipher, lenIV)
  {
    hide DecodeAll, Printed;
    if lenIV < -1 || lenIV > |cipher| {
      return None;
    }
    var plain := Deciphered(cipher, lenIV);
    text := Disassemble(plain.value);
  }

  // ----- the whole assembler -----

  const SUBRS: seq<byte> := Ascii("/Subrs ")
  const CLOSE: seq<byte> := Ascii("mark currentfile closefile")
  const EEXEC: seq<byte> := Ascii("currentfile eexec")
  const LEN_IV_NAME: seq<byte> := Ascii("/lenIV")

  predicate NotBlank(b: byte) { !Blank(b) }

  /** type1_private_len_iv. */
  function PrivateLenIV(text: seq<byte>): Option<int> {
    var k := FirstAt(text, LEN_IV_NAME);
    if k.None? then Some(4)
    else
      var at := k.value + |LEN_IV_NAME|;
      var number := at + Span(text[at..], Blank);
      var parsed := ParsedInteger(text[number..][..Span(text[number..], NotBlank)]);
      if parsed.None? || parsed.value < -1 then None else Some(parsed.value)
  }

  /** Where hstex_type1_assemble finds the parts of what follows the eexec line. */
  datatype Parts = Parts(subrs: nat, charstrings: nat, close: nat)

  function FindParts(text: seq<byte>): (p: Option<Parts>)
    ensures p.Some? ==> p.value.subrs <= p.value.charstrings < p.value.close && p.value.close + |CLOSE| <= |text|
  {
    var close := FirstAt(text, CLOSE);
    if close.None? then None
    else
      var subrs := FirstAt(text[..close.value], SUBRS);
      if subrs.None? then None
      else
        var charstrings := FirstAt(text[..close.value], CHARSTRINGS, subrs.value);
        if charstrings.None? then None
        else Some(Parts(subrs.value, charstrings.value, close.value))
  }

  /** The plain private section hstex_type1_assemble builds behind its four zero bytes, from the text
      that follows the eexec line. */
  function AssembledPrivate(text: seq<byte>): Option<seq<byte>> {
    var parts := FindParts(text);
    if parts.None? then None
    else
      var Parts(subrs, charstrings, close) := parts.value;
      var finish := close + |CLOSE| + LineAfter(text[close + |CLOSE|..]);
      var subrEntries := subrs + LineAfter(text[subrs..charstrings]);
      var glyphEntries := charstrings + LineAfter(text[charstrings..close]);
      var lenIV := PrivateLenIV(text[..subrs]);
      if lenIV.None? then None
      else
        var first := Transformed(text[subrEntries..charstrings], true, lenIV.value);
        var second := Transformed(text[glyphEntries..finish], false, lenIV.value);
        if first.None? || second.None? then None
        else Some(text[..subrEntries] + first.value + text[charstrings..glyphEntries] + second.value)
  }

  datatype Program = Program(public: seq<byte>, private: seq<byte>)

  /** Past the line that opens the enciphered section. */
  function PublicFinish(disassembly: seq<byte>): (n: Option<nat>)
    ensures n.Some? ==> n.value <= |disassembly|
  {
    var eexec := FirstAt(disassembly, EEXEC);
    if eexec.None? then None
    else Some(eexec.value + |EEXEC| + LineAfter(disassembly[eexec.value + |EEXEC|..]))
  }

  function AssembledFont(disassembly: seq<byte>): Option<Program> {
    var n := PublicFinish(disassembly);
    if n.None? then None
    else
      var private := AssembledPrivate(disassembly[n.value..]);
      if private.None? then None
      else Some(Program(disassembly[..n.value], Cipher.Encrypted(Zeros(4) + private.value, Cipher.EEXEC_KEY)))
  }

  /** hstex_type1_assemble: the public text up to and with the eexec line, and the enciphered section. */
  method AssembleFont(disassembly: seq<byte>) returns (program: Option<Program>)
    ensures program == AssembledFont(disassembly)
  {
    hide AssembledPrivate, LineAfter, FirstAt;
    var eexec := Cipher.Find(disassembly, EEXEC);
    FoundFirst(disassembly, EEXEC, eexec);
    if eexec.None? {
      return None;
    }
    var publicFinish := eexec.value + |EEXEC| + LineAfter(disassembly[eexec.value + |EEXEC|..]);
    var private := AssemblePrivate(disassembly[publicFinish..]);
    if private.None? {
      return None;
    }
    var cipher := EncipherSection(private.value);
    program := Some(Program(disassembly[..publicFinish], cipher));
  }

  method EncipherSection(private: seq<byte>) returns (cipher: seq<byte>)
    ensures cipher == Cipher.Encrypted(Zeros(4) + private, Cipher.EEXEC_KEY)
  {
    var plain := Zeros(4) + private;
    var bytes := new byte[|plain|](i requires 0 <= i < |plain| => plain[i]);
    assert bytes[..] == plain;
    Cipher.EncryptInPlace(bytes, Cipher.EEXEC_KEY);
    cipher := bytes[..];
  }

  /** The search loop finds what the first-occurrence function names. */
  lemma FoundFirst(s: seq<byte>, phrase: seq<byte>, found: Option<nat>)
    requires phrase != []
    requires found.Some? ==> Cipher.OccursAt(s, phrase, found.value)
    requires found.Some? ==> forall k: nat :: k < found.value ==> !Cipher.OccursAt(s, phrase, k)
    requires found.None? <==> !Cipher.Contains(s, phrase)
    ensures found == FirstAt(s, phrase)
  {
    hide FirstAt;
    var k := FirstAt(s, phrase);
    if found.Some? && k.Some? {
      assert !(found.value < k.value) && !(k.value < found.value);
    }
  }

  method AssemblePrivate(text: seq<byte>) returns (private: Option<seq<byte>>)
    ensures private == AssembledPrivate(text)
  {
    hide LineAfter, PrivateLenIV, Transformed, FindParts;
    var parts := FindParts(text);
    if parts.None? {
      return None;
    }
    var Parts(subrs, charstrings, close) := parts.value;
    var finish := close + |CLOSE| + LineAfter(text[close + |CLOSE|..]);
    var subrEntries := subrs + LineAfter(text[subrs..charstrings]);
    var glyphEntries := charstrings + LineAfter(text[charstrings..close]);
    var lenIV := PrivateLenIV(text[..subrs]);
    if lenIV.None? {
      return None;
    }
    var first := TransformEntries(text[subrEntries..charstrings], true, lenIV.value);
    var second := TransformEntries(text[glyphEntries..finish], false, lenIV.value);
    if first.None? || second.None? {
      return None;
    }
    private := Some(text[..subrEntries] + first.value + text[charstrings..glyphEntries] + second.value);
  }
}
