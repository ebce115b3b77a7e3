/** Charstrings: the text the disassembler prints, the bytes the assembler makes of it, and back. */
module Type1Charstring {
  import opened Bytes
  import opened Type1Numbers
  import Cipher = Type1Cipher

  datatype Element = Number(value: i32) | Command(op: Operator)

  function Code(e: Element): (code: seq<byte>)
    ensures 1 <= |code| <= 5
  {
    match e
    case Number(v) => NumberCode(v)
    case Command(op) => OperatorCode(op)
  }

  function Word(e: Element): seq<byte> {
    match e
    case Number(v) => Decimal(v)
    case Command(op) => Name(op)
  }

  // ----- operator lookup -----

  /** The first operator of the table, from place k on, with this code. */
  function ByCode(code: seq<byte>, k: nat := 0): (found: Option<Operator>)
    ensures found.Some? ==> OperatorCode(found.value) == code
    ensures found.None? ==> forall j :: k <= j < |TABLE| ==> OperatorCode(TABLE[j]) != code
    decreases |TABLE| - k
  {
    if k >= |TABLE| then None
    else if OperatorCode(TABLE[k]) == code then Some(TABLE[k])
    else ByCode(code, k + 1)
  }

  function ByName(name: seq<byte>, k: nat := 0): (found: Option<Operator>)
    ensures found.Some? ==> Name(found.value) == name
    ensures found.None? ==> forall j :: k <= j < |TABLE| ==> Name(TABLE[j]) != name
    decreases |TABLE| - k
  {
    if k >= |TABLE| then None
    else if Name(TABLE[k]) == name then Some(TABLE[k])
    else ByName(name, k + 1)
  }

  /** type1_operator_by_code: the table walked in order. */
  method OperatorByCode(code: seq<byte>) returns (found: Option<Operator>)
    ensures found == ByCode(code)
  {
    hide OperatorCode;
    var index := 0;
    while index < |TABLE|
      invariant 0 <= index <= |TABLE|
      invariant ByCode(code) == ByCode(code, index)
    {
      if OperatorCode(TABLE[index]) == code {
        return Some(TABLE[index]);
      }
      index := index + 1;
    }
    return None;
  }

  /** The lookup half of type1_encode_operator. */
  method OperatorByName(name: seq<byte>) returns (found: Option<Operator>)
    ensures found == ByName(name)
  {
    hide Name;
    var index := 0;
    while index < |TABLE|
      invariant 0 <= index <= |TABLE|
      invariant ByName(name) == ByName(name, index)
    {
      if Name(TABLE[index]) == name {
        return Some(TABLE[index]);
      }
      index := index + 1;
    }
    return None;
  }

  function OfCode(code: seq<byte>): Operator
    requires code != []
  {
    if |code| > 1 then
      var b := code[1];
      if b == 0 then DotSection else if b == 1 then VStem3 else if b == 2 then HStem3 else if b == 6 then Seac
      else if b == 7 then Sbw else if b == 12 then Div else if b == 16 then CallOtherSubr
      else if b == 17 then Pop else SetCurrentPoint
    else
      var b := code[0];
      if b == 1 then HStem else if b == 3 then VStem else if b == 4 then VMoveTo else if b == 5 then RLineTo
      else if b == 6 then HLineTo else if b == 7 then VLineTo else if b == 8 then RRCurveTo
      else if b == 9 then ClosePath else if b == 10 then CallSubr else if b == 11 then Return
      else if b == 13 then HSbw else if b == 14 then EndChar else if b == 21 then RMoveTo
      else if b == 22 then HMoveTo else if b == 30 then VHCurveTo else HVCurveTo
  }

  lemma CodeDecides(op: Operator)
    ensures OperatorCode(op) != [] && OfCode(OperatorCode(op)) == op
  {}

  lemma ByCodeOfCode(op: Operator)
    ensures ByCode(OperatorCode(op)) == Some(op)
  {
    TableHasAll(op);
    var j :| 0 <= j < |TABLE| && TABLE[j] == op;
    CodeDecides(op);
    var found := ByCode(OperatorCode(op));
    hide OperatorCode, OfCode, ByCode;
    assert OperatorCode(TABLE[j]) == OperatorCode(op);
    CodeDecides(found.value);
  }

  lemma ByNameOfName(op: Operator)
    ensures ByName(Name(op)) == Some(op)
  {
    TableHasAll(op);
    var j :| 0 <= j < |TABLE| && TABLE[j] == op;
    var found := ByName(Name(op));
    hide Name, ByName;
    assert Name(TABLE[j]) == Name(op);
    NameInjective(found.value, op);
  }

  // ----- decoding -----

  function Signed(e: u32): i32 { if e <= 0x7FFF_FFFF then e else e as int - 0x1_0000_0000 }

  /** The element that a plain charstring begins with and how many bytes it takes. */
  function FirstElement(s: seq<byte>): (r: Option<(Element, nat)>)
    requires s != []
    ensures r.Some? ==> 1 <= r.value.1 <= |s|
  {
    var first: int := s[0];
    if 32 <= first <= 246 then Some((Number(first - 139), 1))
    else if 247 <= first <= 250 then
      if |s| < 2 then None else Some((Number((first - 247) * 256 + 108 + s[1]), 2))
    else if 251 <= first <= 254 then
      if |s| < 2 then None else Some((Number(-((first - 251) * 256) - 108 - s[1]), 2))
    else if first == 255 then
      if |s| < 5 then None else Some((Number(Signed(FromBigEndian(s[1..5]))), 5))
    else if first == ESCAPE then
      if |s| < 2 then None else OfOperator(ByCode(s[..2]), 2)
    else OfOperator(ByCode(s[..1]), 1)
  }

  function OfOperator(op: Option<Operator>, length: nat): Option<(Element, nat)> {
    if op.None? then None else Some((Command(op.value), length))
  }

  function DecodeAll(s: seq<byte>): Option<seq<Element>>
    decreases |s|
  {
    if s == [] then Some([])
    else
      var first := FirstElement(s);
      if first.None? then None
      else
        var rest := DecodeAll(s[first.value.1..]);
        if rest.None? then None else Some([first.value.0] + rest.value)
  }

  lemma NumberComesBack(v: i32, rest: seq<byte>)
    ensures FirstElement(NumberCode(v) + rest) == Some((Number(v), |NumberCode(v)|))
  {
    hide ByCode;
    var s := NumberCode(v) + rest;
    if -1131 <= v <= 1131 {
    } else {
      var e: u32 := if v < 0 then v + 0x1_0000_0000 else v;
      assert s[1..5] == BigEndian(e);
      BigEndianRoundTrip(e);
    }
  }

  lemma OperatorComesBack(op: Operator, rest: seq<byte>)
    ensures FirstElement(OperatorCode(op) + rest) == Some((Command(op), |OperatorCode(op)|))
  {
    var code := OperatorCode(op);
    var s := code + rest;
    assert s[..|code|] == code;
    assert |code| == if code[0] == ESCAPE then 2 else 1;
    assert code[0] < 32;
    ByCodeOfCode(op);
    hide OperatorCode, ByCode;
    assert s[0] == code[0];
  }

  /** No code, of a number or of an operator, begins another: decoding is unambiguous. */
  lemma ElementComesBack(e: Element, rest: seq<byte>)
    ensures FirstElement(Code(e) + rest) == Some((e, |Code(e)|))
  {
    match e
    case Number(v) => NumberComesBack(v, rest);
    case Command(op) => OperatorComesBack(op, rest);
  }

  lemma PrefixFree(a: Element, b: Element, restA: seq<byte>, restB: seq<byte>)
    requires Code(a) + restA == Code(b) + restB
    ensures a == b && restA == restB
  {
    ElementComesBack(a, restA);
    ElementComesBack(b, restB);
    hide Code, FirstElement;
    assert restA == (Code(a) + restA)[|Code(a)|..];
    assert restB == (Code(b) + restB)[|Code(b)|..];
  }

  function Codes(items: seq<Element>): seq<byte> {
    if items == [] then [] else Code(items[0]) + Codes(items[1..])
  }

  lemma {:induction false} CodesDecode(items: seq<Element>)
    ensures DecodeAll(Codes(items)) == Some(items)
  {
    if items != [] {
      var rest := Codes(items[1..]);
      ElementComesBack(items[0], rest);
      CodesDecode(items[1..]);
      hide Code, FirstElement;
      assert (Code(items[0]) + rest)[|Code(items[0])|..] == rest;
      assert [items[0]] + items[1..] == items;
    }
  }

  // ----- the printed text -----

  const TAB: byte := 9
  const NEWLINE: byte := 10
  const SPACE: byte := 32
  const PERCENT: byte := 37

  /** type1_disassembly_token and the newline behind an operator. */
  function PrintedOne(e: Element, lineStart: bool): seq<byte> {
    [if lineStart then TAB else SPACE] + Word(e) + (if e.Command? then [NEWLINE] else [])
  }

  function Printed(items: seq<Element>, lineStart: bool): seq<byte> {
    if items == [] then [] else PrintedOne(items[0], lineStart) + Printed(items[1..], items[0].Command?)
  }

  predicate AtLineStart(items: seq<Element>) { items == [] || items[|items| - 1].Command? }

  lemma {:induction false} PrintedAppend(items: seq<Element>, e: Element, lineStart: bool)
    ensures Printed(items + [e], lineStart)
         == Printed(items, lineStart) + PrintedOne(e, if items == [] then lineStart else AtLineStart(items))
  {
    hide PrintedOne;
    if items == [] {
      assert [e][1..] == [];
      assert items + [e] == [e];
    } else {
      PrintedAppend(items[1..], e, items[0].Command?);
      assert (items + [e])[1..] == items[1..] + [e];
    }
  }

  /** type1_disassemble_charstring past its prefix: the whole text, or None at the first byte that
      begins no element. */
  method Disassemble(plain: seq<byte>) returns (text: Option<seq<byte>>)
    ensures text == if DecodeAll(plain).None? then None else Some(Printed(DecodeAll(plain).value, true))
  {
    hide Word, FirstElement;
    var output: seq<byte> := [];
    var lineStart := true;
    var at := 0;
    ghost var done: seq<Element> := [];
    assert plain[0..] == plain;
    assert DecodeAll(plain).Some? ==> [] + DecodeAll(plain).value == DecodeAll(plain).value;
    while at < |plain|
      invariant 0 <= at <= |plain|
      invariant output == Printed(done, true)
      invariant lineStart == AtLineStart(done)
      invariant DecodeAll(plain) == Joined(done, DecodeAll(plain[at..]))
    {
      var first := TakeElement(plain[at..]);
      if first.None? {
        return None;
      }
      var (element, length) := first.value;
      var word := WordOf(element);
      PrintedAppend(done, element, true);
      output := output + [if lineStart then TAB else SPACE] + word + (if element.Command? then [NEWLINE] else []);
      lineStart := element.Command?;
      JoinedStep(done, element, DecodeAll(plain[at + length..]));
      assert plain[at..][length..] == plain[at + length..];
      done := done + [element];
      at := at + length;
    }
    assert plain[at..] == [];
    assert done + [] == done;
    text := Some(output);
  }

  ghost function Joined(done: seq<Element>, rest: Option<seq<Element>>): Option<seq<Element>> {
    if rest.None? then None else Some(done + rest.value)
  }

  lemma JoinedStep(done: seq<Element>, e: Element, rest: Option<seq<Element>>)
    ensures Joined(done, if rest.None? then None else Some([e] + rest.value)) == Joined(done + [e], rest)
  {
    if rest.Some? {
      assert done + ([e] + rest.value) == (done + [e]) + rest.value;
    }
  }

  method WordOf(e: Element) returns (word: seq<byte>)
    ensures word == Word(e)
  {
    match e
    case Number(v) => word := FormatInteger(v);
    case Command(op) => word := Name(op);
  }

  /** One turn of the disassembler's loop: what the next bytes stand for. */
  method TakeElement(s: seq<byte>) returns (r: Option<(Element, nat)>)
    requires s != []
    ensures r == FirstElement(s)
  {
    if s[0] >= 32 || (s[0] == ESCAPE && |s| < 2) {
      hide ByCode;
      return FirstElement(s);
    }
    hide ByCode, OperatorCode;
    var length := if s[0] == ESCAPE then 2 else 1;
    var op := OperatorByCode(s[..length]);
    r := OfOperator(op, length);
  }

  // ----- assembling -----

  /** type1_space. */
  predicate Blank(b: byte) { b == SPACE || b == TAB || b == 13 || b == NEWLINE || b == 12 || b == 0 }

  /** What ends a token: white space or a comment. */
  predicate Stop(b: byte) { Blank(b) || b == PERCENT }

  function TokenLength(text: seq<byte>): (n: nat)
    ensures n <= |text|
    ensures forall i :: 0 <= i < n ==> !Stop(text[i])
    ensures n < |text| ==> Stop(text[n])
  {
    if text == [] || Stop(text[0]) then 0 else 1 + TokenLength(text[1..])
  }

  /** type1_line_after: past the next newline, or the end. */
  function LineAfter(text: seq<byte>): (n: nat)
    ensures n <= |text|
    ensures text != [] ==> n > 0
    ensures forall i :: 0 <= i < n - 1 ==> text[i] != NEWLINE
    ensures n < |text| ==> n > 0 && text[n - 1] == NEWLINE
  {
    if text == [] then 0 else if text[0] == NEWLINE then 1 else 1 + LineAfter(text[1..])
  }

  /** One token's code: a number where it parses as one, else the operator of that name. */
  function TokenCode(token: seq<byte>): Option<seq<byte>> {
    var number := ParsedInteger(token);
    if number.Some? then Some(NumberCode(number.value))
    else
      var op := ByName(token);
      if op.None? then None else Some(OperatorCode(op.value))
  }

  function Prefixed(code: seq<byte>, rest: Option<seq<byte>>): Option<seq<byte>> {
    if rest.None? then None else Some(code + rest.value)
  }

  /** The bytes a charstring's text stands for. */
  function Assembled(text: seq<byte>): Option<seq<byte>>
    decreases |text|
  {
    if text == [] then Some([])
    else if Blank(text[0]) then Assembled(text[1..])
    else if text[0] == PERCENT then Assembled(text[LineAfter(text)..])
    else
      var n := TokenLength(text);
      var code := TokenCode(text[..n]);
      if code.None? then None else Prefixed(code.value, Assembled(text[n..]))
  }

  /** type1_encode_charstring between its prefix and its cipher. */
  method Assemble(text: seq<byte>) returns (code: Option<seq<byte>>)
    ensures code == Assembled(text)
  {
    hide TokenCode, TokenLength, LineAfter, Prefixed, Assembled;
    var output: seq<byte> := [];
    var rest := text;
    AssembledEmptyPrefix(text);
    while rest != []
      invariant Assembled(text) == Prefixed(output, Assembled(rest))
      decreases |rest|
    {
      AssembledStep(rest);
      if Blank(rest[0]) {
        rest := rest[1..];
      } else if rest[0] == PERCENT {
        rest := rest[LineAfter(rest)..];
      } else {
        var n := TokenLength(rest);
        var token := EncodeToken(rest[..n]);
        if token.None? {
          AssembledEnd(output);
          return None;
        }
        PrefixedTwice(output, token.value, Assembled(rest[n..]));
        output := output + token.value;
        rest := rest[n..];
      }
    }
    AssembledEnd(output);
    code := Some(output);
  }

  /** One turn of the assembler's loop. */
  lemma AssembledStep(text: seq<byte>)
    requires text != []
    ensures Blank(text[0]) ==> Assembled(text) == Assembled(text[1..])
    ensures text[0] == PERCENT ==> LineAfter(text) > 0 && Assembled(text) == Assembled(text[LineAfter(text)..])
    ensures !Stop(text[0]) ==>
      && TokenLength(text) > 0
      && Assembled(text) == if TokenCode(text[..TokenLength(text)]).None? then None
           else Prefixed(TokenCode(text[..TokenLength(text)]).value, Assembled(text[TokenLength(text)..]))
  {
    hide TokenCode, TokenLength, LineAfter;
  }

  lemma AssembledEnd(output: seq<byte>)
    ensures Prefixed(output, Assembled([])) == Some(output)
    ensures Prefixed(output, None) == None
  {
    assert output + [] == output;
  }

  /** A token encoded: the integer parser is tried first. */
  method EncodeToken(token: seq<byte>) returns (code: Option<seq<byte>>)
    ensures code == TokenCode(token)
  {
    hide ByName;
    var number := ParseInteger(token);
    if number.Some? {
      return Some(NumberCode(number.value));
    }
    var op := OperatorByName(token);
    code := if op.None? then None else Some(OperatorCode(op.value));
  }

  lemma AssembledEmptyPrefix(text: seq<byte>)
    ensures Assembled(text) == Prefixed([], Assembled(text))
  {
    var r := Assembled(text);
    if r.Some? { assert [] + r.value == r.value; }
  }

  lemma PrefixedTwice(a: seq<byte>, b: seq<byte>, rest: Option<seq<byte>>)
    ensures Prefixed(a, Prefixed(b, rest)) == Prefixed(a + b, rest)
  {
    if rest.Some? { assert a + (b + rest.value) == a + b + rest.value; }
  }

  // ----- printing then assembling -----

  lemma DecimalHasNoStop(v: i32)
    ensures Decimal(v) != []
    ensures forall i :: 0 <= i < |Decimal(v)| ==> !Stop(Decimal(v)[i])
  {
    var digits := Digits(if v < 0 then -(v as int) else v);
    hide Digits;
    assert forall i :: 0 <= i < |digits| ==> Digit(digits[i]);
  }

  lemma NameHasNoStop(op: Operator)
    ensures Name(op) != []
    ensures forall i :: 0 <= i < |Name(op)| ==> !Stop(Name(op)[i])
  {
    SpellingPlain(op);
    hide Spelling;
    forall i | 0 <= i < |Name(op)|
      ensures !Stop(Name(op)[i])
    {
      assert '3' <= Spelling(op)[i] <= 'z';
      assert Name(op)[i] == Spelling(op)[i] as int;
    }
  }

  lemma WordHasNoStop(e: Element)
    ensures Word(e) != []
    ensures forall i :: 0 <= i < |Word(e)| ==> !Stop(Word(e)[i])
  {
    hide Decimal, Name;
    match e
    case Number(v) => DecimalHasNoStop(v);
    case Command(op) => NameHasNoStop(op);
  }

  lemma WordCode(e: Element)
    ensures TokenCode(Word(e)) == Some(Code(e))
  {
    match e
    case Number(v) => DecimalParses(v); hide NumberCode, ByName;
    case Command(op) =>
      SpellingPlain(op);
      ByNameOfName(op);
      hide Spelling, OperatorCode, ByName;
      assert Name(op)[0] == Spelling(op)[0] as int;
      assert ParsedInteger(Name(op)).None?;
  }

  lemma {:induction false} TokenLengthOf(word: seq<byte>, rest: seq<byte>)
    requires forall i :: 0 <= i < |word| ==> !Stop(word[i])
    requires rest == [] || Stop(rest[0])
    ensures TokenLength(word + rest) == |word|
  {
    if word == [] {
      assert word + rest == rest;
    } else {
      assert (word + rest)[1..] == word[1..] + rest;
      TokenLengthOf(word[1..], rest);
    }
  }

  /** A printed word, wherever white space or the end follows it, assembles to its own code. */
  lemma AssembledWord(e: Element, rest: seq<byte>)
    requires rest == [] || Stop(rest[0])
    ensures Assembled(Word(e) + rest) == Prefixed(Code(e), Assembled(rest))
  {
    WordHasNoStop(e);
    TokenLengthOf(Word(e), rest);
    WordCode(e);
    hide Word, Code, TokenCode, TokenLength;
    var text := Word(e) + rest;
    assert text[..|Word(e)|] == Word(e) && text[|Word(e)|..] == rest;
  }

  lemma AssembledBlank(b: byte, rest: seq<byte>)
    requires Blank(b)
    ensures Assembled([b] + rest) == Assembled(rest)
  {
    assert ([b] + rest)[1..] == rest;
  }

  /** Printed elements assemble to their codes, whatever blank-led text comes behind them. */
  lemma {:induction false} PrintedAssembles(items: seq<Element>, lineStart: bool, tail: seq<byte>)
    requires tail == [] || Blank(tail[0])
    ensures Assembled(Printed(items, lineStart) + tail) == Prefixed(Codes(items), Assembled(tail))
  {
    if items == [] {
      assert Printed(items, lineStart) + tail == tail;
      AssembledEmptyPrefix(tail);
    } else {
      hide PrintedOne, Code, Assembled;
      var e := items[0];
      PrintedAssembles(items[1..], e.Command?, tail);
      PrintedLedByBlank(items[1..], e.Command?, tail);
      var rest := Printed(items[1..], e.Command?);
      ElementAssembles(e, lineStart, rest + tail);
      PrefixedTwice(Code(e), Codes(items[1..]), Assembled(tail));
      Assoc(PrintedOne(e, lineStart), rest, tail);
    }
  }

  lemma ElementAssembles(e: Element, lineStart: bool, behind: seq<byte>)
    requires behind == [] || Blank(behind[0])
    ensures Assembled(PrintedOne(e, lineStart) + behind) == Prefixed(Code(e), Assembled(behind))
  {
    hide Word, Code, Assembled;
    var sep := if lineStart then TAB else SPACE;
    var ended := if e.Command? then [NEWLINE] else [];
    if e.Command? { AssembledBlank(NEWLINE, behind); } else { assert ended + behind == behind; }
    AssembledWord(e, ended + behind);
    AssembledBlank(sep, Word(e) + (ended + behind));
    assert PrintedOne(e, lineStart) + behind == [sep] + (Word(e) + (ended + behind));
  }

  lemma PrintedLedByBlank(items: seq<Element>, lineStart: bool, tail: seq<byte>)
    requires tail == [] || Blank(tail[0])
    ensures var s := Printed(items, lineStart) + tail; s == [] || Blank(s[0])
  {}

  // ----- the cipher and its prefix -----

  /** type1_encode_charstring: `lenIV` zero bytes, the code, and the charstring cipher over both;
      a `lenIV` of -1 leaves the code plain. */
  function Enciphered(text: seq<byte>, lenIV: int): Option<seq<byte>> {
    if lenIV < -1 || Assembled(text).None? then None
    else if lenIV == -1 then Assembled(text)
    else Some(Cipher.Encrypted(Zeros(lenIV) + Assembled(text).value, Cipher.CHARSTRING_KEY))
  }

  function Deciphered(cipher: seq<byte>, lenIV: int): Option<seq<byte>> {
    if lenIV < -1 || lenIV > |cipher| then None
    else if lenIV == -1 then Some(cipher)
    else Some(Cipher.Decrypted(cipher, Cipher.CHARSTRING_KEY)[lenIV..])
  }

  /** The text type1_disassemble_charstring prints for a stored charstring. */
  function Disassembled(cipher: seq<byte>, lenIV: int): Option<seq<byte>> {
    var plain := Deciphered(cipher, lenIV);
    if plain.None? then None
    else
      var items := DecodeAll(plain.value);
      if items.None? then None else Some(Printed(items.value, true))
  }

  /** A charstring stored under any prefix length comes back as the code that went in. */
  lemma DecipherUndoesEncipher(text: seq<byte>, lenIV: int)
    requires Enciphered(text, lenIV).Some?
    ensures Deciphered(Enciphered(text, lenIV).value, lenIV) == Assembled(text)
  {
    if lenIV >= 0 {
      var plain := Zeros(lenIV) + Assembled(text).value;
      Cipher.DecryptUndoesEncrypt(plain, Cipher.CHARSTRING_KEY);
      assert plain[lenIV..] == Assembled(text).value;
    }
  }

  /** The text any sequence of 32-bit integers and operators is printed as survives being stored. */
  lemma CharstringRoundTrip(items: seq<Element>, lenIV: int)
    requires lenIV >= -1
    ensures Enciphered(Printed(items, true), lenIV).Some?
    ensures Disassembled(Enciphered(Printed(items, true), lenIV).value, lenIV) == Some(Printed(items, true))
  {
    var text := Printed(items, true);
    PrintedAssembles(items, true, []);
    assert text + [] == text;
    assert Codes(items) + [] == Codes(items);
    assert Assembled(text) == Some(Codes(items));
    DecipherUndoesEncipher(text, lenIV);
    CodesDecode(items);
  }
}
