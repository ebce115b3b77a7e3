/** Charstring numbers and operators: their decimal or named text, and their byte codes. */
module Type1Numbers {
  import opened Bytes

  const MINUS: byte := 45
  const PLUS: byte := 43
  const ZERO: byte := 48

  predicate Digit(b: byte) { 48 <= b <= 57 }

  predicate AllDigits(s: seq<byte>) { forall i :: 0 <= i < |s| ==> Digit(s[i]) }

  // ----- decimal text -----

  function Digits(n: nat): (s: seq<byte>)
    ensures s != [] && AllDigits(s)
  {
    if n < 10 then [ZERO + n] else Digits(n / 10) + [ZERO + n % 10]
  }

  function Decimal(v: int): seq<byte> {
    if v < 0 then [MINUS] + Digits(-v) else Digits(v)
  }

  /** The number a run of digits stands for. */
  function DigitsValue(s: seq<byte>): nat
    requires AllDigits(s)
  {
    if s == [] then 0 else DigitsValue(s[..|s| - 1]) * 10 + (s[|s| - 1] - 48)
  }

  lemma {:induction false} DigitsValueOfDigits(n: nat)
    ensures DigitsValue(Digits(n)) == n
  {
    if n >= 10 {
      DigitsValueOfDigits(n / 10);
      var s := Digits(n);
      assert s[..|s| - 1] == Digits(n / 10);
    }
  }

  /** A longer run of digits stands for no smaller a number. */
  lemma {:induction false} DigitsValueGrows(s: seq<byte>, k: nat)
    requires AllDigits(s) && k <= |s|
    ensures DigitsValue(s[..k]) <= DigitsValue(s)
  {
    if k == |s| {
      assert s[..k] == s;
    } else {
      var front := s[..|s| - 1];
      DigitsValueGrows(front, k);
      assert front[..k] == s[..k];
    }
  }

  /** The largest magnitude the parser lets through. */
  function Limit(negative: bool): nat { if negative then 0x8000_0000 else 0x7FFF_FFFF }

  /** The integer a token spells, where it spells one that fits 32 bits. */
  function ParsedInteger(s: seq<byte>): Option<i32> {
    var signed := s != [] && (s[0] == MINUS || s[0] == PLUS);
    var negative := s != [] && s[0] == MINUS;
    var body := if signed then s[1..] else s;
    if body == [] || !AllDigits(body) || DigitsValue(body) > Limit(negative) then None
    else Some(if negative then -(DigitsValue(body) as int) else DigitsValue(body))
  }

  /** type1_parse_integer. */
  method ParseInteger(s: seq<byte>) returns (value: Option<i32>)
    ensures value == ParsedInteger(s)
  {
    var at := 0;
    var negative := false;
    if at < |s| && (s[at] == MINUS || s[at] == PLUS) {
      negative := s[at] == MINUS;
      at := at + 1;
    }
    var magnitude := ParseDigits(s, at, Limit(negative));
    if magnitude.None? {
      return None;
    }
    value := Some(if negative then -(magnitude.value as int) else magnitude.value);
  }

  /** Its loop: the magnitude the digits stand for, where there are any and no more than the limit allows. */
  method ParseDigits(s: seq<byte>, start: nat, limit: nat) returns (magnitude: Option<nat>)
    requires start <= |s| && limit >= 9
    ensures magnitude == Magnitude(s[start..], limit)
  {
    hide DigitsValue;
    ghost var body := s[start..];
    if start == |s| || !Digit(s[start]) {
      assert body != [] ==> body[0] == s[start];
      return None;
    }
    var at := start;
    var sum := 0;
    assert DigitsValue(body[..0]) == 0 by { NoDigits(); }
    while at < |s|
      invariant start <= at <= |s|
      invariant AllDigits(body[..at - start])
      invariant sum == DigitsValue(body[..at - start]) <= limit
    {
      if !Digit(s[at]) {
        assert body[at - start] == s[at];
        return None;
      }
      var digit := s[at] - ZERO;
      OneDigitMore(body, at - start);
      if sum > (limit - digit) / 10 {
        if AllDigits(body) {
          DigitsValueGrows(body, at - start + 1);
        }
        return None;
      }
      sum := sum * 10 + digit;
      at := at + 1;
    }
    assert body[..at - start] == body;
    magnitude := Some(sum);
  }

  function Magnitude(body: seq<byte>, limit: nat): Option<nat> {
    if body == [] || !AllDigits(body) || DigitsValue(body) > limit then None else Some(DigitsValue(body))
  }

  lemma NoDigits()
    ensures AllDigits([]) && DigitsValue([]) == 0
  {}

  lemma OneDigitMore(body: seq<byte>, n: nat)
    requires n < |body| && AllDigits(body[..n]) && Digit(body[n])
    ensures AllDigits(body[..n + 1]) && DigitsValue(body[..n + 1]) == DigitsValue(body[..n]) * 10 + (body[n] - 48)
  {
    var longer := body[..n + 1];
    assert longer[..|longer| - 1] == body[..n];
  }

  lemma ReversedOne(b: byte)
    ensures Reversed([b]) == [b]
  {}

  lemma ReversedStep(s: seq<byte>, b: byte)
    ensures Reversed(s + [b]) == [b] + Reversed(s)
  {
    assert (s + [b])[..|s|] == s;
  }

  lemma DigitsStep(m: nat)
    ensures Digits(m) == (if m / 10 == 0 then [] else Digits(m / 10)) + [ZERO + m % 10]
  {}

  /** The digits of a magnitude, last first. */
  method DigitsBackwards(whole: nat) returns (reversed: seq<byte>)
    ensures Reversed(reversed) == Digits(whole)
  {
    hide Digits, Reversed;
    DigitsStep(whole);
    var magnitude: nat := whole / 10;
    reversed := [ZERO + whole % 10];
    ReversedOne(ZERO + whole % 10);
    while magnitude != 0
      invariant Digits(whole) == (if magnitude == 0 then [] else Digits(magnitude)) + Reversed(reversed)
      decreases magnitude
    {
      DigitsStep(magnitude);
      ReversedStep(reversed, ZERO + magnitude % 10);
      Assoc(if magnitude / 10 == 0 then [] else Digits(magnitude / 10), [ZERO + magnitude % 10], Reversed(reversed));
      reversed := reversed + [ZERO + magnitude % 10];
      magnitude := magnitude / 10;
    }
  }

  /** type1_format_integer: digits come out last first and are turned round. */
  method FormatInteger(value: i32) returns (number: seq<byte>)
    ensures number == Decimal(value)
  {
    var reversed := DigitsBackwards(if value < 0 then -(value as int) else value);
    hide Digits;
    number := if value < 0 then [MINUS] else [];
    ghost var sign := number;
    var count := |reversed|;
    assert reversed[..count] == reversed;
    while count != 0
      invariant 0 <= count <= |reversed|
      invariant number + Reversed(reversed[..count]) == sign + Reversed(reversed)
      decreases count
    {
      count := count - 1;
      assert reversed[..count + 1][..count] == reversed[..count];
      number := number + [reversed[count]];
    }
    assert number == number + Reversed(reversed[..0]);
    assert sign + Reversed(reversed) == Decimal(value);
  }

  function Reversed(s: seq<byte>): seq<byte> {
    if s == [] then [] else [s[|s| - 1]] + Reversed(s[..|s| - 1])
  }

  lemma DecimalParses(v: i32)
    ensures ParsedInteger(Decimal(v)) == Some(v)
  {
    var magnitude: nat := if v < 0 then -(v as int) else v;
    DigitsValueOfDigits(magnitude);
    hide Digits, DigitsValue;
    var body := Digits(magnitude);
    assert AllDigits(body) && Digit(body[0]);
    assert v < 0 ==> Decimal(v)[1..] == body;
  }

  // ----- number codes -----

  function BigEndian(e: u32): (s: seq<byte>)
    ensures |s| == 4
  {
    [e / 256 / 256 / 256, e / 256 / 256 % 256, e / 256 % 256, e % 256]
  }

  function FromBigEndian(s: seq<byte>): u32
    requires |s| == 4
  {
    ((s[0] as int * 256 + s[1]) * 256 + s[2]) * 256 + s[3]
  }

  lemma BigEndianRoundTrip(e: u32)
    ensures FromBigEndian(BigEndian(e)) == e
  {}

  /** type1_encode_number: one, two or five bytes on exact ranges. */
  function NumberCode(v: i32): (code: seq<byte>)
    ensures |code| == if -107 <= v <= 107 then 1 else if -1131 <= v <= 1131 then 2 else 5
  {
    if -107 <= v <= 107 then [v + 139]
    else if 108 <= v <= 1131 then [247 + (v - 108) / 256, (v - 108) % 256]
    else if -1131 <= v <= -108 then [251 + (-v - 108) / 256, (-v - 108) % 256]
    else [255] + BigEndian(if v < 0 then v + 0x1_0000_0000 else v)
  }

  // ----- operators -----

  datatype Operator =
    | HStem | VStem | VMoveTo | RLineTo | HLineTo | VLineTo | RRCurveTo | ClosePath | CallSubr | Return
    | HSbw | EndChar | RMoveTo | HMoveTo | VHCurveTo | HVCurveTo | DotSection | VStem3 | HStem3 | Seac
    | Sbw | Div | CallOtherSubr | Pop | SetCurrentPoint

  /** type1_operators, in its own order. */
  const TABLE: seq<Operator> := [
    HStem, VStem, VMoveTo, RLineTo, HLineTo, VLineTo, RRCurveTo, ClosePath, CallSubr, Return,
    HSbw, EndChar, RMoveTo, HMoveTo, VHCurveTo, HVCurveTo, DotSection, VStem3, HStem3, Seac,
    Sbw, Div, CallOtherSubr, Pop, SetCurrentPoint]

  function Spelling(op: Operator): string {
    match op
    case HStem => "hstem"
    case VStem => "vstem"
    case VMoveTo => "vmoveto"
    case RLineTo => "rlineto"
    case HLineTo => "hlineto"
    case VLineTo => "vlineto"
    case RRCurveTo => "rrcurveto"
    case ClosePath => "closepath"
    case CallSubr => "callsubr"
    case Return => "return"
    case HSbw => "hsbw"
    case EndChar => "endchar"
    case RMoveTo => "rmoveto"
    case HMoveTo => "hmoveto"
    case VHCurveTo => "vhcurveto"
    case HVCurveTo => "hvcurveto"
    case DotSection => "dotsection"
    case VStem3 => "vstem3"
    case HStem3 => "hstem3"
    case Seac => "seac"
    case Sbw => "sbw"
    case Div => "div"
    case CallOtherSubr => "callothersubr"
    case Pop => "pop"
    case SetCurrentPoint => "setcurrentpoint"
  }

  function Name(op: Operator): seq<byte> { Ascii(Spelling(op)) }

  const ESCAPE: byte := 12

  function OperatorCode(op: Operator): seq<byte> {
    match op
    case HStem => [1]
    case VStem => [3]
    case VMoveTo => [4]
    case RLineTo => [5]
    case HLineTo => [6]
    case VLineTo => [7]
    case RRCurveTo => [8]
    case ClosePath => [9]
    case CallSubr => [10]
    case Return => [11]
    case HSbw => [13]
    case EndChar => [14]
    case RMoveTo => [21]
    case HMoveTo => [22]
    case VHCurveTo => [30]
    case HVCurveTo => [31]
    case DotSection => [ESCAPE, 0]
    case VStem3 => [ESCAPE, 1]
    case HStem3 => [ESCAPE, 2]
    case Seac => [ESCAPE, 6]
    case Sbw => [ESCAPE, 7]
    case Div => [ESCAPE, 12]
    case CallOtherSubr => [ESCAPE, 16]
    case Pop => [ESCAPE, 17]
    case SetCurrentPoint => [ESCAPE, 33]
  }

  lemma TableHasAll(op: Operator)
    ensures op in TABLE
  {
    var place := Place(op);
    assert TABLE[place] == op;
  }

  function Place(op: Operator): (k: nat)
    ensures k < |TABLE|
  {
    match op
    case HStem => 0 case VStem => 1 case VMoveTo => 2 case RLineTo => 3 case HLineTo => 4
    case VLineTo => 5 case RRCurveTo => 6 case ClosePath => 7 case CallSubr => 8 case Return => 9
    case HSbw => 10 case EndChar => 11 case RMoveTo => 12 case HMoveTo => 13 case VHCurveTo => 14
    case HVCurveTo => 15 case DotSection => 16 case VStem3 => 17 case HStem3 => 18 case Seac => 19
    case Sbw => 20 case Div => 21 case CallOtherSubr => 22 case Pop => 23 case SetCurrentPoint => 24
  }

  /** A spelling is told apart from every other by its length and its first two letters. */
  function BySpelling(s: string): Operator {
    if |s| == 3 then (if s[0] == 's' then Sbw else if s[0] == 'd' then Div else Pop)
    else if |s| == 4 then (if s[0] == 'h' then HSbw else Seac)
    else if |s| == 5 then (if s[0] == 'h' then HStem else VStem)
    else if |s| == 6 then (if s[0] == 'r' then Return else if s[0] == 'v' then VStem3 else HStem3)
    else if |s| == 7 then
      (if s[0] == 'e' then EndChar
       else if s[1] == 'm' then (if s[0] == 'v' then VMoveTo else if s[0] == 'r' then RMoveTo else HMoveTo)
       else (if s[0] == 'v' then VLineTo else if s[0] == 'r' then RLineTo else HLineTo))
    else if |s| == 8 then CallSubr
    else if |s| == 9 then
      (if s[0] == 'r' then RRCurveTo else if s[0] == 'c' then ClosePath
       else if s[0] == 'v' then VHCurveTo else HVCurveTo)
    else if |s| == 10 then DotSection
    else if |s| == 13 then CallOtherSubr
    else SetCurrentPoint
  }

  lemma SpellingDecides(op: Operator)
    ensures BySpelling(Spelling(op)) == op
  {}

  /** Every spelling is lower-case letters and digits, and begins with a letter. */
  lemma SpellingBegins(op: Operator)
    ensures Spelling(op) != [] && 'a' <= Spelling(op)[0] <= 'z'
  {}

  lemma SpellingBytes(op: Operator)
    ensures forall i :: 0 <= i < |Spelling(op)| ==> '3' <= Spelling(op)[i] <= 'z'
  {}

  lemma SpellingPlain(op: Operator)
    ensures Spelling(op) != [] && 'a' <= Spelling(op)[0] <= 'z'
    ensures forall i :: 0 <= i < |Spelling(op)| ==> '3' <= Spelling(op)[i] <= 'z'
  {
    hide Spelling;
    SpellingBegins(op);
    SpellingBytes(op);
  }

  lemma NameInjective(a: Operator, b: Operator)
    requires Name(a) == Name(b)
    ensures a == b
  {
    hide Spelling, BySpelling;
    SpellingPlain(a);
    SpellingPlain(b);
    forall i | 0 <= i < |Spelling(a)|
      ensures Spelling(a)[i] == Spelling(b)[i]
    {
      assert Name(a)[i] == Spelling(a)[i] as int && Name(b)[i] == Spelling(b)[i] as int;
    }
    assert Spelling(a) == Spelling(b);
    SpellingDecides(a);
    SpellingDecides(b);
  }
}
