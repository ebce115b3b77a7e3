/** The packed numbers of a PK raster: a prefix code over nybbles, one code for each dynamic value. */
module PkNumber {
  import opened Bytes

  type nybble = x: int | 0 <= x < 16

  /** The dynamic values a run-length raster may have; 14 marks a plain bitmap. */
  type dynamic = x: int | 0 <= x < 14

  /** A raster's nybbles, the high one of each byte first. */
  function Nybbles(bytes: seq<byte>): (s: seq<nybble>)
    ensures |s| == 2 * |bytes|
  {
    if bytes == [] then [] else [bytes[0] / 16, bytes[0] % 16] + Nybbles(bytes[1..])
  }

  lemma {:induction false} NybbleAt(bytes: seq<byte>, position: nat)
    requires position / 2 < |bytes|
    ensures Nybbles(bytes)[position] == if position % 2 == 0 then bytes[position / 2] / 16 else bytes[position / 2] % 16
  {
    if position >= 2 {
      NybbleAt(bytes[1..], position - 2);
    }
  }

  /** The bytes a run of nybbles is stored in, with a zero where the last byte is half used. */
  function Packed(s: seq<nybble>): seq<byte> {
    if s == [] then []
    else if |s| == 1 then [s[0] as int * 16]
    else [s[0] as int * 16 + s[1]] + Packed(s[2..])
  }

  lemma {:induction false} PackedNybbles(s: seq<nybble>)
    ensures s <= Nybbles(Packed(s))
  {
    if |s| >= 2 {
      var b: byte := s[0] as int * 16 + s[1];
      PackedNybbles(s[2..]);
      assert Packed(s)[1..] == Packed(s[2..]);
      assert b / 16 == s[0] && b % 16 == s[1];
      assert s == [s[0], s[1]] + s[2..];
    }
  }

  // ----- hexadecimal -----

  function HexDigits(n: nat): (s: seq<nybble>)
    ensures s != []
    ensures n > 0 ==> s[0] != 0
  {
    if n < 16 then [n] else HexDigits(n / 16) + [n % 16]
  }

  function HexValue(s: seq<nybble>): nat {
    if s == [] then 0 else HexValue(s[..|s| - 1]) * 16 + s[|s| - 1]
  }

  lemma {:induction false} HexValueOfDigits(n: nat)
    ensures HexValue(HexDigits(n)) == n
  {
    if n >= 16 {
      HexValueOfDigits(n / 16);
      assert HexDigits(n)[..|HexDigits(n)| - 1] == HexDigits(n / 16);
    }
  }

  lemma {:induction false} HexDigitsOfValue(s: seq<nybble>)
    requires s != [] && s[0] != 0
    ensures HexValue(s) > 0 && HexDigits(HexValue(s)) == s
    ensures |s| > 1 ==> HexValue(s) >= 16
  {
    if |s| == 1 {
      assert s[..0] == [] && HexValue(s[..0]) == 0;
    } else {
      var front := s[..|s| - 1];
      HexDigitsOfValue(front);
      var v := HexValue(front);
      var n := v * 16 + s[|s| - 1];
      Halves(v, s[|s| - 1]);
      assert s == front + [s[|s| - 1]];
    }
  }

  lemma Halves(v: nat, d: nybble)
    ensures (v * 16 + d) / 16 == v && (v * 16 + d) % 16 == d
  {}

  lemma {:induction false} HexValueGrows(s: seq<nybble>, k: nat)
    requires k <= |s|
    ensures HexValue(s[..k]) <= HexValue(s)
  {
    if k == |s| {
      assert s[..k] == s;
    } else {
      HexValueGrows(s[..|s| - 1], k);
      assert s[..|s| - 1][..k] == s[..k];
    }
  }

  // ----- the code -----

  /** The last value with a code of at most two nybbles. */
  function Base(dyn: dynamic): (base: nat)
    ensures base >= dyn
  {
    (13 - dyn) * 16 + dyn
  }

  /** The largest number the decoder can give: 32 bits bound both the digits it gathers and the
      number itself, and only for a dynamic value of 13 do the digits run out first. */
  function Largest(dyn: dynamic): nat { if dyn == 13 then 0xFFFF_FFFD else 0xFFFF_FFFF }

  /** The code of a number: one nybble, two, or as many zeros as its hexadecimal has digits less one. */
  function Code(n: nat, dyn: dynamic): (s: seq<nybble>)
    requires n >= 1
    ensures s != []
  {
    if n <= dyn then [n]
    else if n <= Base(dyn) then [(n - dyn - 1) / 16 + dyn + 1, (n - dyn - 1) % 16]
    else
      var digits := HexDigits(n - Base(dyn) + 15);
      ZeroNybbles(|digits| - 1) + digits
  }

  function ZeroNybbles(n: nat): (s: seq<nybble>)
    ensures |s| == n && forall i :: 0 <= i < n ==> s[i] == 0
  {
    seq(n, _ => 0)
  }

  function LeadingZeros(s: seq<nybble>): (n: nat)
    ensures n <= |s|
    ensures forall i :: 0 <= i < n ==> s[i] == 0
    ensures n < |s| ==> s[n] != 0
  {
    if s == [] || s[0] != 0 then 0 else 1 + LeadingZeros(s[1..])
  }

  /** A number with no repeat count before it and the nybbles it takes, or None where the raster ends
      within it, it is too large, or it begins as a repeat count does. */
  function PlainNumber(s: seq<nybble>, dyn: dynamic): (r: Option<(nat, nat)>)
    ensures r.Some? ==> 0 < r.value.1 <= |s|
  {
    if s == [] then None
    else if s[0] == 0 then
      var z := LeadingZeros(s);
      if 2 * z + 1 > |s| then None
      else
        var gathered := HexValue(s[z..2 * z + 1]);
        if gathered > UINT32_MAX || gathered < 15 || gathered - 15 + Base(dyn) > UINT32_MAX then None
        else Some((gathered - 15 + Base(dyn), 2 * z + 1))
    else if s[0] <= dyn then Some((s[0], 1))
    else if s[0] < 14 then
      if |s| < 2 then None else Some(((s[0] - dyn - 1) * 16 + s[1] + dyn + 1, 2))
    else None
  }

  /** Every code decodes to its number, up to the 32-bit bound and no further. */
  lemma CodeDecodes(n: nat, dyn: dynamic, rest: seq<nybble>)
    requires n >= 1
    ensures PlainNumber(Code(n, dyn) + rest, dyn) == if n <= Largest(dyn) then Some((n, |Code(n, dyn)|)) else None
  {
    if n > Base(dyn) {
      LargeCodeDecodes(n, dyn, rest);
    } else {
      hide HexDigits, HexValue;
    }
  }

  lemma LargeCodeDecodes(n: nat, dyn: dynamic, rest: seq<nybble>)
    requires n > Base(dyn)
    ensures PlainNumber(Code(n, dyn) + rest, dyn) == if n <= Largest(dyn) then Some((n, |Code(n, dyn)|)) else None
  {
    hide HexDigits, HexValue, LeadingZeros, PlainNumber, Base, Largest;
    var m := n - Base(dyn) + 15;
    HexValueOfDigits(m);
    TwoDigits(m);
    var digits := HexDigits(m);
    var z: nat := |digits| - 1;
    ZerosFirst(z, digits + rest);
    Assoc(ZeroNybbles(z), digits, rest);
    Middle(ZeroNybbles(z), digits, rest);
    LargeDecodes(ZeroNybbles(z) + digits + rest, dyn, z, digits);
    LargestOf(n, dyn);
  }

  lemma TwoDigits(m: nat)
    requires m >= 16
    ensures |HexDigits(m)| > 1
  {}

  lemma LargestOf(n: nat, dyn: dynamic)
    requires n > Base(dyn)
    ensures n <= Largest(dyn) <==> n - Base(dyn) + 15 <= UINT32_MAX && n <= UINT32_MAX
  {}

  lemma Middle<T>(a: seq<T>, b: seq<T>, c: seq<T>)
    ensures (a + b + c)[|a|..|a| + |b|] == b
    ensures (a + b + c)[..|a| + |b|] == a + b
  {}

  lemma LargeDecodes(s: seq<nybble>, dyn: dynamic, z: nat, digits: seq<nybble>)
    requires z > 0 && |digits| == z + 1 && 2 * z + 1 <= |s| && LeadingZeros(s) == z && s[z..2 * z + 1] == digits
    requires HexValue(digits) > 15
    ensures var m := HexValue(digits);
      PlainNumber(s, dyn) == if m <= UINT32_MAX && m - 15 + Base(dyn) <= UINT32_MAX then Some((m - 15 + Base(dyn), 2 * z + 1)) else None
  {
    hide HexValue, LeadingZeros, Base;
    assert s[0] == 0;
  }

  lemma {:induction false} ZerosFirst(z: nat, tail: seq<nybble>)
    requires tail != [] && tail[0] != 0
    ensures LeadingZeros(ZeroNybbles(z) + tail) == z
  {
    var s := ZeroNybbles(z) + tail;
    if z == 0 {
      assert s == tail;
    } else {
      assert s[1..] == ZeroNybbles(z - 1) + tail;
      ZerosFirst(z - 1, tail);
    }
  }

  /** Whatever decodes begins with the one code of the number it decodes to, which is never zero. */
  lemma DecodedIsCoded(s: seq<nybble>, dyn: dynamic)
    requires PlainNumber(s, dyn).Some?
    ensures var (n, used) := PlainNumber(s, dyn).value;
      1 <= n <= Largest(dyn) && s[..used] == Code(n, dyn)
  {
    hide HexDigits, HexValue, LeadingZeros, Code, Largest;
    if s[0] == 0 {
      LargeIsCoded(s, dyn, LeadingZeros(s));
    } else {
      SmallIsCoded(s, dyn);
    }
  }

  lemma SmallIsCoded(s: seq<nybble>, dyn: dynamic)
    requires PlainNumber(s, dyn).Some? && s[0] != 0
    ensures var (n, used) := PlainNumber(s, dyn).value;
      1 <= n <= Largest(dyn) && s[..used] == Code(n, dyn)
  {
    hide HexDigits, HexValue, LeadingZeros;
    if s[0] > dyn {
      assert s[..2] == [s[0], s[1]];
      Halves(s[0] - dyn - 1, s[1]);
    }
  }

  lemma LargeIsCoded(s: seq<nybble>, dyn: dynamic, z: nat)
    requires s != [] && s[0] == 0 && z == LeadingZeros(s) && 2 * z + 1 <= |s|
    requires HexValue(s[z..2 * z + 1]) <= UINT32_MAX && HexValue(s[z..2 * z + 1]) - 15 + Base(dyn) <= UINT32_MAX
    ensures var n := HexValue(s[z..2 * z + 1]) - 15 + Base(dyn);
      1 <= n <= Largest(dyn) && n > Base(dyn) && s[..2 * z + 1] == Code(n, dyn)
  {
    hide HexDigits, HexValue, LeadingZeros, Code, Base, Largest;
    AfterZeros(s, z);
    var digits := s[z..2 * z + 1];
    HexDigitsOfValue(digits);
    var n: nat := HexValue(digits) - 15 + Base(dyn);
    LargeCode(n, digits, dyn);
    LargestOf(n, dyn);
  }

  lemma AfterZeros(s: seq<nybble>, z: nat)
    requires z == LeadingZeros(s) && 2 * z + 1 <= |s|
    ensures s[..2 * z + 1] == ZeroNybbles(z) + s[z..2 * z + 1]
    ensures s[z..2 * z + 1] != [] && s[z..2 * z + 1][0] != 0
  {
    hide LeadingZeros;
    assert s[..z] == ZeroNybbles(z);
    assert s[..2 * z + 1] == s[..z] + s[z..2 * z + 1];
  }

  lemma LargeCode(n: nat, digits: seq<nybble>, dyn: dynamic)
    requires n > Base(dyn) && digits != [] && digits == HexDigits(n - Base(dyn) + 15)
    ensures Code(n, dyn) == ZeroNybbles(|digits| - 1) + digits
  {
    hide HexDigits, Base;
  }

  /** No code begins another. */
  lemma CodesPrefixFree(m: nat, n: nat, dyn: dynamic, restM: seq<nybble>, restN: seq<nybble>)
    requires 1 <= m <= Largest(dyn) && 1 <= n <= Largest(dyn)
    requires Code(m, dyn) + restM == Code(n, dyn) + restN
    ensures m == n && restM == restN
  {
    CodeDecodes(m, dyn, restM);
    CodeDecodes(n, dyn, restN);
    hide Code, PlainNumber;
    assert restM == (Code(m, dyn) + restM)[|Code(m, dyn)|..];
    assert restN == (Code(n, dyn) + restN)[|Code(n, dyn)|..];
  }

  // ----- a number and the repeat count before it -----

  datatype Counted = Counted(value: nat, repeat: nat, used: nat)

  /** pk_packed_number as a run is read: at most one repeat count, and none where one is already
      pending for the row. */
  function CountedNumber(s: seq<nybble>, dyn: dynamic, pending: nat): (r: Option<Counted>)
    ensures r.Some? ==> 0 < r.value.used <= |s|
  {
    if s != [] && s[0] >= 14 then
      if pending != 0 then None
      else
        var count := if s[0] == 14 then PlainNumber(s[1..], dyn) else Some((1, 0));
        if count.None? then None
        else WithRepeat(PlainNumber(s[1 + count.value.1..], dyn), count.value.0, 1 + count.value.1)
    else WithRepeat(PlainNumber(s, dyn), pending, 0)
  }

  function WithRepeat(number: Option<(nat, nat)>, repeat: nat, before: nat): Option<Counted> {
    if number.None? then None else Some(Counted(number.value.0, repeat, before + number.value.1))
  }

  /** The raster being read, nybble by nybble. */
  class Reader {
    const bytes: seq<byte>
    var position: nat

    constructor (bytes: seq<byte>)
      ensures this.bytes == bytes && position == 0
    {
      this.bytes := bytes;
      position := 0;
    }

    ghost function Rest(): seq<nybble>
      reads this
    {
      if position <= 2 * |bytes| then Nybbles(bytes)[position..] else []
    }

    /** pk_nybble. */
    method Next() returns (value: Option<nybble>)
      modifies this
      ensures value.None? <==> old(Rest()) == []
      ensures value.None? ==> position == old(position)
      ensures value.Some? ==> value.value == old(Rest())[0] && Rest() == old(Rest())[1..]
    {
      if position / 2 >= |bytes| {
        return None;
      }
      NybbleAt(bytes, position);
      var b := bytes[position / 2];
      value := Some(if position % 2 == 0 then b / 16 else b % 16);
      position := position + 1;
    }
  
    /** pk_packed_number. A repeat count is taken only where one is allowed and none is pending. */
    method PackedNumber(dyn: dynamic, repeat: nat, allowRepeat: bool) returns (r: Option<(nat, nat)>)
      modifies this
      ensures var spec := if allowRepeat then CountedNumber(old(Rest()), dyn, repeat)
                          else WithRepeat(PlainNumber(old(Rest()), dyn), repeat, 0);
        && (r.None? <==> spec.None?)
        && (r.Some? ==> r.value == (spec.value.value, spec.value.repeat))
        && (r.Some? ==> spec.value.used <= |old(Rest())| && Rest() == old(Rest())[spec.value.used..])
      decreases allowRepeat, 1
    {
      hide HexDigits, HexValue, LeadingZeros, Rest;
      ghost var s := Rest();
      var first := Next();
      if first.None? {
        return None;
      }
      if first.value == 0 {
        var large := LargeNumber(dyn, s);
        return if large.None? then None else Some((large.value, repeat));
      }
      if first.value <= dyn {
        return Some((first.value, repeat));
      }
      if first.value < 14 {
        var second := Next();
        if second.None? {
          return None;
        }
        assert Rest() == s[2..];
        return Some(((first.value - dyn - 1) * 16 + second.value + dyn + 1, repeat));
      }
      if !allowRepeat || repeat != 0 {
        return None;
      }
      r := RepeatedNumber(dyn, first.value, s);
    }

    /** The repeat count a first nybble of 14 or 15 announces, and the number behind it. */
    method RepeatedNumber(dyn: dynamic, first: nybble, ghost s: seq<nybble>) returns (r: Option<(nat, nat)>)
      requires s != [] && s[0] == first >= 14 && Rest() == s[1..]
      modifies this
      ensures r.None? <==> CountedNumber(s, dyn, 0).None?
      ensures r.Some? ==> r.value == (CountedNumber(s, dyn, 0).value.value, CountedNumber(s, dyn, 0).value.repeat)
      ensures r.Some? ==> CountedNumber(s, dyn, 0).value.used <= |s| && Rest() == s[CountedNumber(s, dyn, 0).value.used..]
      decreases true, 0
    {
      hide HexDigits, HexValue, PlainNumber, Rest;
      var repeated := 1;
      ghost var used := 1;
      if first == 14 {
        var nested := PackedNumber(dyn, 0, false);
        if nested.None? {
          return None;
        }
        repeated := nested.value.0;
        used := 1 + PlainNumber(s[1..], dyn).value.1;
        Suffix(s, 1, used - 1);
      }
      r := PackedNumber(dyn, repeated, false);
      if r.Some? {
        Suffix(s, used, PlainNumber(s[used..], dyn).value.1);
      }
    }

    /** The rest of a number that began with a zero nybble. */
    method LargeNumber(dyn: dynamic, ghost s: seq<nybble>) returns (r: Option<nat>)
      requires s != [] && s[0] == 0 && Rest() == s[1..]
      modifies this
      ensures r.None? <==> PlainNumber(s, dyn).None?
      ensures r.Some? ==> r.value == PlainNumber(s, dyn).value.0
      ensures r.Some? ==> PlainNumber(s, dyn).value.1 <= |s| && Rest() == s[PlainNumber(s, dyn).value.1..]
    {
      hide HexDigits, HexValue, Rest;
      var zeros: nat := 0;
      var digit: nybble := 0;
      while digit == 0
        invariant zeros < |s| && Rest() == s[zeros + 1..]
        invariant forall i :: 0 <= i < zeros ==> s[i] == 0
        invariant s[zeros] == digit
        decreases |s| - zeros
      {
        var next := Next();
        if next.None? {
          AllZeros(s, zeros);
          return None;
        }
        digit := next.value;
        zeros := zeros + 1;
      }
      FirstNonZero(s, zeros);
      r := GatherDigits(dyn, s, zeros, digit);
    }

    /** The digits behind the first one that is not zero, as many as there were zeros. */
    method GatherDigits(dyn: dynamic, ghost s: seq<nybble>, zeros: nat, digit: nybble) returns (r: Option<nat>)
      requires 0 < zeros < |s| && LeadingZeros(s) == zeros && s[0] == 0 && s[zeros] == digit && Rest() == s[zeros + 1..]
      modifies this
      ensures r.None? <==> PlainNumber(s, dyn).None?
      ensures r.Some? ==> r.value == PlainNumber(s, dyn).value.0
      ensures r.Some? ==> PlainNumber(s, dyn).value.1 <= |s| && Rest() == s[PlainNumber(s, dyn).value.1..]
    {
      hide HexDigits, HexValue, Rest, LeadingZeros;
      var result: nat := digit;
      var left := zeros;
      HexValueOne(s, zeros);
      while left != 0
        invariant 0 <= left <= zeros
        invariant 2 * zeros + 1 - left <= |s| && Rest() == s[2 * zeros + 1 - left..]
        invariant result == HexValue(s[zeros..2 * zeros + 1 - left]) <= UINT32_MAX
        decreases left
      {
        var next := Next();
        if next.None? {
          return None;
        }
        HexValueStep(s, zeros, 2 * zeros + 1 - left);
        if result > (UINT32_MAX - next.value) / 16 {
          if 2 * zeros + 1 <= |s| {
            HexValuePrefix(s, zeros, 2 * zeros + 2 - left, 2 * zeros + 1);
          }
          return None;
        }
        result := result * 16 + next.value;
        left := left - 1;
      }
      if result < 15 || result - 15 + Base(dyn) > UINT32_MAX {
        return None;
      }
      r := Some(result - 15 + Base(dyn));
    }
  }

  lemma Suffix<T>(s: seq<T>, a: nat, b: nat)
    requires a + b <= |s|
    ensures s[a..][b..] == s[a + b..]
  {}

  lemma {:induction false} FirstNonZero(s: seq<nybble>, z: nat)
    requires z < |s| && s[z] != 0 && forall i :: 0 <= i < z ==> s[i] == 0
    ensures LeadingZeros(s) == z
  {
    if z > 0 { FirstNonZero(s[1..], z - 1); }
  }

  lemma AllZeros(s: seq<nybble>, z: nat)
    requires z + 1 == |s| && s[z] == 0 && forall i :: 0 <= i < z ==> s[i] == 0
    ensures LeadingZeros(s) == |s|
  {
    hide LeadingZeros;
    var n := LeadingZeros(s);
  }

  lemma HexValueOne(s: seq<nybble>, at: nat)
    requires at < |s|
    ensures HexValue(s[at..at + 1]) == s[at]
  {
    assert s[at..at + 1][..0] == [];
  }

  lemma HexValueStep(s: seq<nybble>, start: nat, end: nat)
    requires start <= end < |s|
    ensures HexValue(s[start..end + 1]) == HexValue(s[start..end]) * 16 + s[end]
  {
    var longer := s[start..end + 1];
    assert longer[..|longer| - 1] == s[start..end];
  }

  lemma HexValuePrefix(s: seq<nybble>, start: nat, end: nat, finish: nat)
    requires start <= end <= finish <= |s|
    ensures HexValue(s[start..end]) <= HexValue(s[start..finish])
  {
    HexValueGrows(s[start..finish], end - start);
    assert s[start..finish][..end - start] == s[start..end];
  }
}
