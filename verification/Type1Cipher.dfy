/** The two cipher layers of a Type 1 font and the reader that stops at the end of the private section. */
module Type1Cipher {
  import opened Bytes

  const CHARSTRING_KEY: u16 := 4330
  const EEXEC_KEY: u16 := 55665

  const CR: byte := 13
  const LF: byte := 10

  /** The running key: the sum never passes 32 bits, and the cast keeps the low 16. */
  function NextState(cipher: byte, state: u16): u16 {
    ((cipher + state) * 52845 + 22719) % 0x1_0000
  }

  function Mask(state: u16): byte { state / 256 }

  function Encrypted(plain: seq<byte>, key: u16): (cipher: seq<byte>)
    ensures |cipher| == |plain|
  {
    if plain == [] then []
    else
      var c := Xor(plain[0], Mask(key));
      [c] + Encrypted(plain[1..], NextState(c, key))
  }

  function Decrypted(cipher: seq<byte>, key: u16): (plain: seq<byte>)
    ensures |plain| == |cipher|
  {
    if cipher == [] then []
    else [Xor(cipher[0], Mask(key))] + Decrypted(cipher[1..], NextState(cipher[0], key))
  }

  /** The running key once some cipher bytes have gone by. */
  function StateAfter(cipher: seq<byte>, key: u16): u16 {
    if cipher == [] then key else StateAfter(cipher[1..], NextState(cipher[0], key))
  }

  lemma {:induction false} FirstEncrypted(first: byte, others: seq<byte>, key: u16)
    ensures var c := Xor(first, Mask(key));
      Encrypted([first] + others, key) == [c] + Encrypted(others, NextState(c, key))
  {
    hide NextState, Xor;
    assert ([first] + others)[1..] == others;
  }

  lemma {:induction false} FirstDecrypted(first: byte, others: seq<byte>, key: u16)
    ensures Decrypted([first] + others, key) == [Xor(first, Mask(key))] + Decrypted(others, NextState(first, key))
  {
    hide NextState, Xor;
    assert ([first] + others)[1..] == others;
  }

  lemma {:induction false} DecryptUndoesEncrypt(plain: seq<byte>, key: u16)
    ensures Decrypted(Encrypted(plain, key), key) == plain
  {
    hide NextState, Xor;
    if plain != [] {
      var first := Xor(plain[0], Mask(key));
      XorTwice(plain[0], Mask(key));
      DecryptUndoesEncrypt(plain[1..], NextState(first, key));
      FirstEncrypted(plain[0], plain[1..], key);
      FirstDecrypted(first, Encrypted(plain[1..], NextState(first, key)), key);
      hide Encrypted, Decrypted;
      assert plain == [plain[0]] + plain[1..];
    }
  }

  lemma {:induction false} EncryptUndoesDecrypt(cipher: seq<byte>, key: u16)
    ensures Encrypted(Decrypted(cipher, key), key) == cipher
  {
    hide NextState, Xor;
    if cipher != [] {
      var first := Xor(cipher[0], Mask(key));
      XorTwice(cipher[0], Mask(key));
      EncryptUndoesDecrypt(cipher[1..], NextState(cipher[0], key));
      FirstDecrypted(cipher[0], cipher[1..], key);
      FirstEncrypted(first, Decrypted(cipher[1..], NextState(cipher[0], key)), key);
      hide Encrypted, Decrypted;
      assert cipher == [cipher[0]] + cipher[1..];
    }
  }

  lemma {:induction false} StateAfterOne(cipher: seq<byte>, next: byte, key: u16)
    ensures StateAfter(cipher + [next], key) == NextState(next, StateAfter(cipher, key))
  {
    if cipher == [] {
      assert ([] + [next])[1..] == [];
    } else {
      StateAfterOne(cipher[1..], next, NextState(cipher[0], key));
      assert (cipher + [next])[1..] == cipher[1..] + [next];
    }
  }

  /** Each plain byte depends on its own cipher byte and the ones before it, nothing after. */
  lemma {:induction false} DecryptedAt(cipher: seq<byte>, key: u16, i: nat)
    requires i < |cipher|
    ensures Decrypted(cipher, key)[i] == Xor(cipher[i], Mask(StateAfter(cipher[..i], key)))
  {
    hide NextState, Xor;
    if i > 0 {
      DecryptedAt(cipher[1..], NextState(cipher[0], key), i - 1);
      assert cipher[1..][..i - 1] == cipher[..i][1..];
    }
  }

  /** The assembler's in-place encryption. */
  method EncryptInPlace(bytes: array<byte>, key: u16)
    modifies bytes
    ensures bytes[..] == Encrypted(old(bytes[..]), key)
  {
    hide NextState, Xor;
    var state := key;
    var index := 0;
    while index < bytes.Length
      invariant 0 <= index <= bytes.Length
      invariant bytes[index..] == old(bytes[index..])
      invariant Encrypted(old(bytes[..]), key) == bytes[..index] + Encrypted(bytes[index..], state)
    {
      ghost var before := bytes[..index];
      ghost var rest := bytes[index..];
      var cipher := Xor(bytes[index], Mask(state));
      bytes[index] := cipher;
      ghost var next := NextState(cipher, state);
      assert bytes[..index + 1] == before + [cipher];
      assert rest[1..] == bytes[index + 1..];
      assert Encrypted(rest, state) == [cipher] + Encrypted(rest[1..], next);
      assert before + ([cipher] + Encrypted(rest[1..], next)) == (before + [cipher]) + Encrypted(rest[1..], next);
      state := NextState(cipher, state);
      index := index + 1;
    }
  }

  // ----- searching -----

  ghost predicate OccursAt(text: seq<byte>, phrase: seq<byte>, k: nat) {
    k + |phrase| <= |text| && text[k..k + |phrase|] == phrase
  }

  ghost predicate Contains(text: seq<byte>, phrase: seq<byte>) {
    exists k: nat :: OccursAt(text, phrase, k)
  }

  /** type1_find: the first place a phrase stands, if it stands anywhere. */
  method Find(text: seq<byte>, phrase: seq<byte>) returns (found: Option<nat>)
    requires phrase != []
    ensures found.Some? ==> OccursAt(text, phrase, found.value)
    ensures found.Some? ==> forall k: nat :: k < found.value ==> !OccursAt(text, phrase, k)
    ensures found.None? <==> !Contains(text, phrase)
  {
    if |text| < |phrase| {
      return None;
    }
    var last := |text| - |phrase|;
    var at := 0;
    while at <= last
      invariant 0 <= at <= last + 1
      invariant forall k: nat :: k < at ==> !OccursAt(text, phrase, k)
    {
      if text[at..at + |phrase|] == phrase {
        assert OccursAt(text, phrase, at);
        return Some(at);
      }
      at := at + 1;
    }
    return None;
  }

  // ----- the end of the private section -----

  const CLOSE_PHRASE: seq<byte> := Ascii("currentfile closefile")

  predicate Terminator(b: byte) { b == CR || b == LF }

  /** Where the line that position i stands on (or ends) begins. */
  function LineStart(text: seq<byte>, i: nat): (start: nat)
    requires i <= |text|
    ensures start <= i
    ensures forall j :: start <= j < i ==> !Terminator(text[j])
    ensures start == 0 || Terminator(text[start - 1])
  {
    if i == 0 || Terminator(text[i - 1]) then i else LineStart(text, i - 1)
  }

  /** A line terminator whose own line holds the closing phrase. */
  ghost predicate ClosesAt(text: seq<byte>, i: nat) {
    i < |text| && Terminator(text[i]) && Contains(text[LineStart(text, i)..i], CLOSE_PHRASE)
  }

  ghost predicate FirstClose(text: seq<byte>, i: nat) {
    ClosesAt(text, i) && forall j: nat :: j < i ==> !ClosesAt(text, j)
  }

  /** One past a terminator, counting CR followed by LF as one. */
  function AfterTerminator(text: seq<byte>, i: nat): nat
    requires i < |text|
  {
    if text[i] == CR && i + 1 < |text| && text[i + 1] == LF then i + 2 else i + 1
  }

  /** Where the private section ends: past the first closing line, or at the end of a text whose
      last, unterminated line is the closing one. */
  ghost predicate SectionEnd(text: seq<byte>, end: nat) {
    || (exists i: nat :: FirstClose(text, i) && end == AfterTerminator(text, i))
    || (&& (forall i: nat :: !ClosesAt(text, i))
        && Contains(text[LineStart(text, |text|)..], CLOSE_PHRASE)
        && end == |text|)
  }

  lemma SectionEndUnique(text: seq<byte>, e1: nat, e2: nat)
    requires SectionEnd(text, e1) && SectionEnd(text, e2)
    ensures e1 == e2 <= |text|
  {
    if i: nat :| FirstClose(text, i) && e1 == AfterTerminator(text, i) {
      var j: nat :| FirstClose(text, j) && e2 == AfterTerminator(text, j);
      assert !(i < j) && !(j < i);
    }
  }

  datatype EexecResult = Opened(plain: seq<byte>, consumed: nat) | TruncatedPrefix | NoSectionEnd

  /** The plaintext behind the four-byte prefix. */
  function Body(cipher: seq<byte>): seq<byte> {
    if |cipher| < 4 then [] else Decrypted(cipher, EEXEC_KEY)[4..]
  }

  /** What one more byte does to the line being read. */
  lemma LineStep(text: seq<byte>, at: nat)
    requires at < |text|
    ensures Terminator(text[at]) ==>
      && LineStart(text, at + 1) == at + 1
      && (ClosesAt(text, at) <==> Contains(text[LineStart(text, at)..at], CLOSE_PHRASE))
    ensures !Terminator(text[at]) ==> LineStart(text, at + 1) == LineStart(text, at) && !ClosesAt(text, at)
  {}

  lemma SectionEndAtClose(text: seq<byte>, i: nat)
    requires FirstClose(text, i)
    ensures i < |text| && SectionEnd(text, AfterTerminator(text, i))
  {}

  lemma LastLineDecides(text: seq<byte>, start: nat)
    requires start == LineStart(text, |text|)
    requires forall i: nat :: i < |text| ==> !ClosesAt(text, i)
    ensures start < |text| && Contains(text[start..], CLOSE_PHRASE) ==> SectionEnd(text, |text|)
    ensures !(start < |text| && Contains(text[start..], CLOSE_PHRASE)) ==> forall end: nat :: !SectionEnd(text, end)
  {
    assert |CLOSE_PHRASE| > 0;
    assert forall i: nat :: i >= |text| ==> !ClosesAt(text, i);
  }

  lemma BodyLength(cipher: seq<byte>)
    ensures |Body(cipher)| == if |cipher| < 4 then 0 else |cipher| - 4
  {}

  /** One step of the running decryption, at position `index` of the cipher. */
  lemma DecryptStep(cipher: seq<byte>, index: nat, state: u16)
    requires index < |cipher| && state == StateAfter(cipher[..index], EEXEC_KEY)
    ensures NextState(cipher[index], state) == StateAfter(cipher[..index + 1], EEXEC_KEY)
    ensures index >= 4 ==> index - 4 < |Body(cipher)| && Body(cipher)[index - 4] == Xor(cipher[index], Mask(state))
  {
    hide NextState, Xor;
    DecryptedAt(cipher, EEXEC_KEY, index);
    StateAfterOne(cipher[..index], cipher[index], EEXEC_KEY);
    assert cipher[..index + 1] == cipher[..index] + [cipher[index]];
  }

  /** type1_decrypt_eexec. */
  method DecryptEexec(cipher: seq<byte>) returns (result: EexecResult)
    ensures result.TruncatedPrefix? <==> |cipher| < 4
    ensures result.Opened? ==>
      && 4 <= result.consumed <= |cipher|
      && SectionEnd(Body(cipher), result.consumed - 4)
      && result.plain == Body(cipher)[..result.consumed - 4]
    ensures result.NoSectionEnd? ==> forall end: nat :: !SectionEnd(Body(cipher), end)
  {
    BodyLength(cipher);
    hide NextState, Xor, Decrypted, Body, LineStart, ClosesAt, SectionEnd, Contains, OccursAt;
    var state := EEXEC_KEY;
    var plain: seq<byte> := [];
    var lineStart := 0;
    var index := 0;
    ghost var body := Body(cipher);
    while index < |cipher|
      invariant 0 <= index <= |cipher|
      invariant state == StateAfter(cipher[..index], EEXEC_KEY)
      invariant |plain| == if index < 4 then 0 else index - 4
      invariant |plain| <= |body| && plain == body[..|plain|]
      invariant lineStart == LineStart(body, |plain|)
      invariant forall j: nat :: j < |plain| ==> !ClosesAt(body, j)
    {
      var byte := cipher[index];
      var decrypted := Xor(byte, Mask(state));
      DecryptStep(cipher, index, state);
      state := NextState(byte, state);
      if index >= 4 {
        LineStep(body, |plain|);
        plain := plain + [decrypted];
        if decrypted == CR || decrypted == LF {
          var closes := LineCloses(plain, lineStart, body);
          if closes {
            result := CloseSection(cipher, index, state, plain);
            SectionEndAtClose(body, index - 4);
            return;
          }
          lineStart := |plain|;
        }
      }
      index := index + 1;
    }
    if |cipher| < 4 {
      return TruncatedPrefix;
    }
    assert plain == body;
    result := LastLine(cipher, plain, lineStart);
  }

  /** What the reader does where no line has closed the section: the last line may, without a terminator. */
  method LastLine(cipher: seq<byte>, plain: seq<byte>, lineStart: nat) returns (result: EexecResult)
    requires |cipher| >= 4 && plain == Body(cipher) && lineStart == LineStart(plain, |plain|)
    requires forall i: nat :: i < |plain| ==> !ClosesAt(plain, i)
    ensures !result.TruncatedPrefix?
    ensures result.Opened? ==> result == Opened(plain, |cipher|) && |cipher| - 4 == |plain| && SectionEnd(plain, |plain|)
    ensures result.NoSectionEnd? ==> forall end: nat :: !SectionEnd(plain, end)
  {
    BodyLength(cipher);
    hide Body, LineStart, ClosesAt, SectionEnd, Contains, OccursAt;
    LastLineDecides(plain, lineStart);
    var last := Find(plain[lineStart..], CLOSE_PHRASE);
    result := if lineStart < |plain| && last.Some? then Opened(plain, |cipher|) else NoSectionEnd;
  }

  /** Whether the line just ended is the closing one. */
  method LineCloses(plain: seq<byte>, lineStart: nat, ghost body: seq<byte>) returns (closes: bool)
    requires 0 < |plain| <= |body| && plain == body[..|plain|] && Terminator(body[|plain| - 1])
    requires lineStart == LineStart(body, |plain| - 1)
    ensures closes <==> ClosesAt(body, |plain| - 1)
  {
    hide LineStart, Contains, OccursAt;
    var phrase := Find(plain[lineStart..|plain| - 1], CLOSE_PHRASE);
    assert plain[lineStart..|plain| - 1] == body[lineStart..|plain| - 1];
    closes := phrase.Some?;
  }

  /** What the reader does at the terminator of the closing line: take the LF of a CRLF with it. */
  method CloseSection(cipher: seq<byte>, index: nat, state: u16, plain: seq<byte>) returns (result: EexecResult)
    requires 4 <= index < |cipher|
    requires state == StateAfter(cipher[..index + 1], EEXEC_KEY)
    requires plain == Body(cipher)[..index - 3]
    requires FirstClose(Body(cipher), index - 4)
    ensures result.Opened? && 4 <= result.consumed <= |cipher|
    ensures result.consumed - 4 == AfterTerminator(Body(cipher), index - 4)
    ensures result.plain == Body(cipher)[..result.consumed - 4]
  {
    hide NextState, Xor, Decrypted, StateAfter;
    var consumed := index + 1;
    result := Opened(plain, consumed);
    if plain[index - 4] == CR && index + 1 < |cipher| {
      var nextPlain := Xor(cipher[index + 1], Mask(state));
      DecryptStep(cipher, index + 1, state);
      if nextPlain == LF {
        result := Opened(plain + [nextPlain], consumed + 1);
      }
    }
  }

  /** A private section enciphered behind any four bytes deciphers to itself. */
  lemma EexecWholeSection(prefix: seq<byte>, text: seq<byte>)
    requires |prefix| == 4
    ensures Body(Encrypted(prefix + text, EEXEC_KEY)) == text
  {
    DecryptUndoesEncrypt(prefix + text, EEXEC_KEY);
    assert (prefix + text)[4..] == text;
  }
}
