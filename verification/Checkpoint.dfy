/** The input stack to disk and back: a stack restored reads on exactly as the one written. */
module Checkpoint {
  import opened Bytes
  import opened Words
  import opened Mouth
  import opened Source
  import opened SourceStack

  // ----- reading from the front of a stream -----

  /** What a reader got, and what is left behind it; None where the stream ran out. */
  type Taken<T> = Option<(T, seq<byte>)>

  function Take(bytes: seq<byte>, n: nat): (r: Taken<seq<byte>>)
    ensures r.Some? ==> |r.value.0| == n
  {
    if n > |bytes| then None else Some((bytes[..n], bytes[n..]))
  }

  function FrontWord(bytes: seq<byte>, width: nat): Taken<nat> {
    if width > |bytes| then None else Some((ReadWord(bytes, 0, width), bytes[width..]))
  }

  /** So many tokens of four bytes each. */
  function FrontTokens(bytes: seq<byte>, count: nat): (r: Taken<seq<u32>>)
    ensures r.Some? ==> |r.value.0| == count
  {
    if 4 * count > |bytes| then None else Some((TokensAt(bytes, 0, count), bytes[4 * count..]))
  }

  lemma TakeBack(a: seq<byte>, rest: seq<byte>)
    ensures Take(a + rest, |a|) == Some((a, rest))
  {}

  lemma FrontWordBack(value: nat, width: nat, rest: seq<byte>)
    requires value < Range(width)
    ensures FrontWord(LittleEndian(value, width) + rest, width) == Some((value, rest))
  {
    var bytes := LittleEndian(value, width) + rest;
    assert Stands(LittleEndian(value, width), bytes, 0);
    WordRead(value, width, bytes, 0);
  }

  lemma FrontTokensBack(words: seq<u32>, rest: seq<byte>)
    ensures FrontTokens(TokenBytes(words) + rest, |words|) == Some((words, rest))
  {
    var bytes := TokenBytes(words) + rest;
    assert Stands(TokenBytes(words), bytes, 0);
    TokensRead(words, bytes, 0);
  }

  // ----- a position -----

  function ModeByte(mode: Mode): byte {
    match mode
    case NewLine => 0
    case MiddleLine => 1
    case SkipSpaces => 2
  }

  function ModeOf(b: byte): Mode { if b == 0 then NewLine else if b == 1 then MiddleLine else SkipSpaces }

  function Bool(b: bool): byte { if b then 1 else 0 }

  /** The record as it lies in memory: five words, a half word and four bytes. */
  function PositionBytes(at: Position): seq<byte> {
    LittleEndian(at.nextLine, 8) + (LittleEndian(at.lineStart, 8) + (LittleEndian(at.content, 8) + (LittleEndian(at.cursor, 8)
      + (LittleEndian(at.raw, 8) + (LittleEndian(at.lineNumber, 4)
      + [at.endByte, ModeByte(at.mode), Bool(at.loaded), Bool(at.hasEnd)])))))
  }

  function TakePosition(bytes: seq<byte>): Taken<Position> {
    if |bytes| < 48 then None
    else
      Some((Position(
        FromLittleEndian(bytes[..8]), FromLittleEndian(bytes[8..16]), FromLittleEndian(bytes[16..24]),
        FromLittleEndian(bytes[24..32]), FromLittleEndian(bytes[32..40]), FromLittleEndian(bytes[40..44]) % 0x1_0000_0000,
        bytes[44], ModeOf(bytes[45]), bytes[46] != 0, bytes[47] != 0), bytes[48..]))
  }

  predicate PositionFits(at: Position) {
    && at.nextLine < 0x1_0000_0000_0000_0000 && at.lineStart < 0x1_0000_0000_0000_0000
    && at.content < 0x1_0000_0000_0000_0000 && at.cursor < 0x1_0000_0000_0000_0000 && at.raw < 0x1_0000_0000_0000_0000
  }

  lemma PositionBack(at: Position, rest: seq<byte>)
    requires PositionFits(at)
    ensures TakePosition(PositionBytes(at) + rest) == Some((at, rest))
  {
    hide LittleEndian, FromLittleEndian;
    Range8();
    Range4();
    ScalarRoundTrip(at.nextLine, 8);
    ScalarRoundTrip(at.lineStart, 8);
    ScalarRoundTrip(at.content, 8);
    ScalarRoundTrip(at.cursor, 8);
    ScalarRoundTrip(at.raw, 8);
    ScalarRoundTrip(at.lineNumber, 4);
    var bytes := PositionBytes(at) + rest;
    assert bytes[..8] == LittleEndian(at.nextLine, 8);
    assert bytes[8..16] == LittleEndian(at.lineStart, 8);
    assert bytes[16..24] == LittleEndian(at.content, 8);
    assert bytes[24..32] == LittleEndian(at.cursor, 8);
    assert bytes[32..40] == LittleEndian(at.raw, 8);
    assert bytes[40..44] == LittleEndian(at.lineNumber, 4);
    assert bytes[48..] == rest;
  }

  // ----- a frame -----

  /** Files by their path, as they are when the stack is restored. */
  type Files = seq<byte> -> Option<seq<byte>>

  function FileBytes(path: seq<byte>, m: MouthState): seq<byte> {
    LittleEndian(|path|, 8) + (path + (PositionBytes(PositionOf(m)) + if m.loaded then m.line else []))
  }

  function ListBytes(words: seq<u32>, s: TokenSource): seq<byte> {
    LittleEndian(s.count, 4) + (LittleEndian(s.cursor, 4) + (LittleEndian(s.location.line, 4) + (LittleEndian(s.location.column, 4)
      + ([s.kind] + (LittleEndian(s.name, 4) + TokenBytes(words))))))
  }

  /** One frame: the byte that says what it is, and what is needed to read on from it. */
  function FrameBytes(frame: Frame, store: seq<u32>): seq<byte> {
    match frame
    case File(path, mouth) => [0] + FileBytes(path, mouth)
    case TokenList(s) => [1] + ListBytes(ListWords(s, store), s)
    case Boundary => [2]
  }

  /** A file frame: the file reopened and the tokenizer put back where it stood. */
  function TakeFile(bytes: seq<byte>, files: Files): Taken<Frame> {
    var length := FrontWord(bytes, 8);
    if length.None? || length.value.0 > 0xFFFF_FFFF_FFFF_FFFE then None
    else
      var path := Take(length.value.1, length.value.0);
      if path.None? then None
      else
        var at := TakePosition(path.value.1);
        if at.None? then None
        else TakeLine(path.value.0, at.value.0, at.value.1, files)
  }

  function TakeLine(path: seq<byte>, at: Position, bytes: seq<byte>, files: Files): Taken<Frame> {
    var line := Take(bytes, if at.loaded then at.raw else 0);
    if line.None? || files(path).None? then None
    else Some((File(path, Restored(files(path).value, at, line.value.0)), line.value.1))
  }

  /** A list comes back owning its tokens. */
  function ListBack(words: seq<u32>, cursor: nat, location: Location, kind: byte, name: u32): Frame {
    TokenList(TokenSource(Outside(words), |words|, cursor, location, 0, 0, 0, false, words != [], false, false, kind, name))
  }

  function TakeList(bytes: seq<byte>): Taken<Frame> {
    var count := FrontWord(bytes, 4);
    if count.None? then None
    else
      var cursor := FrontWord(count.value.1, 4);
      if cursor.None? then None
      else
        var place := TakePlace(cursor.value.1);
        if place.None? then None
        else TakeListTail(count.value.0, cursor.value.0, place.value.0, place.value.1)
  }

  function TakePlace(bytes: seq<byte>): Taken<Location> {
    var line := FrontWord(bytes, 4);
    if line.None? then None
    else
      var column := FrontWord(line.value.1, 4);
      if column.None? then None
      else Some((Location(line.value.0 % 0x1_0000_0000, column.value.0 % 0x1_0000_0000), column.value.1))
  }

  function TakeListTail(count: nat, cursor: nat, location: Location, bytes: seq<byte>): Taken<Frame> {
    var kind := Take(bytes, 1);
    if kind.None? then None
    else
      var name := FrontWord(kind.value.1, 4);
      if name.None? then None
      else
        var words := FrontTokens(name.value.1, count);
        if words.None? then None
        else Some((ListBack(words.value.0, cursor, location, kind.value.0[0], name.value.0 % 0x1_0000_0000), words.value.1))
  }

  function TakeFrame(bytes: seq<byte>, files: Files): Taken<Frame> {
    if bytes == [] then None
    else if bytes[0] == 2 then Some((Boundary, bytes[1..]))
    else if bytes[0] == 0 then TakeFile(bytes[1..], files)
    else TakeList(bytes[1..])
  }

  /** The sizes a record has room for. */
  predicate FrameFits(frame: Frame) {
    match frame
    case File(path, mouth) => |path| < 0xFFFF_FFFF_FFFF_FFFF && PositionFits(PositionOf(mouth))
    case _ => true
  }

  /** The file is what it was. */
  predicate Unchanged(frame: Frame, files: Files) {
    frame.File? ==> files(frame.path) == Some(frame.mouth.data)
  }

  /** The file was not cut short before its first line. */
  predicate Uncut(frame: Frame) {
    frame.File? ==> frame.mouth.length == |frame.mouth.data|
  }

  /** What a frame comes back as. */
  function FrameBack(frame: Frame, store: seq<u32>): Frame {
    match frame
    case TokenList(s) => ListBack(ListWords(s, store), s.cursor, s.location, s.kind, s.name)
    case File(path, mouth) => File(path, mouth.(length := |mouth.data|))
    case Boundary => frame
  }

  lemma FileTaken(path: seq<byte>, m: MouthState, files: Files, rest: seq<byte>)
    requires Sound(m) && FrameFits(File(path, m)) && Unchanged(File(path, m), files)
    ensures TakeFile(FileBytes(path, m) + rest, files) == Some((File(path, m.(length := |m.data|)), rest))
  {
    hide PositionBytes, LittleEndian, FromLittleEndian, FrontWord, TakePosition, Take;
    Range8();
    var at, line := PositionOf(m), if m.loaded then m.line else [];
    FrontWordBack(|path|, 8, path + (PositionBytes(at) + (line + rest)));
    TakeBack(path, PositionBytes(at) + (line + rest));
    PositionBack(at, line + rest);
    TakeBack(line, rest);
    PositionRestores(m);
    assert FileBytes(path, m) + rest == LittleEndian(|path|, 8) + (path + (PositionBytes(at) + (line + rest)));
  }

  lemma ListTaken(words: seq<u32>, s: TokenSource, rest: seq<byte>)
    requires s.count == |words| <= UINT32_MAX && s.cursor <= UINT32_MAX
    ensures TakeList(ListBytes(words, s) + rest) == Some((ListBack(words, s.cursor, s.location, s.kind, s.name), rest))
  {
    hide LittleEndian, FromLittleEndian, FrontWord, Take, FrontTokens, TokenBytes;
    Range4();
    var tail := TokenBytes(words) + rest;
    var named := LittleEndian(s.name, 4) + tail;
    var kinded := [s.kind] + named;
    var column := LittleEndian(s.location.column, 4) + kinded;
    var line := LittleEndian(s.location.line, 4) + column;
    var cursor := LittleEndian(s.cursor, 4) + line;
    FrontWordBack(s.count, 4, cursor);
    FrontWordBack(s.cursor, 4, line);
    FrontWordBack(s.location.line, 4, column);
    FrontWordBack(s.location.column, 4, kinded);
    TakeBack([s.kind], named);
    FrontWordBack(s.name, 4, tail);
    FrontTokensBack(words, rest);
    assert ListBytes(words, s) + rest == LittleEndian(s.count, 4) + cursor;
  }

  lemma FrameTaken(frame: Frame, store: seq<u32>, files: Files, rest: seq<byte>, index: nat, framesAt: nat, storeAt: nat)
    requires FrameOK(frame, index, framesAt, storeAt) && FrameFits(frame) && Unchanged(frame, files)
    requires InStore(frame) ==> RegionEnd(frame) <= |store|
    ensures TakeFrame(FrameBytes(frame, store) + rest, files) == Some((FrameBack(frame, store), rest))
  {
    hide FileBytes, ListBytes, TakeFile, TakeList, PositionFits;
    match frame
    case File(path, mouth) =>
      FileTaken(path, mouth, files, rest);
      assert (FrameBytes(frame, store) + rest)[1..] == FileBytes(path, mouth) + rest;
    case TokenList(s) =>
      ListTaken(ListWords(s, store), s, rest);
      assert (FrameBytes(frame, store) + rest)[1..] == ListBytes(ListWords(s, store), s) + rest;
    case Boundary =>
      assert (FrameBytes(frame, store) + rest)[1..] == rest;
  }

  /** A frame that came back reads as the one written, and needs neither store nor slot. */
  lemma BackReads(frame: Frame, store: seq<u32>, other: seq<u32>, index: nat, framesAt: nat, storeAt: nat, otherAt: nat, otherStoreAt: nat)
    requires FrameOK(frame, index, framesAt, storeAt)
    requires InStore(frame) ==> RegionEnd(frame) <= |store|
    ensures FrameOK(FrameBack(frame, store), index, otherAt, otherStoreAt) && !InStore(FrameBack(frame, store))
    ensures ViewOf(FrameBack(frame, store), other) == ViewOf(frame, store) <==> Uncut(frame)
  {}

  // ----- the stack -----

  function FramesBytes(frames: seq<Frame>, store: seq<u32>): seq<byte> {
    if frames == [] then [] else FrameBytes(frames[0], store) + FramesBytes(frames[1..], store)
  }

  function Serialized(frames: seq<Frame>, store: seq<u32>, fileEnds: nat, pushes: nat): seq<byte> {
    LittleEndian(|frames|, 8) + (FramesBytes(frames, store) + (LittleEndian(fileEnds, 8) + LittleEndian(pushes, 8)))
  }

  function TakeFrames(bytes: seq<byte>, count: nat, files: Files): (r: Taken<seq<Frame>>)
    decreases count
  {
    if count == 0 then Some(([], bytes))
    else
      var first := TakeFrame(bytes, files);
      if first.None? then None
      else
        var others := TakeFrames(first.value.1, count - 1, files);
        if others.None? then None else Some(([first.value.0] + others.value.0, others.value.1))
  }

  datatype Saved = Saved(frames: seq<Frame>, fileEnds: nat, pushes: nat)

  /** hstex_source_deserialize: None where the stream ends early or a file is not there. */
  function Deserialized(bytes: seq<byte>, files: Files): Option<Saved> {
    var count := FrontWord(bytes, 8);
    if count.None? then None
    else
      var frames := TakeFrames(count.value.1, count.value.0, files);
      if frames.None? then None else TakeTallies(frames.value.0, frames.value.1)
  }

  function TakeTallies(frames: seq<Frame>, bytes: seq<byte>): Option<Saved> {
    var fileEnds := FrontWord(bytes, 8);
    if fileEnds.None? then None
    else
      var pushes := FrontWord(fileEnds.value.1, 8);
      if pushes.None? then None else Some(Saved(frames, fileEnds.value.0, pushes.value.0))
  }

  function FramesBack(frames: seq<Frame>, store: seq<u32>): (back: seq<Frame>)
    ensures |back| == |frames|
    ensures forall i :: 0 <= i < |frames| ==> back[i] == FrameBack(frames[i], store)
  {
    seq(|frames|, i requires 0 <= i < |frames| => FrameBack(frames[i], store))
  }

  /** A stack that can be written and found again: sizes of 64 bits, every file there and as it was. */
  predicate Restorable(frames: seq<Frame>, fileEnds: nat, pushes: nat, files: Files) {
    && |frames| < 0x1_0000_0000_0000_0000 && fileEnds < 0x1_0000_0000_0000_0000 && pushes < 0x1_0000_0000_0000_0000
    && forall i :: 0 <= i < |frames| ==> FrameFits(frames[i]) && Unchanged(frames[i], files)
  }

  predicate Written(frames: seq<Frame>, store: seq<u32>, from: nat, framesAt: nat, storeAt: nat, files: Files) {
    forall i :: 0 <= i < |frames| ==>
      && FrameOK(frames[i], from + i, framesAt, storeAt) && FrameFits(frames[i]) && Unchanged(frames[i], files)
      && (InStore(frames[i]) ==> RegionEnd(frames[i]) <= |store|)
  }

  lemma {:induction false} FramesTaken(frames: seq<Frame>, store: seq<u32>, from: nat, framesAt: nat, storeAt: nat, files: Files, rest: seq<byte>)
    requires Written(frames, store, from, framesAt, storeAt, files)
    ensures TakeFrames(FramesBytes(frames, store) + rest, |frames|, files) == Some((FramesBack(frames, store), rest))
    decreases |frames|
  {
    hide FrameOK, FrameFits, Unchanged, FrameBytes, TakeFrame, FrameBack;
    if frames == [] {
      assert FramesBytes(frames, store) + rest == rest;
    } else {
      var behind := FramesBytes(frames[1..], store) + rest;
      assert Written(frames[1..], store, from + 1, framesAt, storeAt, files) by { WrittenBehind(frames, store, from, framesAt, storeAt, files); }
      FramesTaken(frames[1..], store, from + 1, framesAt, storeAt, files, rest);
      FrameTaken(frames[0], store, files, behind, from, framesAt, storeAt);
      Assoc(FrameBytes(frames[0], store), FramesBytes(frames[1..], store), rest);
      assert [FrameBack(frames[0], store)] + FramesBack(frames[1..], store) == FramesBack(frames, store);
    }
  }

  lemma WrittenBehind(frames: seq<Frame>, store: seq<u32>, from: nat, framesAt: nat, storeAt: nat, files: Files)
    requires frames != [] && Written(frames, store, from, framesAt, storeAt, files)
    ensures Written(frames[1..], store, from + 1, framesAt, storeAt, files)
  {
    hide FrameOK, FrameFits, Unchanged;
    forall i | 0 <= i < |frames[1..]|
      ensures && FrameOK(frames[1..][i], from + 1 + i, framesAt, storeAt) && FrameFits(frames[1..][i]) && Unchanged(frames[1..][i], files)
      ensures InStore(frames[1..][i]) ==> RegionEnd(frames[1..][i]) <= |store|
    {
      assert frames[1..][i] == frames[i + 1];
      assert FrameOK(frames[i + 1], from + (i + 1), framesAt, storeAt);
    }
  }

  lemma AllWritten(frames: seq<Frame>, store: seq<u32>, framesAt: nat, storeAt: nat, fileEnds: nat, pushes: nat, files: Files)
    requires FramesOK(frames, framesAt, storeAt) && Regions(frames) && StoreEnd(frames) <= |store|
    requires Restorable(frames, fileEnds, pushes, files)
    ensures Written(frames, store, 0, framesAt, storeAt, files)
  {
    hide FrameOK, FrameFits, Unchanged, Regions, StoreEnd;
    forall i | 0 <= i < |frames| && InStore(frames[i])
      ensures RegionEnd(frames[i]) <= |store|
    {
      RegionsAscend(frames, i, |frames|);
    }
  }

  /** What a serialized stack gives back. */
  lemma SerializedBack(frames: seq<Frame>, store: seq<u32>, fileEnds: nat, pushes: nat, files: Files, framesAt: nat, storeAt: nat)
    requires FramesOK(frames, framesAt, storeAt) && Regions(frames) && StoreEnd(frames) <= |store|
    requires Restorable(frames, fileEnds, pushes, files)
    ensures Deserialized(Serialized(frames, store, fileEnds, pushes), files) == Some(Saved(FramesBack(frames, store), fileEnds, pushes))
  {
    hide LittleEndian, FromLittleEndian, FrontWord, TakeFrames, FramesBytes, Written, Regions, StoreEnd, FramesOK;
    Range8();
    var tail := LittleEndian(fileEnds, 8) + LittleEndian(pushes, 8);
    AllWritten(frames, store, framesAt, storeAt, fileEnds, pushes, files);
    FrontWordBack(|frames|, 8, FramesBytes(frames, store) + tail);
    FramesTaken(frames, store, 0, framesAt, storeAt, files, tail);
    FrontWordBack(fileEnds, 8, LittleEndian(pushes, 8));
    FrontWordBack(pushes, 8, []);
    assert LittleEndian(pushes, 8) + [] == LittleEndian(pushes, 8);
  }

  /** And it reads as the one written, wherever its frames and its store may stand, exactly where no file
      in it was cut short. */
  lemma BackReadsOn(frames: seq<Frame>, store: seq<u32>, other: seq<u32>, framesAt: nat, storeAt: nat, otherAt: nat, otherStoreAt: nat)
    requires FramesOK(frames, framesAt, storeAt) && Regions(frames) && StoreEnd(frames) <= |store|
    ensures var back := FramesBack(frames, store);
      && FramesOK(back, otherAt, otherStoreAt) && (forall i :: 0 <= i < |back| ==> !InStore(back[i]))
      && (Views(back, other) == Views(frames, store) <==> forall i :: 0 <= i < |frames| ==> Uncut(frames[i]))
  {
    hide FrameOK, Regions, StoreEnd, FrameBack, ViewOf, Uncut;
    var back := FramesBack(frames, store);
    forall i | 0 <= i < |frames|
      ensures FrameOK(back[i], i, otherAt, otherStoreAt) && !InStore(back[i])
      ensures ViewOf(back[i], other) == ViewOf(frames[i], store) <==> Uncut(frames[i])
    {
      assert FrameOK(frames[i], i, framesAt, storeAt);
      if InStore(frames[i]) { RegionsAscend(frames, i, |frames|); }
      BackReads(frames[i], store, other, i, framesAt, storeAt, otherAt, otherStoreAt);
    }
    if Views(back, other) == Views(frames, store) {
      forall i | 0 <= i < |frames|
        ensures Uncut(frames[i])
      {
        assert Views(back, other)[i] == Views(frames, store)[i];
      }
    }
  }

  // ----- the future -----

  /** What a caller of hstex_source_next is told: the token or the end, whether a boundary stopped the
      reading, and how many files have run out. */
  datatype Told = Told(result: Result, atBoundary: bool, fileEnds: nat)

  /** Everything a run of calls is told, the engine's lexical state as it is found at each. */
  function Future(r: Reading, lexes: seq<Lex>): seq<Told>
    decreases |lexes|
  {
    if lexes == [] then []
    else
      var (result, after) := NextOf(r.(lex := lexes[0]));
      [Told(result, after.frames != [] && Top(after.frames).BoundaryView?, after.fileEnds)] + Future(after, lexes[1..])
  }

  /** A stack restored from what was written has the whole future of the one that wrote it. */
  lemma RestoredReadsOn(frames: seq<Frame>, store: seq<u32>, fileEnds: nat, pushes: nat, files: Files, lex: Lex, framesAt: nat, storeAt: nat,
                        other: seq<u32>, lexes: seq<Lex>)
    requires FramesOK(frames, framesAt, storeAt) && Regions(frames) && StoreEnd(frames) <= |store|
    requires Restorable(frames, fileEnds, pushes, files) && forall i :: 0 <= i < |frames| ==> Uncut(frames[i])
    ensures var saved := Deserialized(Serialized(frames, store, fileEnds, pushes), files);
      && saved.Some? && saved.value.pushes == pushes
      && Future(Reading(Views(saved.value.frames, other), saved.value.fileEnds, lex), lexes)
         == Future(Reading(Views(frames, store), fileEnds, lex), lexes)
  {
    hide Future, Deserialized, Serialized, FramesOK, Regions, StoreEnd, Restorable;
    SerializedBack(frames, store, fileEnds, pushes, files, framesAt, storeAt);
    BackReadsOn(frames, store, other, framesAt, storeAt, 0, 0);
  }

  // ----- the stack itself -----

  lemma {:induction false} FramesBytesAdd(frames: seq<Frame>, frame: Frame, store: seq<u32>)
    ensures FramesBytes(frames + [frame], store) == FramesBytes(frames, store) + FrameBytes(frame, store)
  {
    hide FrameBytes;
    if frames == [] {
      assert frames + [frame] == [frame];
      assert FramesBytes([frame][1..], store) == [];
    } else {
      FramesBytesAdd(frames[1..], frame, store);
      assert (frames + [frame])[1..] == frames[1..] + [frame];
      Assoc(FrameBytes(frames[0], store), FramesBytes(frames[1..], store), FrameBytes(frame, store));
    }
  }

  /** hstex_source_serialize. */
  method Serialize(stack: SourceStack) returns (bytes: seq<byte>)
    requires stack.Valid()
    ensures bytes == Serialized(stack.frames, stack.store[..], stack.fileEndCount, stack.pushes)
  {
    hide LittleEndian, FrameBytes, FramesBytes, Kept;
    var frames, store := stack.frames, stack.store[..];
    var body := [];
    assert frames[..0] == [];
    assert FramesBytes([], store) == [] by { NoFramesBytes(store); }
    for index := 0 to |frames|
      invariant body == FramesBytes(frames[..index], store)
    {
      FramesBytesAdd(frames[..index], frames[index], store);
      TakeOneMore(frames, index);
      body := body + FrameBytes(frames[index], store);
    }
    assert frames[..|frames|] == frames;
    bytes := LittleEndian(|frames|, 8) + (body + (LittleEndian(stack.fileEndCount, 8) + LittleEndian(stack.pushes, 8)));
  }

  lemma NoFramesBytes(store: seq<u32>)
    ensures FramesBytes([], store) == []
  {}

  /** A frame read from a stream stands in no store and in no slot. */
  predicate FromStream(frame: Frame) {
    frame.TokenList? ==> frame.source.tokens.Outside? && !frame.source.holdsOwn && !frame.source.fromStore
  }

  predicate AllFromStream(frames: seq<Frame>) { forall i :: 0 <= i < |frames| ==> FromStream(frames[i]) }

  lemma TakenFromStream(bytes: seq<byte>, files: Files)
    requires TakeFrame(bytes, files).Some?
    ensures FromStream(TakeFrame(bytes, files).value.0)
  {}

  lemma {:induction false} NothingInStore(frames: seq<Frame>, framesAt: nat, store: seq<u32>)
    requires AllFromStream(frames)
    ensures Regions(frames) && StoreEnd(frames) == 0
    ensures AllRepointed(frames, framesAt) == frames && Views(frames, store) == Views(frames, [])
  {
    if frames != [] {
      NothingInStore(Below(frames), framesAt, store);
      assert FromStream(frames[|frames| - 1]);
    }
    forall i | 0 <= i < |frames|
      ensures Repointed(frames[i], i, framesAt) == frames[i] && ViewOf(frames[i], store) == ViewOf(frames[i], [])
    {
      assert FromStream(frames[i]);
    }
  }

  /** The frames a stream holds before it ends, or before a file that is not there. */
  function FramesBefore(bytes: seq<byte>, count: nat, files: Files): seq<Frame>
    decreases count
  {
    if count == 0 || TakeFrame(bytes, files).None? then []
    else [TakeFrame(bytes, files).value.0] + FramesBefore(TakeFrame(bytes, files).value.1, count - 1, files)
  }

  /** The frames hstex_source_deserialize reads, whether or not it reads on to the end. */
  function ReadBefore(bytes: seq<byte>, files: Files): seq<Frame> {
    var count := FrontWord(bytes, 8);
    if count.None? then [] else FramesBefore(count.value.1, count.value.0, files)
  }

  lemma JoiningNone(read: Taken<seq<Frame>>)
    ensures Joining([], read) == read
  {
    if read.Some? { assert [] + read.value.0 == read.value.0; }
  }

  function Joining(frames: seq<Frame>, read: Taken<seq<Frame>>): Taken<seq<Frame>> {
    if read.None? then None else Some((frames + read.value.0, read.value.1))
  }

  function ReadingOf(saved: Saved, lex: Lex): Reading {
    Reading(Views(saved.frames, []), saved.fileEnds, lex)
  }

  lemma NoneRead(read: Taken<seq<Frame>>, before: seq<Frame>)
    ensures Joining([], read) == read && [] + before == before
  {
    JoiningNone(read);
  }

  /** One frame more read from the stream. */
  lemma OneRead(frames: seq<Frame>, rest: seq<byte>, left: nat, files: Files)
    requires left > 0 && TakeFrame(rest, files).Some? && AllFromStream(frames)
    ensures var (frame, behind) := TakeFrame(rest, files).value;
      && AllFromStream(frames + [frame])
      && Joining(frames + [frame], TakeFrames(behind, left - 1, files)) == Joining(frames, TakeFrames(rest, left, files))
      && frames + [frame] + FramesBefore(behind, left - 1, files) == frames + FramesBefore(rest, left, files)
  {
    hide TakeFrame, FromStream;
    TakenFromStream(rest, files);
    var (frame, behind) := TakeFrame(rest, files).value;
    var others := TakeFrames(behind, left - 1, files);
    if others.Some? {
      assert frames + ([frame] + others.value.0) == frames + [frame] + others.value.0;
    }
    assert frames + ([frame] + FramesBefore(behind, left - 1, files)) == frames + [frame] + FramesBefore(behind, left - 1, files);
  }

  lemma FileTopAdds(frames: seq<Frame>, frame: Frame)
    ensures FileTopOf(frames + [frame]) == if frame.File? then |frames| + 1 else FileTopOf(frames)
  {
    assert Below(frames + [frame]) == frames;
  }

  /** How many frames stood when the top was last noted, and how many there is room for. */
  datatype Noting = Noting(noted: nat, room: nat)

  /** The same once room for one frame more has been asked for so many times, a frame standing on each. */
  function Asked(capacity: nat, times: nat): (n: Noting)
    ensures n.room >= times && n.noted <= times && (times > 0 ==> n.noted < times)
  {
    if times == 0 then Noting(0, capacity)
    else
      var before := Asked(capacity, times - 1);
      Noting(if times <= before.room then before.noted else times - 1, Roomed(before.room, times))
  }

  /** How often room is asked for as a stream is read. */
  function TimesAsked(bytes: seq<byte>, files: Files): nat {
    var count := FrontWord(bytes, 8);
    if count.None? then 0
    else
      |ReadBefore(bytes, files)| + if TakeFrames(count.value.1, count.value.0, files).None? then 1 else 0
  }

  /** The top is what it was when it was last noted. */
  ghost predicate NotedSo(stack: SourceStack, capacity: nat, times: nat)
    reads stack
  {
    var n := Asked(capacity, times);
    times <= |stack.frames| + 1 && stack.capacity == n.room && stack.top == TopOf(stack.frames[..n.noted])
  }

  /** The frames read one after another, each standing on the stack before the next is read. The top is noted
      only where the frames grow. */
  method ReadFrames(stack: SourceStack, bytes: seq<byte>, count: nat, files: Files) returns (rest: Option<seq<byte>>)
    requires stack.frames == [] && stack.top == None && stack.fileTop == 0
    modifies stack`frames, stack`framesAt, stack`capacity, stack`top, stack`fileTop
    ensures stack.frames == FramesBefore(bytes, count, files) && AllFromStream(stack.frames)
    ensures stack.fileTop == FileTopOf(stack.frames) && |stack.frames| <= stack.capacity
    ensures NotedSo(stack, old(stack.capacity), |stack.frames| + if rest.None? then 1 else 0)
    ensures TakeFrames(bytes, count, files) == if rest.None? then None else Some((stack.frames, rest.value))
  {
    hide TakeFrame, TopOf, FileTopOf, FromStream, NotedSo, FramesBefore, TakeFrames, Joining, AllFromStream;
    var here, left := bytes, count;
    NoneRead(TakeFrames(bytes, count, files), FramesBefore(bytes, count, files));
    NoTop();
    NotedFirst(stack);
    NoneAfter(bytes, files);
    while left != 0
      invariant 0 <= left <= count && AllFromStream(stack.frames) && |stack.frames| <= stack.capacity
      invariant TakeFrames(bytes, count, files) == Joining(stack.frames, TakeFrames(here, left, files))
      invariant FramesBefore(bytes, count, files) == stack.frames + FramesBefore(here, left, files)
      invariant stack.fileTop == FileTopOf(stack.frames)
      invariant NotedSo(stack, old(stack.capacity), |stack.frames|)
      decreases left
    {
      Room(stack, old(stack.capacity));
      var frame := TakeFrame(here, files);
      if frame.None? {
        NoMore(stack.frames, here, left, files);
        return None;
      }
      OneRead(stack.frames, here, left, files);
      Stand(stack, frame.value.0, old(stack.capacity));
      here := frame.value.1;
      left := left - 1;
    }
    AllRead(stack.frames, here, files);
    rest := Some(here);
  }

  lemma NoTop()
    ensures TopOf([]) == None && FileTopOf([]) == 0
  {}

  lemma NotedFirst(stack: SourceStack)
    requires stack.frames == [] && stack.top == None
    ensures NotedSo(stack, stack.capacity, 0) && AllFromStream([])
  {}

  lemma NoneAfter(bytes: seq<byte>, files: Files)
    ensures TakeFrames(bytes, 0, files) == Some(([], bytes)) && FramesBefore(bytes, 0, files) == []
  {}

  lemma NoMore(frames: seq<Frame>, here: seq<byte>, left: nat, files: Files)
    requires left > 0 && TakeFrame(here, files).None?
    ensures frames + FramesBefore(here, left, files) == frames && Joining(frames, TakeFrames(here, left, files)).None?
  {}

  lemma AllRead(frames: seq<Frame>, here: seq<byte>, files: Files)
    ensures frames + FramesBefore(here, 0, files) == frames && Joining(frames, TakeFrames(here, 0, files)) == Some((frames, here))
  {}

  /** A frame on the stack, where room has been made for it. */
  method Stand(stack: SourceStack, frame: Frame, ghost capacity: nat)
    requires NotedSo(stack, capacity, |stack.frames| + 1)
    requires stack.fileTop == FileTopOf(stack.frames)
    modifies stack`frames, stack`fileTop
    ensures stack.frames == old(stack.frames) + [frame] && NotedSo(stack, capacity, |stack.frames|)
    ensures stack.fileTop == FileTopOf(stack.frames)
  {
    hide TopOf, FileTopOf;
    FileTopAdds(stack.frames, frame);
    ghost var noted := Asked(capacity, |stack.frames| + 1).noted;
    assert (stack.frames + [frame])[..noted] == stack.frames[..noted];
    stack.frames := stack.frames + [frame];
    if frame.File? {
      stack.fileTop := |stack.frames|;
    }
  }

  /** Room for one frame more; what the frames are does not change, wherever they stand. */
  method Room(stack: SourceStack, ghost capacity: nat)
    requires AllFromStream(stack.frames) && NotedSo(stack, capacity, |stack.frames|)
    modifies stack`frames, stack`framesAt, stack`capacity, stack`top
    ensures stack.frames == old(stack.frames) && |stack.frames| < stack.capacity
    ensures NotedSo(stack, capacity, |stack.frames| + 1)
  {
    hide TopOf, FromStream;
    stack.ReserveFrames(|stack.frames| + 1);
    NothingInStore(old(stack.frames), stack.framesAt, []);
    assert stack.frames[..|stack.frames|] == stack.frames;
  }

  /** hstex_source_deserialize. What is read of a stream that ends too soon, or names a file that is not there,
      is left standing; the top is noted where the frames grew, and last where all has been read. Whether the
      stack is sound then depends on what the stream said. */
  method Deserialize(stack: SourceStack, bytes: seq<byte>, files: Files, lex: Lex) returns (restored: bool)
    requires stack.Valid()
    modifies stack
    ensures restored <==> Deserialized(bytes, files).Some?
    ensures stack.frames == ReadBefore(bytes, files) && stack.lex == lex && stack.fileTop == FileTopOf(stack.frames)
    ensures restored ==> stack.frames == Deserialized(bytes, files).value.frames
    ensures restored ==> stack.pushes == Deserialized(bytes, files).value.pushes
    ensures restored ==> stack.Abstract() == ReadingOf(Deserialized(bytes, files).value, lex)
    ensures restored ==> (stack.Valid() <==> FramesOK(stack.frames, stack.framesAt, stack.storeAt))
    ensures !restored ==> stack.pushes == old(stack.pushes) && stack.fileEndCount == old(stack.fileEndCount)
    ensures !restored ==> NotedSo(stack, old(stack.capacity), TimesAsked(bytes, files))
  {
    hide NotedSo, ReadBefore, TimesAsked, Views, TakeFrames, FrameOK, FrontWord, ViewOf, FramesBefore, FileTopOf, TopOf, Regions, StoreEnd, FramesOK, Deserialized, AllFromStream;
    Clear(stack);
    stack.lex := lex;
    NotedFirst(stack);
    NoTop();
    WhatIsRead(bytes, files);
    hide TakeTallies;
    var count := FrontWord(bytes, 8);
    if count.None? {
      Cut(bytes, files);
      return false;
    }
    var rest := ReadFrames(stack, count.value.1, count.value.0, files);
    if rest.None? {
      Cut(bytes, files);
      return false;
    }
    var saved := TakeTallies(stack.frames, rest.value);
    AllTaken(bytes, files, stack.frames, rest.value);
    if saved.None? {
      return false;
    }
    NothingInStore(stack.frames, 0, stack.store[..]);
    SavedIs(stack.frames, rest.value);
    stack.fileEndCount := saved.value.fileEnds;
    stack.pushes := saved.value.pushes;
    stack.top := TopOf(stack.frames);
    restored := true;
  }

  lemma WhatIsRead(bytes: seq<byte>, files: Files)
    ensures var count := FrontWord(bytes, 8);
      if count.None? then ReadBefore(bytes, files) == [] && TimesAsked(bytes, files) == 0
      else
        && ReadBefore(bytes, files) == FramesBefore(count.value.1, count.value.0, files)
        && TimesAsked(bytes, files)
           == |ReadBefore(bytes, files)| + if TakeFrames(count.value.1, count.value.0, files).None? then 1 else 0
  {
    hide FrontWord, TakeFrames, FramesBefore;
  }

  lemma Cut(bytes: seq<byte>, files: Files)
    requires FrontWord(bytes, 8).Some? ==>
      TakeFrames(FrontWord(bytes, 8).value.1, FrontWord(bytes, 8).value.0, files).None?
    ensures Deserialized(bytes, files).None?
  {
    hide FrontWord, TakeFrames;
  }

  lemma AllTaken(bytes: seq<byte>, files: Files, frames: seq<Frame>, rest: seq<byte>)
    requires FrontWord(bytes, 8).Some?
    requires TakeFrames(FrontWord(bytes, 8).value.1, FrontWord(bytes, 8).value.0, files) == Some((frames, rest))
    ensures Deserialized(bytes, files) == TakeTallies(frames, rest)
  {
    hide FrontWord, TakeFrames, TakeTallies;
  }

  lemma SavedIs(frames: seq<Frame>, bytes: seq<byte>)
    requires TakeTallies(frames, bytes).Some?
    ensures TakeTallies(frames, bytes).value.frames == frames
  {
    hide FrontWord;
  }

  method Clear(stack: SourceStack)
    requires stack.Valid()
    modifies stack`frames, stack`top, stack`fileTop, stack`storeCount
    ensures stack.Valid() && stack.frames == [] && stack.top == None && stack.fileTop == 0 && stack.storeCount == 0
  {
    hide Kept, Views;
    while |stack.frames| != 0
      invariant stack.Valid()
      decreases |stack.frames|
    {
      stack.PopFrame();
    }
    NothingKept(stack.framesAt, stack.storeAt, stack.storeCount, stack.top, stack.fileTop);
  }

  lemma NothingKept(framesAt: nat, storeAt: nat, storeCount: nat, top: Option<nat>, fileTop: nat)
    requires Kept([], framesAt, storeAt, storeCount, top, fileTop)
    ensures storeCount == 0 && top == None && fileTop == 0
  {}

  /** A stack written and read into another: the other reads as it does and counts as it does. */
  method Restore(stack: SourceStack, other: SourceStack, files: Files)
    requires stack != other && stack.Valid() && other.Valid()
    requires Restorable(stack.frames, stack.fileEndCount, stack.pushes, files)
    requires forall i :: 0 <= i < |stack.frames| ==> Uncut(stack.frames[i])
    modifies other
    ensures other.Valid() && other.Abstract() == stack.Abstract() && other.pushes == stack.pushes
  {
    hide Deserialized, Serialized, FramesOK, Regions, StoreEnd, Restorable, FileTopOf, FrameOK, Uncut, Views;
    var bytes := Serialize(stack);
    SerializedBack(stack.frames, stack.store[..], stack.fileEndCount, stack.pushes, files, stack.framesAt, stack.storeAt);
    BackReadsOn(stack.frames, stack.store[..], [], stack.framesAt, stack.storeAt, 0, 0);
    var restored := Deserialize(other, bytes, files, stack.lex);
    BackReadsOn(stack.frames, stack.store[..], [], stack.framesAt, stack.storeAt, other.framesAt, other.storeAt);
  }

  // ----- a boundary popped on either -----

  /** What hstex_source_pop_boundary_keeping_template leaves of a stack, or None where it finds no boundary. */
  function PoppedKeeping(frames: seq<Frame>, store: seq<u32>): Option<seq<View>> {
    var popped := ToBoundary(Views(frames, store));
    if popped.None? then None else Some(popped.value + KeptTemplate(frames, store))
  }

  /** A template on top that the stack owns, or one with nothing in it; or no template on top. */
  predicate OwnedOrEmpty(frames: seq<Frame>, store: seq<u32>) {
    frames != [] && frames[|frames| - 1].TokenList? && frames[|frames| - 1].source.kind == TEMPLATE_AFTER ==>
      frames[|frames| - 1].source.owns || ListWords(frames[|frames| - 1].source, store) == []
  }

  lemma KeptAlike(frames: seq<Frame>, store: seq<u32>, other: seq<u32>, framesAt: nat, storeAt: nat)
    requires FramesOK(frames, framesAt, storeAt) && Regions(frames) && StoreEnd(frames) <= |store|
    ensures KeptTemplate(FramesBack(frames, store), other) == KeptTemplate(frames, store) <==> OwnedOrEmpty(frames, store)
  {
    hide Regions, StoreEnd;
    if frames != [] {
      var frame := frames[|frames| - 1];
      assert FrameOK(frame, |frames| - 1, framesAt, storeAt);
      assert FramesBack(frames, store)[|frames| - 1] == FrameBack(frame, store);
      if InStore(frame) { RegionsAscend(frames, |frames| - 1, |frames|); }
      if frame.TokenList? { OwnedBack(frame.source, store, other, |frames| - 1, framesAt, storeAt); }
    }
  }

  lemma OwnedBack(s: TokenSource, store: seq<u32>, other: seq<u32>, index: nat, framesAt: nat, storeAt: nat)
    requires FrameOK(TokenList(s), index, framesAt, storeAt)
    requires InStore(TokenList(s)) ==> RegionEnd(TokenList(s)) <= |store|
    ensures var back := FrameBack(TokenList(s), store).source;
      && ListWords(back, other) == ListWords(s, store) && back.count == s.count == |ListWords(s, store)|
      && (back.owns <==> ListWords(s, store) != []) && (s.owns ==> ListWords(s, store) != [])
      && back.kind == s.kind && back.location == s.location && back.name == s.name
  {}

  /** A stack restored from what was written is popped as the one written is, exactly where no boundary stands
      in it or its template on top is owned or empty. */
  lemma PoppedAlikeExactly(frames: seq<Frame>, store: seq<u32>, other: seq<u32>, framesAt: nat, storeAt: nat)
    requires FramesOK(frames, framesAt, storeAt) && Regions(frames) && StoreEnd(frames) <= |store|
    requires forall i :: 0 <= i < |frames| ==> Uncut(frames[i])
    ensures PoppedKeeping(FramesBack(frames, store), other) == PoppedKeeping(frames, store)
      <==> ToBoundary(Views(frames, store)).None? || OwnedOrEmpty(frames, store)
  {
    hide FramesOK, Regions, StoreEnd, Views, KeptTemplate, OwnedOrEmpty, ToBoundary, Uncut;
    BackReadsOn(frames, store, other, framesAt, storeAt, 0, 0);
    KeptAlike(frames, store, other, framesAt, storeAt);
    var popped := ToBoundary(Views(frames, store));
    if popped.Some? { SameBehind(popped.value, KeptTemplate(FramesBack(frames, store), other), KeptTemplate(frames, store)); }
  }

  lemma SameBehind<T>(s: seq<T>, a: seq<T>, b: seq<T>)
    ensures s + a == s + b <==> a == b
  {
    if s + a == s + b {
      assert a == (s + a)[|s|..] && b == (s + b)[|s|..];
    }
  }

  // ----- a file cut short -----

  function PlainLex(): Lex { Lex(seq(256, _ => 12), -1, 0, []) }

  lemma EmptyLine(m: MouthState, lex: Lex)
    requires Sound(m) && !m.loaded && m.nextLine < m.length && m.lineNumber < UINT32_MAX && lex.endLine == -1
    requires m.data[m.nextLine] == 10
    ensures var after := m.(nextLine := m.nextLine + 1, lineStart := m.nextLine, line := [], raw := 0, content := 0, cursor := 0,
                            lineNumber := m.lineNumber + 1, endByte := 0, hasEnd := false, loaded := false, mode := NewLine);
      MouthNext(m, lex) == MouthNext(after, lex)
  {
    hide MouthNext, ReadOver, Act;
    assert LineEnd(m.data, m.nextLine, m.length) == m.nextLine;
    var loaded := LoadLine(m, lex.endLine);
    assert loaded.line == [];
    OneTurn(m, lex);
    hide LoadLine;
    OneTurn(loaded, lex);
  }

  lemma NotTheEnd(m: MouthState, lex: Lex)
    requires Sound(m) && m.loaded && m.cursor < m.raw && lex == PlainLex()
    ensures MouthNext(m, lex).0.Token?
  {
    var (c, read) := ReadOver(m, lex.catcodes);
    assert Turn(m, lex).Stop?;
  }

  lemma SecondLine(m: MouthState, lex: Lex)
    requires Sound(m) && !m.loaded && m.nextLine < m.length && m.lineNumber < UINT32_MAX && lex == PlainLex()
    requires m.data[m.nextLine] == 66
    ensures MouthNext(m, lex).0.Token?
  {
    var loaded := LoadLine(m, lex.endLine);
    var end := LineEnd(m.data, m.nextLine, m.length);
    assert end > m.nextLine;
    var last := Trimmed(m.data, m.nextLine, end);
    assert last > m.nextLine;
    assert loaded.cursor < loaded.raw;
    NotTheEnd(loaded, lex);
    assert MouthNext(m, lex) == MouthNext(loaded, lex);
  }

  /** Where a file was ended before its first line was read, the length it was cut to is not written, and
      the restored stack reads on past it: here a second line that the other never sees. */
  lemma CutShortReadsFurther()
    ensures var data: seq<byte> := [10, 66];
      var cut, whole := Ended(Opened(data)), Opened(data);
      && Restored(data, PositionOf(cut), cut.line) == whole
      && MouthNext(cut, PlainLex()).0.EndOfFile?
      && MouthNext(whole, PlainLex()).0.Token?
  {
    hide MouthNext;
    var data: seq<byte> := [10, 66];
    var cut, whole := Ended(Opened(data)), Opened(data);
    assert LineEnd(data, 0, 2) == 0 && NextStart(data, 0, 2) == 1;
    assert cut == whole.(length := 1);
    EmptyLine(cut, PlainLex());
    EmptyLine(whole, PlainLex());
    var first := whole.(nextLine := 1, lineStart := 0, lineNumber := 1);
    SecondLine(first, PlainLex());
    AtTheEnd(first.(length := 1), PlainLex());
  }

  lemma AtTheEnd(m: MouthState, lex: Lex)
    requires Sound(m) && !m.loaded && m.nextLine == m.length
    ensures MouthNext(m, lex) == (EndOfFile, m, lex)
  {}
}
