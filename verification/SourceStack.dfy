/** The input stack as it works: frames pushed and popped, one store moved only while nothing stands in it. */
module SourceStack {
  import opened Bytes
  import opened Mouth
  import opened Source

  // ----- one frame more, one frame less -----

  lemma KeptBelow(frames: seq<Frame>, framesAt: nat, storeAt: nat)
    requires frames != [] && FramesOK(frames, framesAt, storeAt) && Regions(frames)
    ensures FramesOK(Below(frames), framesAt, storeAt) && Regions(Below(frames))
    ensures InStore(frames[|frames| - 1]) ==> frames[|frames| - 1].source.storeBase == StoreEnd(Below(frames))
    ensures !InStore(frames[|frames| - 1]) ==> StoreEnd(Below(frames)) == StoreEnd(frames)
    ensures StoreEnd(Below(frames)) <= StoreEnd(frames)
    ensures !frames[|frames| - 1].File? ==> FileTopOf(Below(frames)) == FileTopOf(frames)
  {
    hide FrameOK;
  }

  lemma ViewsBelow(frames: seq<Frame>, store: seq<u32>)
    requires frames != []
    ensures Views(Below(frames), store) == Below(Views(frames, store))
    ensures Top(Views(frames, store)) == ViewOf(frames[|frames| - 1], store)
  {
    hide ViewOf;
  }

  lemma KeptAdd(frames: seq<Frame>, frame: Frame, framesAt: nat, storeAt: nat)
    requires FramesOK(frames, framesAt, storeAt) && Regions(frames)
    requires FrameOK(frame, |frames|, framesAt, storeAt)
    requires InStore(frame) ==> frame.source.storeBase == StoreEnd(frames) < RegionEnd(frame)
    ensures FramesOK(frames + [frame], framesAt, storeAt) && Regions(frames + [frame])
    ensures StoreEnd(frames + [frame]) == if InStore(frame) then RegionEnd(frame) else StoreEnd(frames)
    ensures FileTopOf(frames + [frame]) == if frame.File? then |frames| + 1 else FileTopOf(frames)
    ensures TopOf(frames + [frame]) == if frame.TokenList? then Some(|frames|) else None
  {
    hide FrameOK;
    FramesAdd(frames, frame, framesAt, storeAt);
    EndsAdd(frames, frame);
  }

  lemma FramesAdd(frames: seq<Frame>, frame: Frame, framesAt: nat, storeAt: nat)
    requires FramesOK(frames, framesAt, storeAt) && FrameOK(frame, |frames|, framesAt, storeAt)
    ensures FramesOK(frames + [frame], framesAt, storeAt)
  {
    hide FrameOK;
  }

  lemma EndsAdd(frames: seq<Frame>, frame: Frame)
    requires Regions(frames)
    requires InStore(frame) ==> frame.source.storeBase == StoreEnd(frames) < RegionEnd(frame)
    ensures Regions(frames + [frame])
    ensures StoreEnd(frames + [frame]) == if InStore(frame) then RegionEnd(frame) else StoreEnd(frames)
    ensures FileTopOf(frames + [frame]) == if frame.File? then |frames| + 1 else FileTopOf(frames)
    ensures TopOf(frames + [frame]) == if frame.TokenList? then Some(|frames|) else None
  {
    var more := frames + [frame];
    assert Below(more) == frames && more[|more| - 1] == frame;
    hide InStore, RegionEnd;
  }

  lemma ViewsAdd(frames: seq<Frame>, frame: Frame, store: seq<u32>)
    ensures Views(frames + [frame], store) == Views(frames, store) + [ViewOf(frame, store)]
  {
    hide ViewOf;
  }

  // ----- the frames moved -----

  /** A frame that holds its own token pointed into the frames that have moved. */
  function Repointed(frame: Frame, index: nat, framesAt: nat): Frame {
    if frame.TokenList? && frame.source.holdsOwn then TokenList(frame.source.(tokens := Slot(framesAt, index))) else frame
  }

  function AllRepointed(frames: seq<Frame>, framesAt: nat): (moved: seq<Frame>)
    ensures |moved| == |frames|
    ensures forall i :: 0 <= i < |frames| ==> moved[i] == Repointed(frames[i], i, framesAt)
  {
    seq(|frames|, i requires 0 <= i < |frames| => Repointed(frames[i], i, framesAt))
  }

  lemma {:induction false} MovedKept(frames: seq<Frame>, framesAt: nat, storeAt: nat, now: nat)
    requires FramesOK(frames, framesAt, storeAt) && Regions(frames)
    ensures var moved := AllRepointed(frames, now);
      && Regions(moved) && StoreEnd(moved) == StoreEnd(frames)
      && TopOf(moved) == TopOf(frames) && FileTopOf(moved) == FileTopOf(frames)
  {
    if frames != [] {
      KeptBelow(frames, framesAt, storeAt);
      MovedKept(Below(frames), framesAt, storeAt, now);
      assert FrameOK(frames[|frames| - 1], |frames| - 1, framesAt, storeAt);
      assert Below(AllRepointed(frames, now)) == AllRepointed(Below(frames), now);
    }
  }

  lemma MovedViews(frames: seq<Frame>, framesAt: nat, storeAt: nat, now: nat, store: seq<u32>)
    requires FramesOK(frames, framesAt, storeAt)
    ensures FramesOK(AllRepointed(frames, now), now, storeAt)
    ensures Views(AllRepointed(frames, now), store) == Views(frames, store)
  {
    forall i | 0 <= i < |frames|
      ensures FrameOK(AllRepointed(frames, now)[i], i, now, storeAt)
      ensures ViewOf(AllRepointed(frames, now)[i], store) == ViewOf(frames[i], store)
    {
      assert FrameOK(frames[i], i, framesAt, storeAt);
    }
  }

  lemma AllMoved(frames: seq<Frame>, framesAt: nat, storeAt: nat, storeCount: nat, top: Option<nat>, fileTop: nat, now: nat, store: seq<u32>)
    requires Kept(frames, framesAt, storeAt, storeCount, top, fileTop)
    ensures var moved := AllRepointed(frames, now);
      && Kept(moved, now, storeAt, storeCount, TopOf(moved), fileTop) && Views(moved, store) == Views(frames, store)
  {
    hide FramesOK, Regions, StoreEnd, FileTopOf, Views, TopOf;
    MovedKept(frames, framesAt, storeAt, now);
    MovedViews(frames, framesAt, storeAt, now, store);
  }

  // ----- the stack -----

  class SourceStack {
    var frames: seq<Frame>
    /** Which allocation the frames stand in, and for how many it has room. */
    var framesAt: nat
    var capacity: nat
    /** The index of the top frame where it is a list of tokens. */
    var top: Option<nat>
    var fileTop: nat
    var store: array<u32>
    var storeAt: nat
    var storeCount: nat
    var fileEndCount: nat
    var pushes: nat
    var lex: Lex

    ghost predicate Valid()
      reads this, store
    {
      && Kept(frames, framesAt, storeAt, storeCount, top, fileTop)
      && |frames| <= capacity && storeCount <= store.Length
    }

    ghost function Abstract(): Reading
      reads this, store
    {
      Reading(Views(frames, store[..]), fileEndCount, lex)
    }

    constructor (lex: Lex)
      ensures Valid() && Abstract() == Reading([], 0, lex) && pushes == 0 && fresh(store)
    {
      frames := [];
      framesAt, capacity, fileTop, storeAt, storeCount, fileEndCount, pushes := 0, 0, 0, 0, 0, 0, 0;
      top := None;
      store := new u32[0];
      this.lex := lex;
    }

    /** reserve_frames: doubled from sixteen; the frames move, those that hold their own token are pointed
        at where it stands now, and the top is noted again. A sound stack stays sound and reads as before. */
    method ReserveFrames(required: nat)
      modifies this`frames, this`framesAt, this`capacity, this`top
      ensures capacity == Roomed(old(capacity), required) && |frames| == old(|frames|) && store == old(store)
      ensures required <= old(capacity) ==> Same(old(frames), old(framesAt), old(capacity), old(top))
      ensures required > old(capacity) ==> frames == AllRepointed(old(frames), framesAt) && top == TopOf(frames)
      ensures old(Valid()) ==> Valid() && Abstract() == old(Abstract())
    {
      hide Kept, Views, TopOf;
      if required <= capacity {
        return;
      }
      var room := Doubled(if capacity == 0 then 16 else capacity, required);
      if old(Valid()) {
        AllMoved(frames, framesAt, storeAt, storeCount, top, fileTop, framesAt + 1, store[..]);
      }
      capacity := room;
      framesAt := framesAt + 1;
      Repoint();
      top := TopOf(frames);
    }

    ghost predicate Same(frames': seq<Frame>, framesAt': nat, capacity': nat, top': Option<nat>)
      reads this
    {
      frames == frames' && framesAt == framesAt' && capacity == capacity' && top == top'
    }

    method Repoint()
      modifies this`frames
      ensures frames == AllRepointed(old(frames), framesAt)
    {
      ghost var before := frames;
      for index := 0 to |frames|
        invariant |frames| == |before|
        invariant forall i :: 0 <= i < index ==> frames[i] == Repointed(before[i], i, framesAt)
        invariant forall i :: index <= i < |frames| ==> frames[i] == before[i]
      {
        frames := frames[index := Repointed(frames[index], index, framesAt)];
      }
    }

    /** pop_frame. */
    method PopFrame()
      requires Valid() && frames != []
      modifies this`frames, this`top, this`fileTop, this`storeCount
      ensures Valid() && frames == Below(old(frames)) && storeCount <= old(storeCount)
      ensures Abstract() == old(Abstract()).(frames := Below(old(Abstract()).frames))
    {
      hide Regions, StoreEnd, FileTopOf, FrameOK, Views, ViewOf;
      var frame := frames[|frames| - 1];
      KeptBelow(frames, framesAt, storeAt);
      ViewsBelow(frames, store[..]);
      FrameKind(frames, framesAt, storeAt);
      if frame.TokenList? && frame.source.fromStore {
        storeCount := frame.source.storeBase;
      }
      frames := frames[..|frames| - 1];
      if frame.File? {
        FindFile();
      }
      top := TopOf(frames);
    }

    method FindFile()
      modifies this`fileTop
      ensures fileTop == FileTopOf(frames)
    {
      var index := |frames|;
      assert frames[..index] == frames;
      while index != 0
        invariant index <= |frames| && FileTopOf(frames) == FileTopOf(frames[..index])
        decreases index
      {
        assert Below(frames[..index]) == frames[..index - 1];
        if frames[index - 1].File? {
          fileTop := index;
          return;
        }
        index := index - 1;
      }
      fileTop := 0;
    }

    /** pop_exhausted_token_frames, and hstex_source_settle. */
    method Settle()
      requires Valid()
      modifies this`frames, this`top, this`fileTop, this`storeCount
      ensures Valid() && storeCount <= old(storeCount) && |frames| <= old(|frames|)
      ensures Abstract() == old(Abstract()).(frames := Settled(old(Abstract()).frames))
    {
      hide Kept, Views, ViewOf;
      while |frames| != 0
        invariant Valid() && storeCount <= old(storeCount) && |frames| <= old(|frames|)
        invariant Abstract() == old(Abstract()).(frames := Abstract().frames)
        invariant Settled(Abstract().frames) == Settled(old(Abstract()).frames)
        decreases |frames|
      {
        var frame := frames[|frames| - 1];
        TopView(frames, framesAt, storeAt, store[..], storeCount, top, fileTop);
        if !frame.TokenList? || frame.source.cursor < frame.source.count || frame.source.kind == TEMPLATE_AFTER {
          return;
        }
        PopFrame();
      }
    }

    /** The token under a list's cursor, wherever the list stands. */
    method Fetch(s: TokenSource) returns (word: u32)
      requires Valid() && frames != [] && frames[|frames| - 1] == TokenList(s) && s.cursor < s.count
      ensures s.cursor < |ListWords(s, store[..])| && word == ListWords(s, store[..])[s.cursor]
    {
      hide Regions, FileTopOf;
      assert FrameOK(frames[|frames| - 1], |frames| - 1, framesAt, storeAt);
      match s.tokens {
        case Slot(_, index) => word := frames[index].source.held;
        case StoreAt(_, offset) => word := store[offset + s.cursor];
        case Outside(words) => word := words[s.cursor];
        case Inside(words, offset) => word := words[offset + s.cursor];
      }
    }

    /** The list on top reads on by one token. */
    method Advance(s: TokenSource)
      requires Valid() && frames != [] && frames[|frames| - 1] == TokenList(s) && s.cursor < s.count
      modifies this`frames
      ensures Valid()
      ensures Abstract() == old(Abstract()).(frames := Below(old(Abstract()).frames) + [Advanced(Top(old(Abstract()).frames))])
    {
      hide Kept, Views, Regions, StoreEnd;
      FrameAtTop(frames, framesAt, storeAt, storeCount, top, fileTop);
      TopView(frames, framesAt, storeAt, store[..], storeCount, top, fileTop);
      Replace(TokenList(s.(cursor := s.cursor + 1)));
    }

    /** hstex_source_take: the next token where it comes from a list that has one left. */
    method Take() returns (taken: Option<(u32, Location)>)
      requires Valid()
      modifies this`frames, this`top, this`storeCount
      ensures Valid()
      ensures taken.Some? ==> NextOf(old(Abstract())) == (Token(taken.value.0, taken.value.1), Abstract())
      ensures taken.None? ==> NextOf(Abstract()) == NextOf(old(Abstract()))
      ensures taken.None? ==> top.None? || Holding(frames[top.value].source)
    {
      hide Kept, Views, ViewOf, NextRead;
      while true
        invariant Valid()
        invariant NextOf(Abstract()) == NextOf(old(Abstract()))
        decreases |frames|
      {
        TopIs(frames, framesAt, storeAt, storeCount, top, fileTop);
        if top.None? {
          return None;
        }
        TopView(frames, framesAt, storeAt, store[..], storeCount, top, fileTop);
        var source := frames[top.value].source;
        ghost var before := Abstract();
        if source.cursor < source.count {
          var word := Fetch(source);
          Advance(source);
          NextToken(before);
          return Some((word, source.location));
        }
        if source.definition != 0 || source.owns {
          return None;
        }
        NextSpent(before);
        DropList(source);
      }
    }

    /** The pop hstex_source_take makes itself. */
    method DropList(source: TokenSource)
      requires Valid() && frames != [] && frames[|frames| - 1] == TokenList(source)
      modifies this`frames, this`top, this`storeCount
      ensures Valid() && frames == Below(old(frames))
      ensures Abstract() == old(Abstract()).(frames := Below(old(Abstract()).frames))
    {
      hide Regions, StoreEnd, FileTopOf, FrameOK, Views, ViewOf;
      KeptBelow(frames, framesAt, storeAt);
      ViewsBelow(frames, store[..]);
      FrameKind(frames, framesAt, storeAt);
      if source.fromStore {
        storeCount := source.storeBase;
      }
      frames := frames[..|frames| - 1];
      top := if |frames| != 0 && frames[|frames| - 1].TokenList? then Some(|frames| - 1) else None;
    }

    /** hstex_source_next. */
    method Next() returns (result: Result)
      requires Valid()
      modifies this`frames, this`top, this`fileTop, this`storeCount, this`fileEndCount, this`lex
      ensures Valid()
      ensures NextOf(old(Abstract())) == (result, Abstract())
    {
      hide Kept, Views, ViewOf, NextRead, MouthNext;
      while |frames| != 0
        invariant Valid()
        invariant NextOf(Abstract()) == NextOf(old(Abstract()))
        decreases |frames|
      {
        ghost var before := Abstract();
        TopView(frames, framesAt, storeAt, store[..], storeCount, top, fileTop);
        match frames[|frames| - 1] {
          case Boundary =>
            NextStops(before);
            return EndOfFile;
          case TokenList(source) =>
            if source.cursor < source.count {
              var word := Fetch(source);
              Advance(source);
              NextToken(before);
              return Token(word, source.location);
            }
            NextSpent(before);
            PopFrame();
          case File(path, mouth) =>
            NextReads(before);
            var (read, after, names) := MouthNext(mouth, lex);
            if read != EndOfFile {
              MouthKeeps(mouth, lex);
              SetMouth(path, mouth, after);
              lex := names;
              return read;
            }
            lex := names;
            PopFrame();
            fileEndCount := fileEndCount + 1;
        }
      }
      NextStops(Abstract());
      result := EndOfFile;
    }

    method SetMouth(path: seq<byte>, mouth: MouthState, after: MouthState)
      requires Valid() && frames != [] && frames[|frames| - 1] == File(path, mouth) && Sound(after) && CutAtLine(after)
      modifies this`frames
      ensures Valid() && frames == Below(old(frames)) + [File(path, after)]
      ensures Abstract() == old(Abstract()).(frames := Below(old(Abstract()).frames) + [FileView(path, after)])
    {
      hide Regions, StoreEnd, FileTopOf, Views;
      ghost var below := Below(frames);
      KeptBelow(frames, framesAt, storeAt);
      ViewsBelow(frames, store[..]);
      KeptAdd(below, File(path, after), framesAt, storeAt);
      ViewsAdd(below, File(path, after), store[..]);
      FileOnTop(frames);
      frames := frames[|frames| - 1 := File(path, after)];
      assert frames == below + [File(path, after)];
    }

    // ----- pushes -----

    /** What every push ends with. */
    method Add(frame: Frame)
      requires Valid() && |frames| < capacity && FrameOK(frame, |frames|, framesAt, storeAt)
      requires InStore(frame) ==> frame.source.storeBase == storeCount < RegionEnd(frame) <= store.Length
      modifies this`frames, this`top, this`fileTop, this`storeCount, this`pushes
      ensures Valid() && frames == old(frames) + [frame] && pushes == old(pushes) + 1
      ensures storeCount == if InStore(frame) then RegionEnd(frame) else old(storeCount)
      ensures Abstract() == old(Abstract()).(frames := old(Abstract()).frames + [ViewOf(frame, store[..])])
    {
      hide Regions, StoreEnd, FileTopOf, FrameOK, Views, ViewOf;
      KeptAdd(frames, frame, framesAt, storeAt);
      ViewsAdd(frames, frame, store[..]);
      frames := frames + [frame];
      if frame.File? {
        fileTop := |frames|;
      }
      if InStore(frame) {
        storeCount := RegionEnd(frame);
      }
      top := TopOf(frames);
      pushes := pushes + 1;
    }

    /** hstex_source_push_file over a file opened, and hstex_source_push_pseudo_file. */
    method PushFile(path: seq<byte>, data: seq<byte>)
      requires Valid()
      modifies this`frames, this`framesAt, this`capacity, this`top, this`fileTop, this`storeCount, this`pushes
      ensures Valid() && pushes == old(pushes) + 1
      ensures Abstract() == old(Abstract()).(frames := Settled(old(Abstract()).frames) + [FileView(path, Opened(data))])
    {
      hide Kept, Views, Settled;
      Settle();
      ReserveFrames(|frames| + 1);
      Add(File(path, Opened(data)));
    }

    method PushBoundary()
      requires Valid()
      modifies this`frames, this`framesAt, this`capacity, this`top, this`fileTop, this`storeCount, this`pushes
      ensures Valid() && pushes == old(pushes) + 1
      ensures Abstract() == old(Abstract()).(frames := Settled(old(Abstract()).frames) + [BoundaryView])
    {
      hide Kept, Views, Settled;
      Settle();
      ReserveFrames(|frames| + 1);
      Add(Boundary);
    }

    /** A list that stands elsewhere. */
    method PushOutside(words: seq<u32>, location: Location, definition: u32, owned: bool)
      requires Valid() && |words| <= UINT32_MAX && (owned ==> words != [])
      modifies this`frames, this`framesAt, this`capacity, this`top, this`fileTop, this`storeCount, this`pushes
      ensures Valid() && pushes == old(pushes) + 1
      ensures Abstract() == old(Abstract()).(frames := old(Abstract()).frames + [TokenView(words, 0, location, INSERTED, 0)])
      ensures frames != [] && top == Some(|frames| - 1) && frames[|frames| - 1].TokenList?
      ensures frames[|frames| - 1].source == OutsideSource(words, location, definition, owned)
    {
      hide Kept, Views;
      ReserveFrames(|frames| + 1);
      assert words[..|words|] == words;
      Add(TokenList(OutsideSource(words, location, definition, owned)));
      TopIs(frames, framesAt, storeAt, storeCount, top, fileTop);
    }

    /** hstex_source_push_tokens, which clears nothing away. */
    method PushTokens(words: seq<u32>, location: Location) returns (accepted: bool)
      requires Valid()
      modifies this`frames, this`framesAt, this`capacity, this`top, this`fileTop, this`storeCount, this`pushes
      ensures Valid() && (accepted <==> |words| <= UINT32_MAX)
      ensures pushes == old(pushes) + if accepted then 1 else 0
      ensures Abstract() == old(Abstract()).(frames :=
        old(Abstract()).frames + if accepted then [TokenView(words, 0, location, INSERTED, 0)] else [])
    {
      hide Kept, Views;
      if |words| > UINT32_MAX {
        return false;
      }
      PushOutside(words, location, 0, false);
      accepted := true;
    }

    /** hstex_source_push_owned_tokens: nothing is pushed for nothing. */
    method PushOwned(words: seq<u32>, location: Location) returns (accepted: bool)
      requires Valid()
      modifies this`frames, this`framesAt, this`capacity, this`top, this`fileTop, this`storeCount, this`pushes
      ensures Valid() && (accepted <==> |words| <= UINT32_MAX)
      ensures pushes == old(pushes) + if accepted && words != [] then 1 else 0
      ensures Abstract() == old(Abstract()).(frames :=
        old(Abstract()).frames + if accepted && words != [] then [TokenView(words, 0, location, INSERTED, 0)] else [])
    {
      hide Kept, Views;
      if |words| > UINT32_MAX {
        return false;
      }
      if words != [] {
        PushOutside(words, location, 0, true);
      }
      accepted := true;
    }

    /** hstex_source_push_definition: the frame holds the definition until it is popped. */
    method PushDefinition(words: seq<u32>, location: Location, definition: u32) returns (accepted: bool)
      requires Valid()
      modifies this`frames, this`framesAt, this`capacity, this`top, this`fileTop, this`storeCount, this`pushes
      ensures Valid() && (accepted <==> 0 < |words| <= UINT32_MAX)
      ensures pushes == old(pushes) + if accepted then 1 else 0
      ensures Abstract() == old(Abstract()).(frames :=
        if accepted then Settled(old(Abstract()).frames) + [TokenView(words, 0, location, INSERTED, 0)] else old(Abstract()).frames)
    {
      hide Kept, Views, Settled;
      if words == [] || |words| > UINT32_MAX {
        return false;
      }
      Settle();
      PushOutside(words, location, definition, false);
      accepted := true;
    }

    /** hstex_source_push_one, and hstex_source_begin_one, which clears nothing away. */
    method PushOne(token: u32, location: Location, settle: bool)
      requires Valid()
      modifies this`frames, this`framesAt, this`capacity, this`top, this`fileTop, this`storeCount, this`pushes
      ensures Valid() && pushes == old(pushes) + 1
      ensures Abstract() == old(Abstract()).(frames :=
        (if settle then Settled(old(Abstract()).frames) else old(Abstract()).frames) + [TokenView([token], 0, location, BACKED_UP, 0)])
    {
      hide Kept, Views, Settled;
      if settle {
        Settle();
      }
      ReserveFrames(|frames| + 1);
      Add(TokenList(TokenSource(Slot(framesAt, |frames|), 1, 0, location, token, 0, 0, true, false, false, false, BACKED_UP, 0)));
    }

    // ----- the store -----

    /** hstex_source_reserve: room behind everything that stands in the store. The store is moved, if it
        is too small, only where nothing stands in it. */
    method Reserve(count: nat) returns (room: Option<nat>)
      requires Valid()
      modifies this`frames, this`top, this`fileTop, this`storeCount, this`store, this`storeAt
      ensures Valid()
      ensures store == old(store) || (fresh(store) && storeCount == 0)
      ensures Abstract() == old(Abstract()).(frames := if count == 0 then old(Abstract()).frames else Settled(old(Abstract()).frames))
      ensures room.Some? ==> room.value == storeCount && 0 < count <= store.Length - storeCount
      ensures room.None? ==> count == 0 || (storeCount != 0 && count > store.Length - storeCount)
    {
      hide Views, Settled, FramesOK, Regions, StoreEnd, FileTopOf;
      if count == 0 {
        return None;
      }
      Settle();
      if count > store.Length - storeCount {
        if storeCount != 0 {
          return None;
        }
        GrowStore(count);
      }
      room := Some(storeCount);
    }

    method GrowStore(count: nat)
      requires Valid() && storeCount == 0
      modifies this`store, this`storeAt
      ensures Valid() && fresh(store) && store.Length >= count
      ensures Abstract() == old(Abstract())
    {
      hide FrameOK, Regions, StoreEnd, FileTopOf, Views;
      var room := Doubled(if store.Length == 0 then 65536 else store.Length, count);
      var grown := new u32[room](_ => 0);
      NothingStored(frames, framesAt, storeAt, storeAt + 1, store[..], grown[..]);
      store := grown;
      storeAt := storeAt + 1;
    }

    /** hstex_source_push_reserved. */
    method PushReserved(count: nat, location: Location) returns (accepted: bool)
      requires Valid()
      modifies this`frames, this`framesAt, this`capacity, this`top, this`fileTop, this`storeCount, this`pushes
      ensures Valid()
      ensures accepted <==> 0 < count <= store.Length - old(storeCount) && old(storeCount) + count <= UINT32_MAX
      ensures pushes == old(pushes) + if accepted then 1 else 0
      ensures storeCount == old(storeCount) + if accepted then count else 0
      ensures Abstract() == old(Abstract()).(frames := old(Abstract()).frames +
        if accepted then [TokenView(store[..][old(storeCount)..old(storeCount) + count], 0, location, INSERTED, 0)] else [])
      ensures accepted ==> frames != [] && frames[|frames| - 1].TokenList?
      ensures accepted ==> frames[|frames| - 1].source == StoreSource(storeAt, old(storeCount), count, location)
    {
      hide Kept, Views;
      if count == 0 || count > store.Length - storeCount || storeCount + count > UINT32_MAX {
        return false;
      }
      ReserveFrames(|frames| + 1);
      Add(TokenList(StoreSource(storeAt, storeCount, count, location)));
      accepted := true;
    }

    /** hstex_source_push_room. */
    method PushRoom(count: nat, location: Location) returns (room: Option<nat>)
      requires Valid()
      modifies this`frames, this`framesAt, this`capacity, this`top, this`fileTop, this`storeCount, this`store, this`storeAt, this`pushes
      ensures Valid() && (store == old(store) || fresh(store))
      ensures room.Some? ==> 0 < count && room.value + count == storeCount && pushes == old(pushes) + 1
      ensures room.Some? ==> Abstract() == old(Abstract()).(frames := Settled(old(Abstract()).frames)
        + [TokenView(store[..][room.value..storeCount], 0, location, INSERTED, 0)])
      ensures room.None? ==> pushes == old(pushes)
      ensures room.None? ==> Abstract().frames == old(Abstract()).frames || Abstract().frames == Settled(old(Abstract()).frames)
    {
      hide Kept, Views, Settled;
      room := Reserve(count);
      if room.Some? {
        var accepted := PushReserved(count, location);
        if !accepted {
          return None;
        }
      }
    }

    /** What a caller writes into room it has been given: behind all that stands in the store, or where
        the frame on top stands. No frame beneath reads differently for it. */
    method Fill(at: nat, words: seq<u32>)
      requires Valid() && at + |words| <= store.Length
      requires at >= storeCount || (frames != [] && InStore(frames[|frames| - 1]) && at >= frames[|frames| - 1].source.storeBase)
      modifies store
      ensures Valid()
      ensures store[..] == old(store[..at]) + words + old(store[at + |words|..])
      ensures at >= storeCount ==> Abstract() == old(Abstract())
      ensures frames != [] ==> Below(Abstract().frames) == Below(old(Abstract()).frames)
    {
      hide FrameOK, Regions, StoreEnd, FileTopOf, Views;
      ghost var before := store[..];
      forall i | 0 <= i < |words| {
        store[at + i] := words[i];
      }
      assert store[..] == before[..at] + words + before[at + |words|..];
      assert before[..at] == store[..][..at];
      if at >= storeCount {
        SameBelow(frames, framesAt, storeAt, before, store[..], at);
      } else {
        KeptBelow(frames, framesAt, storeAt);
        SameBelow(Below(frames), framesAt, storeAt, before, store[..], at);
      }
      if frames != [] {
        ViewsBelow(frames, store[..]);
        ViewsBelow(frames, before);
      }
    }

    /** hstex_source_hold_arguments_below: what is held stays in the frame's region of the store, and only
        what the frame reads moves past it. A list the stack owns would then be given back from a place within
        it: that is the one way the stack is left unsound. */
    method HoldArgumentsBelow(held: nat, definition: u32)
      requires Valid()
      modifies this`frames
      ensures Valid() <==> old(frames) == [] || MayHold(old(frames)[|old(frames)| - 1], held)
      ensures var views := old(Abstract()).frames;
        Valid() ==> Abstract() == old(Abstract()).(frames :=
          if views != [] && Top(views).TokenView? && held <= |Top(views).words|
          then Below(views) + [Top(views).(words := Top(views).words[held..])] else views)
      ensures !Valid() ==> frames == Below(old(frames)) + [HeldBelow(old(frames)[|old(frames)| - 1], held, definition)]
    {
      hide Kept, Views, Regions, StoreEnd, FrameOK, HeldBelow;
      if |frames| == 0 {
        return;
      }
      TopView(frames, framesAt, storeAt, store[..], storeCount, top, fileTop);
      if !frames[|frames| - 1].TokenList? || held > frames[|frames| - 1].source.count {
        return;
      }
      var s := frames[|frames| - 1].source;
      FrameAtTop(frames, framesAt, storeAt, storeCount, top, fileTop);
      StoreRoom(frames, framesAt, storeAt, storeCount, top, fileTop);
      var holding := HeldBelow(frames[|frames| - 1], held, definition);
      if !MayHold(frames[|frames| - 1], held) {
        HeldOwned(s, held, definition, |frames| - 1, framesAt, storeAt);
        Spoil(holding);
        return;
      }
      HoldingOK(s, held, definition, |frames| - 1, framesAt, storeAt, store[..]);
      Replace(holding);
    }

    /** The frame on top as nothing sound may be. */
    method Spoil(frame: Frame)
      requires frames != [] && !FrameOK(frame, |frames| - 1, framesAt, storeAt)
      modifies this`frames
      ensures !Valid() && frames == Below(old(frames)) + [frame]
    {
      hide Regions, StoreEnd, FileTopOf, FrameOK;
      frames := Below(frames) + [frame];
      assert !FrameOK(frames[|frames| - 1], |frames| - 1, framesAt, storeAt);
    }

    /** hstex_source_name_top. */
    method NameTop(kind: byte, name: u32)
      requires Valid()
      modifies this`frames
      ensures Valid()
      ensures var views := old(Abstract()).frames;
        Abstract() == old(Abstract()).(frames :=
          if views != [] && Top(views).TokenView? then Below(views) + [Top(views).(kind := kind, name := name)] else views)
    {
      hide Kept, Views, Regions, StoreEnd;
      if |frames| == 0 {
        return;
      }
      TopView(frames, framesAt, storeAt, store[..], storeCount, top, fileTop);
      if !frames[|frames| - 1].TokenList? {
        return;
      }
      FrameAtTop(frames, framesAt, storeAt, storeCount, top, fileTop);
      Replace(TokenList(frames[|frames| - 1].source.(kind := kind, name := name)));
    }

    /** The list on top changed where it stands, its region of the store left as it was. */
    method Replace(frame: Frame)
      requires Valid() && frames != [] && frames[|frames| - 1].TokenList? && frame.TokenList?
      requires FrameOK(frame, |frames| - 1, framesAt, storeAt) && InStore(frame) == InStore(frames[|frames| - 1])
      requires InStore(frame) ==> SameRegion(frame, frames[|frames| - 1])
      modifies this`frames
      ensures Valid() && frames == Below(old(frames)) + [frame]
      ensures Abstract() == old(Abstract()).(frames := Below(old(Abstract()).frames) + [ViewOf(frame, store[..])])
    {
      hide Regions, StoreEnd, FileTopOf, Views, FrameOK, ViewOf;
      ghost var below := Below(frames);
      KeptBelow(frames, framesAt, storeAt);
      ViewsBelow(frames, store[..]);
      RegionOf(frames);
      KeptAdd(below, frame, framesAt, storeAt);
      ViewsAdd(below, frame, store[..]);
      frames := frames[|frames| - 1 := frame];
      assert frames == below + [frame];
    }

    // ----- boundaries and the end of a file -----

    /** hstex_source_at_boundary. */
    method AtBoundary() returns (at: bool)
      requires Valid()
      ensures at <==> Abstract().frames != [] && Top(Abstract().frames).BoundaryView?
    {
      at := |frames| != 0 && frames[|frames| - 1].Boundary?;
    }

    /** hstex_source_pop. */
    method Pop()
      requires Valid()
      modifies this`frames, this`top, this`fileTop, this`storeCount
      ensures Valid()
      ensures var views := old(Abstract()).frames;
        Abstract() == old(Abstract()).(frames := if views == [] then [] else Below(views))
    {
      if |frames| != 0 {
        PopFrame();
      }
    }

    /** hstex_source_pop_boundary. */
    method PopBoundary() returns (active: bool)
      requires Valid()
      modifies this`frames, this`top, this`fileTop, this`storeCount
      ensures Valid()
      ensures active <==> ToBoundary(old(Abstract()).frames).Some?
      ensures Abstract() == old(Abstract()).(frames :=
        if active then ToBoundary(old(Abstract()).frames).value else old(Abstract()).frames)
      ensures !active ==> frames == old(frames)
    {
      hide Kept, Views, ViewOf;
      ghost var views := Abstract().frames;
      var boundary := |frames|;
      assert views[..boundary] == views;
      while boundary != 0
        invariant Valid() && Abstract() == old(Abstract()) && frames == old(frames)
        invariant boundary <= |frames| && ToBoundary(views[..boundary]) == ToBoundary(views)
        decreases boundary
      {
        boundary := boundary - 1;
        assert Below(views[..boundary + 1]) == views[..boundary];
        ViewKind(frames[boundary], store[..]);
        if frames[boundary].Boundary? {
          while |frames| > boundary
            invariant Valid() && |frames| >= boundary
            invariant Abstract() == old(Abstract()).(frames := views[..|frames|])
            decreases |frames|
          {
            assert Below(views[..|frames|]) == views[..|frames| - 1];
            PopFrame();
          }
          return true;
        }
      }
      active := false;
    }

    /** hstex_source_pop_boundary_keeping_template: a template the stack owns is left standing, spent, where
        the boundary was. Where there is no boundary its tokens are given back all the same and its frame
        stays: that is the one way the stack is left unsound. */
    method PopBoundaryKeepingTemplate() returns (active: bool)
      requires Valid()
      modifies this`frames, this`framesAt, this`capacity, this`top, this`fileTop, this`storeCount, this`pushes
      ensures active <==> ToBoundary(old(Abstract()).frames).Some?
      ensures Valid() <==> active || KeptTemplate(old(frames), old(store[..])) == []
      ensures Valid() ==> Abstract() == old(Abstract()).(frames :=
        if active then ToBoundary(old(Abstract()).frames).value + KeptTemplate(old(frames), old(store[..])) else old(Abstract()).frames)
      ensures !Valid() ==> frames == Below(old(frames)) + [Released(old(frames)[|old(frames)| - 1])]
      ensures pushes == old(pushes) + if active then |KeptTemplate(old(frames), old(store[..]))| else 0
    {
      hide Kept, Views, ToBoundary, FrameOK;
      if |frames| == 0 || !frames[|frames| - 1].TokenList? || frames[|frames| - 1].source.kind != TEMPLATE_AFTER
        || !frames[|frames| - 1].source.owns {
        active := PopBoundary();
        return;
      }
      var kept := Disown();
      active := PopBoundary();
      if active {
        StandAgain(kept);
      } else {
        Release();
      }
    }

    /** The template on top no longer the stack's to give back. */
    method Disown() returns (kept: TokenSource)
      requires Valid() && frames != [] && frames[|frames| - 1].TokenList?
      requires frames[|frames| - 1].source.kind == TEMPLATE_AFTER && frames[|frames| - 1].source.owns
      modifies this`frames
      ensures Valid() && Abstract() == old(Abstract())
      ensures KeptOK(kept) && KeptTemplate(old(frames), store[..]) == [KeptView(kept)]
      ensures frames == Below(old(frames)) + [TokenList(kept.(owns := false))] && old(frames)[|old(frames)| - 1] == TokenList(kept)
    {
      hide Kept, Views, FrameOK;
      kept := frames[|frames| - 1].source;
      TopView(frames, framesAt, storeAt, store[..], storeCount, top, fileTop);
      FrameAtTop(frames, framesAt, storeAt, storeCount, top, fileTop);
      Disowned(kept, |frames| - 1, framesAt, storeAt);
      ghost var before := Abstract().frames;
      Replace(TokenList(kept.(owns := false)));
      assert Abstract().frames == before;
    }

    /** The tokens of the frame on top given back, and the frame left as it is. */
    method Release()
      requires frames != [] && frames[|frames| - 1].TokenList?
      modifies this`frames
      ensures !Valid() && frames == Below(old(frames)) + [Released(old(frames)[|old(frames)| - 1])]
    {
      hide Regions, StoreEnd, FileTopOf;
      frames := Below(frames) + [Released(frames[|frames| - 1])];
      assert !FrameOK(frames[|frames| - 1], |frames| - 1, framesAt, storeAt);
    }

    /** The kept tokens pushed once more, named for what they are and read to their end already. */
    method StandAgain(kept: TokenSource)
      requires Valid() && KeptOK(kept)
      modifies this`frames, this`framesAt, this`capacity, this`top, this`fileTop, this`storeCount, this`pushes
      ensures Valid() && pushes == old(pushes) + 1
      ensures Abstract() == old(Abstract()).(frames := old(Abstract()).frames + [KeptView(kept)])
    {
      hide Kept, Views;
      var words := kept.tokens.words[..kept.count];
      PushOutside(words, kept.location, 0, true);
      ghost var pushed := Abstract().frames;
      var source := frames[|frames| - 1].source.(kind := TEMPLATE_AFTER, name := kept.name, cursor := kept.count);
      assert words[..kept.count] == words;
      Replace(TokenList(source));
      assert Below(pushed) == old(Abstract()).frames;
    }

    /** hstex_source_end_current_file. */
    method EndCurrentFile() returns (active: bool)
      requires Valid()
      modifies this`frames
      ensures Valid()
      ensures ReadingOK(old(Abstract()))
      ensures active <==> EndedFile(old(Abstract()).frames).Some?
      ensures Abstract() == old(Abstract()).(frames :=
        if active then EndedFile(old(Abstract()).frames).value else old(Abstract()).frames)
    {
      hide Regions, StoreEnd, FileTopOf, FrameOK, Views, ViewOf, TopOf;
      ViewsOK(frames, framesAt, storeAt, store[..], fileEndCount, lex);
      var index := |frames|;
      while index != 0
        invariant frames == old(frames) && 0 <= index <= |frames|
        invariant forall i :: index <= i < |frames| ==> !frames[i].File?
        decreases index
      {
        var frame := frames[index - 1];
        if frame.File? {
          FileSound(frames, framesAt, storeAt, index - 1);
          var ended := File(frame.path, Ended(frame.mouth));
          EndedAt(frames, framesAt, storeAt, store[..], index - 1);
          EndedKept(frames, framesAt, storeAt, index - 1);
          frames := frames[index - 1 := ended];
          return true;
        }
        index := index - 1;
      }
      NoFile(frames, store[..]);
      active := false;
    }

    /** hstex_source_current_file: the innermost file, found without a walk. */
    method CurrentFile() returns (file: Option<nat>)
      requires Valid()
      ensures file.None? <==> forall i :: 0 <= i < |frames| ==> !frames[i].File?
      ensures file.Some? ==> file.value < |frames| && frames[file.value].File?
      ensures file.Some? ==> forall i :: file.value < i < |frames| ==> !frames[i].File?
    {
      hide Regions, StoreEnd, FramesOK, FileTopOf;
      FileTopFound(frames);
      file := if fileTop != 0 && fileTop <= |frames| then Some(fileTop - 1) else None;
    }
  }

  /** A list that is given back whole holds none of its tokens back. */
  predicate MayHold(frame: Frame, held: nat) {
    frame.TokenList? && frame.source.owns && held <= frame.source.count ==> held == 0
  }

  function Past(tokens: Pointer, held: nat): Pointer {
    match tokens
    case StoreAt(allocation, offset) => StoreAt(allocation, offset + held)
    case Outside(words) => if held == 0 then tokens else Inside(words, held)
    case Inside(words, offset) => Inside(words, offset + held)
    case _ => tokens
  }

  /** The frame reading on past what is held, which stays where it is. */
  function HeldBelow(frame: Frame, held: nat, definition: u32): Frame {
    if !frame.TokenList? || held > frame.source.count then frame
    else
      var s := frame.source;
      TokenList(s.(tokens := Past(s.tokens, held), count := s.count - held, definition := definition, argumentLengths := true))
  }

  lemma HeldOwned(s: TokenSource, held: nat, definition: u32, index: nat, framesAt: nat, storeAt: nat)
    requires FrameOK(TokenList(s), index, framesAt, storeAt) && held <= s.count && !MayHold(TokenList(s), held)
    ensures !FrameOK(HeldBelow(TokenList(s), held, definition), index, framesAt, storeAt)
  {}

  lemma StoreRoom(frames: seq<Frame>, framesAt: nat, storeAt: nat, storeCount: nat, top: Option<nat>, fileTop: nat)
    requires frames != [] && Kept(frames, framesAt, storeAt, storeCount, top, fileTop)
    ensures InStore(frames[|frames| - 1]) ==> RegionEnd(frames[|frames| - 1]) <= storeCount
  {
    RegionOf(frames);
  }

  lemma HoldingOK(s: TokenSource, held: nat, definition: u32, index: nat, framesAt: nat, storeAt: nat, store: seq<u32>)
    requires FrameOK(TokenList(s), index, framesAt, storeAt) && held <= s.count && MayHold(TokenList(s), held)
    requires InStore(TokenList(s)) ==> RegionEnd(TokenList(s)) <= |store|
    ensures var after := HeldBelow(TokenList(s), held, definition);
      && after.TokenList? && FrameOK(after, index, framesAt, storeAt)
      && InStore(after) == InStore(TokenList(s))
      && (InStore(TokenList(s)) ==> SameRegion(after, TokenList(s)))
      && ViewOf(after, store) == ViewOf(TokenList(s), store).(words := ListWords(s, store)[held..])
  {}

  /** A size doubled until it is large enough. */
  function DoubledTo(size: nat, required: nat): (room: nat)
    requires size > 0
    ensures room >= required && room >= size
    decreases required - size
  {
    if size >= required then size else DoubledTo(size * 2, required)
  }

  /** How many frames there is room for once so many are asked for. */
  function Roomed(capacity: nat, required: nat): (room: nat)
    ensures room >= required && room >= capacity
  {
    if required <= capacity then capacity else DoubledTo(if capacity == 0 then 16 else capacity, required)
  }

  method Doubled(size: nat, required: nat) returns (room: nat)
    requires size > 0
    ensures room == DoubledTo(size, required)
  {
    room := size;
    while room < required
      invariant room >= size && DoubledTo(room, required) == DoubledTo(size, required)
      decreases required - room
    {
      room := room * 2;
    }
  }

  lemma FrameKind(frames: seq<Frame>, framesAt: nat, storeAt: nat)
    requires frames != [] && FramesOK(frames, framesAt, storeAt)
    ensures var frame := frames[|frames| - 1];
      InStore(frame) <==> frame.TokenList? && frame.source.fromStore
  {
    assert FrameOK(frames[|frames| - 1], |frames| - 1, framesAt, storeAt);
  }

  /** A list that has to be given back by hand once it is spent. */
  predicate Holding(s: TokenSource) {
    s.cursor >= s.count && (s.definition != 0 || s.owns)
  }

  function Advanced(view: View): View {
    if view.TokenView? then view.(cursor := view.cursor + 1) else view
  }

  function NextOf(r: Reading): (Result, Reading) {
    if ReadingOK(r) then NextRead(r) else (Error, r)
  }

  lemma TopIs(frames: seq<Frame>, framesAt: nat, storeAt: nat, storeCount: nat, top: Option<nat>, fileTop: nat)
    requires Kept(frames, framesAt, storeAt, storeCount, top, fileTop)
    ensures top == if frames != [] && frames[|frames| - 1].TokenList? then Some(|frames| - 1) else None
  {
    hide FramesOK, Regions, StoreEnd, FileTopOf;
  }

  /** What a reader sees of the top frame is what the frame's own fields say. */
  lemma TopView(frames: seq<Frame>, framesAt: nat, storeAt: nat, store: seq<u32>, storeCount: nat, top: Option<nat>, fileTop: nat)
    requires frames != [] && Kept(frames, framesAt, storeAt, storeCount, top, fileTop) && storeCount <= |store|
    ensures |Views(frames, store)| == |frames|
    ensures var frame, view := frames[|frames| - 1], Top(Views(frames, store));
      match frame
      case TokenList(s) => view == TokenView(ListWords(s, store), s.cursor, s.location, s.kind, s.name) && |ListWords(s, store)| == s.count
      case File(path, mouth) => view == FileView(path, mouth) && Sound(mouth) && CutAtLine(mouth)
      case Boundary => view == BoundaryView
    ensures forall fileEnds, lex :: ReadingOK(Reading(Views(frames, store), fileEnds, lex))
  {
    hide Regions, StoreEnd, FileTopOf;
    forall fileEnds, lex
      ensures ReadingOK(Reading(Views(frames, store), fileEnds, lex))
    {
      ViewsOK(frames, framesAt, storeAt, store, fileEnds, lex);
    }
    assert FrameOK(frames[|frames| - 1], |frames| - 1, framesAt, storeAt);
    if InStore(frames[|frames| - 1]) { RegionsAscend(frames, |frames| - 1, |frames|); }
  }

  lemma RegionOf(frames: seq<Frame>)
    requires frames != [] && Regions(frames)
    ensures InStore(frames[|frames| - 1]) ==>
      frames[|frames| - 1].source.storeBase == StoreEnd(Below(frames)) < RegionEnd(frames[|frames| - 1]) == StoreEnd(frames)
  {}

  lemma NextToken(r: Reading)
    requires ReadingOK(r) && r.frames != [] && Top(r.frames).TokenView? && Top(r.frames).cursor < |Top(r.frames).words|
    ensures var view := Top(r.frames);
      NextOf(r) == (Token(view.words[view.cursor], view.location), r.(frames := Below(r.frames) + [Advanced(view)]))
  {}

  lemma NextSpent(r: Reading)
    requires ReadingOK(r) && r.frames != [] && Top(r.frames).TokenView? && Top(r.frames).cursor >= |Top(r.frames).words|
    ensures NextOf(r) == NextOf(r.(frames := Below(r.frames)))
  {}

  lemma NextStops(r: Reading)
    requires ReadingOK(r) && (r.frames == [] || Top(r.frames).BoundaryView?)
    ensures NextOf(r) == (EndOfFile, r)
  {}

  lemma NextReads(r: Reading)
    requires ReadingOK(r) && r.frames != [] && Top(r.frames).FileView?
    ensures Sound(Top(r.frames).mouth)
    ensures var (result, after, lex) := MouthNext(Top(r.frames).mouth, r.lex);
      NextOf(r) == if result == EndOfFile then NextOf(Reading(Below(r.frames), r.fileEnds + 1, lex))
                   else (result, Reading(Below(r.frames) + [FileView(Top(r.frames).path, after)], r.fileEnds, lex))
  {
    hide MouthNext;
    assert ViewOK(r.frames[|r.frames| - 1]);
  }

  lemma FileOnTop(frames: seq<Frame>)
    requires frames != [] && frames[|frames| - 1].File?
    ensures FileTopOf(frames) == |frames|
  {}

  predicate SameRegion(a: Frame, b: Frame) {
    InStore(a) && InStore(b) && RegionEnd(a) == RegionEnd(b) && a.source.storeBase == b.source.storeBase
  }

  function OutsideSource(words: seq<u32>, location: Location, definition: u32, owned: bool): TokenSource {
    TokenSource(Outside(words), |words|, 0, location, 0, definition, 0, false, owned, false, false, INSERTED, 0)
  }

  function StoreSource(storeAt: nat, base: nat, count: nat, location: Location): TokenSource {
    TokenSource(StoreAt(storeAt, base), count, 0, location, 0, 0, base, false, false, true, false, INSERTED, 0)
  }

  lemma FrameAtTop(frames: seq<Frame>, framesAt: nat, storeAt: nat, storeCount: nat, top: Option<nat>, fileTop: nat)
    requires frames != [] && Kept(frames, framesAt, storeAt, storeCount, top, fileTop)
    ensures FrameOK(frames[|frames| - 1], |frames| - 1, framesAt, storeAt)
  {}

  /** Where no frame stands in the store, the store may be another. */
  lemma NothingStored(frames: seq<Frame>, framesAt: nat, storeAt: nat, now: nat, store: seq<u32>, other: seq<u32>)
    requires FramesOK(frames, framesAt, storeAt) && Regions(frames) && StoreEnd(frames) == 0
    ensures FramesOK(frames, framesAt, now) && Views(frames, other) == Views(frames, store)
  {
    hide Regions, StoreEnd;
    StoreEmpty(frames);
    forall i | 0 <= i < |frames|
      ensures FrameOK(frames[i], i, framesAt, now) && ViewOf(frames[i], other) == ViewOf(frames[i], store)
    {
      assert FrameOK(frames[i], i, framesAt, storeAt) && !InStore(frames[i]);
    }
  }

  /** What the frames read is in the store before where it is free. */
  lemma SameBelow(frames: seq<Frame>, framesAt: nat, storeAt: nat, store: seq<u32>, other: seq<u32>, at: nat)
    requires FramesOK(frames, framesAt, storeAt) && Regions(frames) && StoreEnd(frames) <= at
    requires at <= |store| == |other| && store[..at] == other[..at]
    ensures Views(frames, other) == Views(frames, store)
  {
    hide Regions, StoreEnd;
    forall i | 0 <= i < |frames|
      ensures ViewOf(frames[i], other) == ViewOf(frames[i], store)
    {
      assert FrameOK(frames[i], i, framesAt, storeAt);
      if InStore(frames[i]) {
        RegionsAscend(frames, i, |frames|);
        SamePart(store, other, at, frames[i].source.tokens.offset, RegionEnd(frames[i]));
      }
    }
  }

  lemma SamePart<T>(a: seq<T>, b: seq<T>, at: nat, low: nat, high: nat)
    requires low <= high <= at <= |a| == |b| && a[..at] == b[..at]
    ensures a[low..high] == b[low..high]
  {
    assert a[low..high] == a[..at][low..high];
    assert b[low..high] == b[..at][low..high];
  }

  lemma ViewKind(frame: Frame, store: seq<u32>)
    ensures ViewOf(frame, store).BoundaryView? <==> frame.Boundary?
    ensures ViewOf(frame, store).FileView? <==> frame.File?
  {}

  /** The template a boundary's popping keeps. */
  function KeptTemplate(frames: seq<Frame>, store: seq<u32>): seq<View> {
    if frames == [] || !frames[|frames| - 1].TokenList? then []
    else
      var s := frames[|frames| - 1].source;
      if s.kind == TEMPLATE_AFTER && s.owns then [TokenView(ListWords(s, store), s.count, s.location, TEMPLATE_AFTER, s.name)] else []
  }

  /** Tokens the stack owns. */
  predicate KeptOK(s: TokenSource) {
    s.tokens.Outside? && 0 < s.count <= |s.tokens.words| && s.count <= UINT32_MAX
  }

  function KeptView(s: TokenSource): View {
    TokenView(ListWords(s, []), s.count, s.location, TEMPLATE_AFTER, s.name)
  }

  /** A list's frame when its tokens have been given back under it. */
  function Released(frame: Frame): Frame {
    if frame.TokenList? then TokenList(frame.source.(tokens := GivenBack, owns := false)) else frame
  }

  lemma Disowned(s: TokenSource, index: nat, framesAt: nat, storeAt: nat)
    requires FrameOK(TokenList(s), index, framesAt, storeAt) && s.owns
    ensures FrameOK(TokenList(s.(owns := false)), index, framesAt, storeAt)
    ensures s.tokens.Outside? && 0 < s.count <= |s.tokens.words| && s.count <= UINT32_MAX
    ensures !InStore(TokenList(s)) && !InStore(TokenList(s.(owns := false)))
  {}

  lemma FileSound(frames: seq<Frame>, framesAt: nat, storeAt: nat, k: nat)
    requires FramesOK(frames, framesAt, storeAt) && k < |frames| && frames[k].File?
    ensures Sound(frames[k].mouth) && CutAtLine(frames[k].mouth)
  {
    assert FrameOK(frames[k], k, framesAt, storeAt);
  }

  /** Ending the innermost file leaves the lists and boundaries above it. */
  lemma {:induction false} EndedAt(frames: seq<Frame>, framesAt: nat, storeAt: nat, store: seq<u32>, k: nat)
    requires k < |frames| && frames[k].File? && Sound(frames[k].mouth)
    requires forall i :: k < i < |frames| ==> !frames[i].File?
    requires forall i :: 0 <= i < |frames| ==> ViewOK(Views(frames, store)[i])
    ensures EndedFile(Views(frames, store))
         == Some(Views(frames[k := File(frames[k].path, Ended(frames[k].mouth))], store))
    decreases |frames|
  {
    hide ViewOK, Ended, Views;
    var ended := frames[k := File(frames[k].path, Ended(frames[k].mouth))];
    ViewsBelow(frames, store);
    ViewsBelow(ended, store);
    ViewKind(frames[|frames| - 1], store);
    if k < |frames| - 1 {
      EndedAt(Below(frames), framesAt, storeAt, store, k);
      assert Below(ended) == Below(frames)[k := File(frames[k].path, Ended(frames[k].mouth))];
      assert Views(ended, store) == Below(Views(ended, store)) + [Top(Views(ended, store))];
    } else {
      assert Below(ended) == Below(frames);
      assert Views(ended, store) == Below(Views(ended, store)) + [Top(Views(ended, store))];
    }
  }

  lemma {:induction false} NoFile(frames: seq<Frame>, store: seq<u32>)
    requires forall i :: 0 <= i < |frames| ==> !frames[i].File?
    requires forall i :: 0 <= i < |frames| ==> ViewOK(Views(frames, store)[i])
    ensures EndedFile(Views(frames, store)).None?
    decreases |frames|
  {
    hide ViewOK, Views;
    if frames != [] {
      ViewsBelow(frames, store);
      ViewKind(frames[|frames| - 1], store);
      NoFile(Below(frames), store);
    }
  }

  lemma {:induction false} EndedKept(frames: seq<Frame>, framesAt: nat, storeAt: nat, k: nat)
    requires k < |frames| && frames[k].File? && Sound(frames[k].mouth) && CutAtLine(frames[k].mouth)
    requires FramesOK(frames, framesAt, storeAt) && Regions(frames)
    ensures var ended := frames[k := File(frames[k].path, Ended(frames[k].mouth))];
      && FramesOK(ended, framesAt, storeAt) && Regions(ended) && StoreEnd(ended) == StoreEnd(frames)
      && TopOf(ended) == TopOf(frames) && FileTopOf(ended) == FileTopOf(frames)
    decreases |frames|
  {
    hide Ended, CutAtLine;
    EndedAtLine(frames[k].mouth);
    var ended := frames[k := File(frames[k].path, Ended(frames[k].mouth))];
    if k < |frames| - 1 {
      EndedKept(Below(frames), framesAt, storeAt, k);
      assert Below(ended) == Below(frames)[k := File(frames[k].path, Ended(frames[k].mouth))];
    } else {
      assert Below(ended) == Below(frames);
    }
  }
}
