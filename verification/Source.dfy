/** The input stack: what its frames are, what they mean to whoever reads, and what every stack keeps. */
module Source {
  import opened Bytes
  import opened Mouth

  const INSERTED: nat := 0
  const BACKED_UP: nat := 1
  const TEMPLATE_AFTER: nat := 8

  /** Where a frame's tokens stand: the frame's own slot, the stack's store, or an array elsewhere, from its
      beginning or from a place within it.
      A slot and a place in the store are named with the allocation they belong to, which is gone once
      the frames or the store have moved. Tokens that have been given back stand nowhere. */
  datatype Pointer = Slot(allocation: nat, index: nat) | StoreAt(allocation: nat, offset: nat) | Outside(words: seq<u32>)
                   | Inside(words: seq<u32>, offset: nat) | GivenBack

  datatype TokenSource = TokenSource(
    tokens: Pointer, count: nat, cursor: nat, location: Location, held: u32, definition: u32, storeBase: nat,
    holdsOwn: bool, owns: bool, fromStore: bool, argumentLengths: bool, kind: byte, name: u32)

  datatype Frame = File(path: seq<byte>, mouth: MouthState) | TokenList(source: TokenSource) | Boundary

  // ----- what a reader sees -----

  /** A frame without what it is made of. */
  datatype View = FileView(path: seq<byte>, mouth: MouthState)
                | TokenView(words: seq<u32>, cursor: nat, location: Location, kind: byte, name: u32)
                | BoundaryView

  /** The whole reading position: the frames, how many files have run out, and the lexical state. */
  datatype Reading = Reading(frames: seq<View>, fileEnds: nat, lex: Lex)

  predicate ViewOK(view: View) {
    match view
    case FileView(_, mouth) => Sound(mouth)
    case TokenView(_, _, _, _, _) => true
    case BoundaryView => true
  }

  predicate ReadingOK(r: Reading) {
    forall i :: 0 <= i < |r.frames| ==> ViewOK(r.frames[i])
  }

  function Top(views: seq<View>): View
    requires views != []
  {
    views[|views| - 1]
  }

  function Below<T>(s: seq<T>): seq<T>
    requires s != []
  {
    s[..|s| - 1]
  }

  /** hstex_source_next: a spent list is popped, a file that has run out is popped and counted, and a
      boundary stops the reading. */
  function NextRead(r: Reading): (n: (Result, Reading))
    requires ReadingOK(r)
    ensures ReadingOK(n.1)
    decreases |r.frames|
  {
    if r.frames == [] then (EndOfFile, r)
    else
      match Top(r.frames)
      case BoundaryView => (EndOfFile, r)
      case TokenView(words, cursor, location, kind, name) =>
        if cursor >= |words| then NextRead(r.(frames := Below(r.frames)))
        else (Token(words[cursor], location), r.(frames := Below(r.frames) + [TokenView(words, cursor + 1, location, kind, name)]))
      case FileView(path, mouth) =>
        var (result, after, lex) := MouthNext(mouth, r.lex);
        if result == EndOfFile then NextRead(Reading(Below(r.frames), r.fileEnds + 1, lex))
        else (result, Reading(Below(r.frames) + [FileView(path, after)], r.fileEnds, lex))
  }

  predicate Spent(view: View) {
    view.TokenView? && view.cursor >= |view.words| && view.kind != TEMPLATE_AFTER
  }

  /** pop_exhausted_token_frames. */
  function Settled(views: seq<View>): (settled: seq<View>)
    ensures settled <= views
  {
    if views != [] && Spent(Top(views)) then Settled(Below(views)) else views
  }

  /** hstex_source_pop_boundary: everything down to the innermost boundary, and it. */
  function ToBoundary(views: seq<View>): Option<seq<View>> {
    if views == [] then None
    else if Top(views).BoundaryView? then Some(Below(views))
    else ToBoundary(Below(views))
  }

  /** The file ends after the line in hand, or after its first where none has been read. */
  function Ended(m: MouthState): (ended: MouthState)
    requires Sound(m)
    ensures Sound(ended)
  {
    if m.lineNumber == 0 then m.(length := NextStart(m.data, LineEnd(m.data, m.nextLine, m.length), m.length))
    else m.(nextLine := m.length)
  }

  /** hstex_source_end_current_file. */
  function EndedFile(views: seq<View>): (ended: Option<seq<View>>)
    requires forall i :: 0 <= i < |views| ==> ViewOK(views[i])
  {
    if views == [] then None
    else if Top(views).FileView? then
      assert ViewOK(views[|views| - 1]);
      Some(Below(views) + [FileView(Top(views).path, Ended(Top(views).mouth))])
    else
      var below := EndedFile(Below(views));
      if below.None? then None else Some(below.value + [Top(views)])
  }

  // ----- what a frame's tokens are -----

  function ListWords(s: TokenSource, store: seq<u32>): seq<u32> {
    match s.tokens
    case Slot(_, _) => if s.count == 0 then [] else [s.held]
    case StoreAt(_, offset) => if offset + s.count <= |store| then store[offset..offset + s.count] else []
    case Outside(words) => if s.count <= |words| then words[..s.count] else words
    case Inside(words, offset) => if offset + s.count <= |words| then words[offset..offset + s.count] else []
    case GivenBack => []
  }

  function ViewOf(frame: Frame, store: seq<u32>): View {
    match frame
    case File(path, mouth) => FileView(path, mouth)
    case TokenList(s) => TokenView(ListWords(s, store), s.cursor, s.location, s.kind, s.name)
    case Boundary => BoundaryView
  }

  function Views(frames: seq<Frame>, store: seq<u32>): (views: seq<View>)
    ensures |views| == |frames|
    ensures forall i :: 0 <= i < |frames| ==> views[i] == ViewOf(frames[i], store)
  {
    seq(|frames|, i requires 0 <= i < |frames| => ViewOf(frames[i], store))
  }

  // ----- what every stack keeps -----

  /** A file is only ever cut short where one of its lines ends. */
  predicate CutAtLine(m: MouthState)
    requires Sound(m)
  {
    m.length < |m.data| ==>
      && m.length > 0 && (m.data[m.length - 1] == 10 || m.data[m.length - 1] == 13)
      && !(m.data[m.length - 1] == 13 && m.data[m.length] == 10)
  }

  lemma EndedAtLine(m: MouthState)
    requires Sound(m) && CutAtLine(m)
    ensures CutAtLine(Ended(m))
  {}

  /** A frame and its place: what it holds itself stands in its own slot, what it reads in the store
      stands where the store is, and what it owns is not empty. */
  predicate FrameOK(frame: Frame, index: nat, framesAt: nat, storeAt: nat) {
    match frame
    case File(_, mouth) => Sound(mouth) && CutAtLine(mouth)
    case Boundary => true
    case TokenList(s) =>
      && s.cursor <= UINT32_MAX && s.count <= UINT32_MAX
      && (match s.tokens
          case Slot(allocation, slot) => s.holdsOwn && allocation == framesAt && slot == index && s.count <= 1
          case StoreAt(allocation, offset) => s.fromStore && allocation == storeAt && s.storeBase <= offset
          case Outside(words) => !s.holdsOwn && !s.fromStore && s.count <= |words|
          case Inside(words, offset) => !s.holdsOwn && !s.fromStore && offset + s.count <= |words|
          case GivenBack => false)
      && (s.fromStore ==> s.tokens.StoreAt?)
      && (s.holdsOwn ==> s.tokens.Slot?)
      && (s.owns ==> s.tokens.Outside? && s.count > 0)
  }

  predicate FramesOK(frames: seq<Frame>, framesAt: nat, storeAt: nat) {
    forall i :: 0 <= i < |frames| ==> FrameOK(frames[i], i, framesAt, storeAt)
  }

  predicate InStore(frame: Frame) {
    frame.TokenList? && frame.source.fromStore && frame.source.tokens.StoreAt?
  }

  function RegionEnd(frame: Frame): nat
    requires InStore(frame)
  {
    frame.source.tokens.offset + frame.source.count
  }

  /** Where the store is free: behind the uppermost frame that stands in it. */
  function StoreEnd(frames: seq<Frame>): nat {
    if frames == [] then 0
    else if InStore(frames[|frames| - 1]) then RegionEnd(frames[|frames| - 1])
    else StoreEnd(Below(frames))
  }

  /** Every store frame's region begins where those below it end, and is not empty. */
  predicate Regions(frames: seq<Frame>) {
    frames == [] ||
    (Regions(Below(frames)) &&
     (InStore(frames[|frames| - 1]) ==>
       frames[|frames| - 1].source.storeBase == StoreEnd(Below(frames)) < RegionEnd(frames[|frames| - 1])))
  }

  /** What note_top_frame finds. */
  function TopOf(frames: seq<Frame>): Option<nat> {
    if frames != [] && frames[|frames| - 1].TokenList? then Some(|frames| - 1) else None
  }

  /** One more than the index of the innermost file, or zero. */
  function FileTopOf(frames: seq<Frame>): nat {
    if frames == [] then 0
    else if frames[|frames| - 1].File? then |frames|
    else FileTopOf(Below(frames))
  }

  predicate Kept(frames: seq<Frame>, framesAt: nat, storeAt: nat, storeCount: nat, top: Option<nat>, fileTop: nat) {
    && FramesOK(frames, framesAt, storeAt)
    && Regions(frames) && storeCount == StoreEnd(frames)
    && top == TopOf(frames) && fileTop == FileTopOf(frames)
  }

  // ----- what the invariants mean -----

  /** The regions of the store ascend and do not overlap, all of them before where it is free. */
  lemma {:induction false} RegionsAscend(frames: seq<Frame>, i: nat, j: nat)
    requires Regions(frames) && i < |frames| && InStore(frames[i])
    requires i < j <= |frames| && (j < |frames| ==> InStore(frames[j]))
    ensures frames[i].source.storeBase < RegionEnd(frames[i])
    ensures RegionEnd(frames[i]) <= if j < |frames| then frames[j].source.storeBase else StoreEnd(frames)
  {
    var front := Below(frames);
    if i < |front| {
      if j < |front| {
        RegionsAscend(front, i, j);
      } else {
        RegionsAscend(front, i, |front|);
      }
    }
  }

  /** The store is empty exactly when no frame stands in it, so it is moved only when nothing reads it. */
  lemma {:induction false} StoreEmpty(frames: seq<Frame>)
    requires Regions(frames)
    ensures StoreEnd(frames) == 0 <==> forall i :: 0 <= i < |frames| ==> !InStore(frames[i])
  {
    if frames != [] {
      var front := Below(frames);
      StoreEmpty(front);
      if !InStore(frames[|frames| - 1]) {
        assert forall i :: 0 <= i < |front| ==> frames[i] == front[i];
      }
    }
  }

  lemma {:induction false} FileTopFound(frames: seq<Frame>)
    ensures FileTopOf(frames) <= |frames|
    ensures FileTopOf(frames) != 0 ==> frames[FileTopOf(frames) - 1].File?
    ensures forall i :: FileTopOf(frames) <= i < |frames| ==> !frames[i].File?
  {
    if frames != [] {
      FileTopFound(Below(frames));
      assert forall i :: 0 <= i < |frames| - 1 ==> frames[i] == Below(frames)[i];
    }
  }

  /** What the views are sound for. */
  lemma ViewsOK(frames: seq<Frame>, framesAt: nat, storeAt: nat, store: seq<u32>, fileEnds: nat, lex: Lex)
    requires FramesOK(frames, framesAt, storeAt) && Regions(frames) && StoreEnd(frames) <= |store|
    ensures ReadingOK(Reading(Views(frames, store), fileEnds, lex))
  {
    hide Regions, StoreEnd;
    forall i | 0 <= i < |frames|
      ensures ViewOK(ViewOf(frames[i], store))
    {
      assert FrameOK(frames[i], i, framesAt, storeAt);
      if InStore(frames[i]) { RegionsAscend(frames, i, |frames|); }
    }
  }
}
