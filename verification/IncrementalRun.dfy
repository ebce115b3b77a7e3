/** What a run consumes up to a checkpoint, and that a checkpoint which may be reused is reached by the same
    reading in the sources as they are now. */
module IncrementalRun {
  import opened Bytes
  import opened Mouth
  import opened Incremental

  // ----- a deterministic run -----

  /** What the engine asks of the world: a file opened, its next line taken, a page shipped. */
  datatype Request = Open(path: Path) | Line(path: Path) | Ship

  datatype Answer = Opened(found: bool) | Text(line: Option<seq<byte>>) | Shipped

  /** An engine, of whatever states: what it asks next depends on what it has been told and nothing else. */
  datatype Engine<!S(!new)> = Engine(start: S, ask: S -> Request, told: (S, Answer) -> S)

  datatype Run<S> = Run(state: S, offsets: map<Path, nat>, page: nat, log: seq<Opening>)

  /** The line that begins at an offset, and where the next one does; None at the end of the file. */
  function LineOf(content: seq<byte>, at: nat): (r: (Option<seq<byte>>, nat))
    ensures r.1 >= at
  {
    if at >= |content| then (None, at)
    else
      var end := LineEnd(content, at, |content|);
      (Some(content[at..end]), NextStart(content, end, |content|))
  }

  function SeenOf(content: Option<seq<byte>>, hash: Hash): Seen {
    if content.None? then Missing else Hashed(hash(content.value))
  }

  function NextLine(world: World, offsets: map<Path, nat>, path: Path): (Option<seq<byte>>, nat) {
    if path in offsets && world(path).Some? then LineOf(world(path).value, offsets[path]) else (None, 0)
  }

  function Step<S(!new)>(e: Engine<S>, world: World, hash: Hash, r: Run<S>): Run<S> {
    match e.ask(r.state)
    case Open(path) =>
      Run(e.told(r.state, Opened(world(path).Some?)), if world(path).Some? then r.offsets[path := 0] else r.offsets, r.page,
          r.log + [Opening(r.page, SeenOf(world(path), hash), path)])
    case Line(path) =>
      var (line, next) := NextLine(world, r.offsets, path);
      Run(e.told(r.state, Text(line)), if line.Some? then r.offsets[path := next] else r.offsets, r.page, r.log)
    case Ship => Run(e.told(r.state, Shipped), r.offsets, r.page + 1, r.log)
  }

  function After<S(!new)>(e: Engine<S>, world: World, hash: Hash, n: nat): Run<S> {
    if n == 0 then Run(e.start, map[], 0, []) else Step(e, world, hash, After(e, world, hash, n - 1))
  }

  // ----- a line and the prefix it is in -----

  /** The last line before the cursor ends there whatever follows: it is terminated, and not by a carriage
      return that a line feed now follows; or it ends the file still. */
  predicate SafeEnd(old_: seq<byte>, now: seq<byte>, cursor: nat)
    requires 0 < cursor <= |old_|
  {
    if old_[cursor - 1] == 10 then true
    else if old_[cursor - 1] == 13 then !(cursor < |now| && now[cursor] == 10)
    else |now| == cursor
  }

  lemma {:induction false} EndIs(data: seq<byte>, at: nat, end: nat)
    requires at <= end <= |data| && forall i :: at <= i < end ==> data[i] != 10 && data[i] != 13
    requires end < |data| ==> data[end] == 10 || data[end] == 13
    ensures LineEnd(data, at, |data|) == end
    decreases end - at
  {
    if at < end { EndIs(data, at + 1, end); }
  }

  /** With what was read before the cursor unchanged, the line before it is the same exactly where its end is
      safe. */
  lemma LineKeptExactly(old_: seq<byte>, now: seq<byte>, at: nat)
    requires at < |old_|
    requires var cursor := LineOf(old_, at).1; cursor <= |now| && now[..cursor] == old_[..cursor]
    ensures at < LineOf(old_, at).1 <= |old_|
    ensures LineOf(now, at) == LineOf(old_, at) <==> SafeEnd(old_, now, LineOf(old_, at).1)
  {
    var end := LineEnd(old_, at, |old_|);
    var cursor := NextStart(old_, end, |old_|);
    assert forall i :: 0 <= i < cursor ==> now[i] == now[..cursor][i] == old_[..cursor][i] == old_[i];
    if end < cursor {
      EndIs(now, at, end);
      assert now[at..end] == old_[at..end];
    } else if |now| == cursor {
      EndIs(now, at, end);
      assert now[at..end] == old_[at..end];
    } else {
      LongerLine(now, at, cursor);
    }
  }

  lemma LongerLine(data: seq<byte>, at: nat, cursor: nat)
    requires at <= cursor < |data| && forall i :: at <= i < cursor ==> data[i] != 10 && data[i] != 13
    ensures LineOf(data, at).1 > cursor
  {
    var end := LineEnd(data, at, |data|);
    assert end >= cursor;
  }

  /** A line wholly before the cursor is the same. */
  lemma LineBefore(old_: seq<byte>, now: seq<byte>, at: nat, cursor: nat)
    requires at < |old_| && LineOf(old_, at).1 < cursor <= |old_| && cursor <= |now| && now[..cursor] == old_[..cursor]
    ensures LineOf(now, at) == LineOf(old_, at)
  {
    var next := LineOf(old_, at).1;
    var end := LineEnd(old_, at, |old_|);
    assert forall i :: 0 <= i < cursor ==> now[i] == now[..cursor][i] == old_[..cursor][i] == old_[i];
    EndIs(now, at, end);
    assert now[at..end] == old_[at..end];
  }

  /** A prefix left intact does not by itself fix the line before it: where the file ended without a
      terminator, what is added to it lengthens that line. */
  lemma PrefixAloneDoesNotFixTheLine()
    ensures var old_: seq<byte>, now: seq<byte> := [97], [97, 98];
      now[..1] == old_[..1] && LineOf(old_, 0) == (Some([97]), 1) && LineOf(now, 0) == (Some([97, 98]), 2)
  {
    var old_: seq<byte>, now: seq<byte> := [97], [97, 98];
    EndIs(old_, 0, 1);
    EndIs(now, 0, 2);
    assert now[..1] == old_ && old_[0..1] == old_ && now[0..2] == now;
  }

  // ----- what a run keeps -----

  /** Everything open was opened and is there, and nothing is read past its end. */
  ghost predicate OffsetsOK<S(!new)>(r: Run<S>, world: World) {
    && (forall p :: p in r.offsets ==> world(p).Some? && r.offsets[p] <= |world(p).value|)
    && (forall p :: p in r.offsets ==> exists m :: 0 <= m < |r.log| && r.log[m].path == p)
  }

  lemma LineBound(content: seq<byte>, at: nat)
    requires at <= |content|
    ensures LineOf(content, at).1 <= |content|
    ensures LineOf(content, at).0.Some? ==> LineOf(content, at).1 > at
    ensures LineOf(content, at).0.None? ==> LineOf(content, at).1 == at
  {}

  lemma StepKeeps<S(!new)>(e: Engine<S>, world: World, hash: Hash, r: Run<S>)
    requires OffsetsOK(r, world)
    ensures OffsetsOK(Step(e, world, hash, r), world)
    ensures r.page <= Step(e, world, hash, r).page && r.log <= Step(e, world, hash, r).log
  {
    hide LineOf;
    var next := Step(e, world, hash, r);
    match e.ask(r.state)
    case Open(path) =>
      assert next.log[|r.log|].path == path;
      forall p | p in next.offsets
        ensures exists m :: 0 <= m < |next.log| && next.log[m].path == p
      {
        if p != path {
          var m :| 0 <= m < |r.log| && r.log[m].path == p;
          assert next.log[m].path == p;
        }
      }
    case Line(path) =>
      if path in r.offsets { LineBound(world(path).value, r.offsets[path]); }
    case Ship =>
  }

  lemma {:induction false} RunKeeps<S(!new)>(e: Engine<S>, world: World, hash: Hash, n: nat)
    ensures OffsetsOK(After(e, world, hash, n), world)
  {
    if n > 0 {
      RunKeeps(e, world, hash, n - 1);
      StepKeeps(e, world, hash, After(e, world, hash, n - 1));
    }
  }

  /** What was logged and shipped stays logged and shipped. */
  lemma {:induction false} RunGrows<S(!new)>(e: Engine<S>, world: World, hash: Hash, k: nat, n: nat)
    requires k <= n
    ensures After(e, world, hash, k).log <= After(e, world, hash, n).log
    ensures After(e, world, hash, k).page <= After(e, world, hash, n).page
    decreases n
  {
    if k < n {
      hide Step;
      RunGrows(e, world, hash, k, n - 1);
      RunKeeps(e, world, hash, n - 1);
      StepKeeps(e, world, hash, After(e, world, hash, n - 1));
    }
  }

  ghost predicate OpenedOnce(log: seq<Opening>) {
    forall i, j :: 0 <= i < j < |log| ==> log[i].path != log[j].path
  }

  lemma StepForward<S(!new)>(e: Engine<S>, world: World, hash: Hash, r: Run<S>, path: Path)
    requires OffsetsOK(r, world) && OpenedOnce(Step(e, world, hash, r).log) && path in r.offsets
    ensures Forward(r, Step(e, world, hash, r), path)
  {
    hide LineOf;
    var next := Step(e, world, hash, r);
    match e.ask(r.state)
    case Open(p) =>
      if p == path { OpenedTwice(r.log, Opening(r.page, SeenOf(world(p), hash), p)); }
    case Line(p) =>
      if p in r.offsets { LineBound(world(p).value, r.offsets[p]); }
    case Ship =>
  }

  lemma OpenedTwice(log: seq<Opening>, again: Opening)
    requires exists m :: 0 <= m < |log| && log[m].path == again.path
    ensures !OpenedOnce(log + [again])
  {
    var m :| 0 <= m < |log| && log[m].path == again.path;
    var more := log + [again];
    assert more[m].path == more[|log|].path;
  }

  lemma OnceBefore(log: seq<Opening>, more: seq<Opening>)
    requires log <= more && OpenedOnce(more)
    ensures OpenedOnce(log)
  {
    assert forall i :: 0 <= i < |log| ==> log[i] == more[i];
  }

  predicate Forward<S(!new)>(r: Run<S>, later: Run<S>, path: Path) {
    path in r.offsets && path in later.offsets && r.offsets[path] <= later.offsets[path]
  }

  /** A file is read forward only. */
  lemma {:induction false} OffsetGrows<S(!new)>(e: Engine<S>, world: World, hash: Hash, path: Path, k: nat, n: nat)
    requires k <= n && OpenedOnce(After(e, world, hash, n).log) && path in After(e, world, hash, k).offsets
    ensures Forward(After(e, world, hash, k), After(e, world, hash, n), path)
    decreases n
  {
    hide OpenedOnce, After, Forward;
    if k < n {
      OnceEarlier(e, world, hash, n - 1);
      OffsetGrows(e, world, hash, path, k, n - 1);
      ForwardNext(e, world, hash, path, After(e, world, hash, k), n - 1);
    } else {
      ForwardSame(After(e, world, hash, k), path);
    }
  }

  lemma ForwardSame<S(!new)>(r: Run<S>, path: Path)
    requires path in r.offsets
    ensures Forward(r, r, path)
  {}

  lemma OnceEarlier<S(!new)>(e: Engine<S>, world: World, hash: Hash, n: nat)
    requires OpenedOnce(After(e, world, hash, n + 1).log)
    ensures OpenedOnce(After(e, world, hash, n).log)
  {
    hide After, OpenedOnce;
    RunGrows(e, world, hash, n, n + 1);
    OnceBefore(After(e, world, hash, n).log, After(e, world, hash, n + 1).log);
  }

  lemma ForwardNext<S(!new)>(e: Engine<S>, world: World, hash: Hash, path: Path, first: Run<S>, n: nat)
    requires OpenedOnce(After(e, world, hash, n + 1).log) && Forward(first, After(e, world, hash, n), path)
    ensures Forward(first, After(e, world, hash, n + 1), path)
  {
    hide After, OpenedOnce, Step, OffsetsOK, Forward;
    AfterStep(e, world, hash, n);
    RunKeeps(e, world, hash, n);
    ForwardStep(e, world, hash, first, After(e, world, hash, n), path);
  }

  lemma ForwardStep<S(!new)>(e: Engine<S>, world: World, hash: Hash, first: Run<S>, r: Run<S>, path: Path)
    requires Forward(first, r, path) && OffsetsOK(r, world) && OpenedOnce(Step(e, world, hash, r).log)
    ensures Forward(first, Step(e, world, hash, r), path)
  {
    hide Step, OpenedOnce, OffsetsOK;
    StepForward(e, world, hash, r, path);
  }

  // ----- the record of a whole run -----

  /** No two contents have one hash, and none has the one that stands for a file not there. */
  ghost predicate TellsApart(hash: Hash) {
    && (forall a: seq<byte>, b: seq<byte> :: hash(a) == hash(b) ==> a == b)
    && (forall a: seq<byte> :: hash(a) != ABSENT)
  }

  lemma {:induction false} SourceKept(notes: seq<Note>, hash: Hash, world: World, k: nat) returns (i: nat)
    requires k < |notes| && SourceOf(notes[k], hash, world).Some?
    ensures i < |Sources(notes, hash, world)| && Sources(notes, hash, world)[i] == SourceOf(notes[k], hash, world).value
  {
    if k == 0 {
      i := 0;
    } else {
      hide SourceOf;
      var later := SourceKept(notes[1..], hash, world, k - 1);
      i := if SourceOf(notes[0], hash, world).None? then later else later + 1;
    }
  }

  /** A file opened by then is what it was, or is the one being read and what was read of it is. */
  ghost predicate SameOrIntact(path: Path, at: Checkpoint, hash: Hash, before: World, now: World) {
    before(path) == now(path) || (path == at.reading && PrefixIntact(at, hash, now))
  }

  /** The log of a run holds what the world held, page after page and no later than the run has come to. */
  ghost predicate LogTrue(log: seq<Opening>, page: int, hash: Hash, world: World) {
    && Ascending(log)
    && forall m :: 0 <= m < |log| ==> log[m].seen == SeenOf(world(log[m].path), hash) && log[m].page <= page
  }

  lemma {:induction false} RunLogTrue<S(!new)>(e: Engine<S>, world: World, hash: Hash, n: nat)
    ensures LogTrue(After(e, world, hash, n).log, After(e, world, hash, n).page, hash, world)
  {
    hide NextLine;
    if n > 0 { RunLogTrue(e, world, hash, n - 1); }
  }

  /** The first opening of a file. */
  lemma FirstOf(log: seq<Opening>, m: nat) returns (first: nat)
    requires m < |log|
    ensures first <= m && log[first].path == log[m].path && FirstOpening(log, first)
    decreases m
  {
    if FirstOpening(log, m) {
      first := m;
    } else {
      var l: nat :| l < m && log[l].path == log[m].path;
      first := FirstOf(log, l);
    }
  }

  /** Where every changed file opens later or is intact as far as it was read, so is every file opened by
      the checkpoint's page. */
  lemma OpenedKept(log: seq<Opening>, m: nat, page: int, at: Checkpoint, hash: Hash, before: World, now: World)
    requires m < |log| && LogTrue(log, page, hash, before) && log[m].page <= at.page && TellsApart(hash)
    requires Reusable(at, ChangedAmong(Sources(AllNoted(log), hash, before), hash, now), hash, now)
    ensures SameOrIntact(log[m].path, at, hash, before, now)
  {
    hide AllNoted, Sources, ChangedAmong, PrefixIntact;
    var path := log[m].path;
    var first := FirstOf(log, m);
    var k := NotesHold(log, first);
    var note := AllNoted(log)[k];
    assert note.seen == SeenOf(before(path), hash);
    var i := SourceKept(AllNoted(log), hash, before, k);
    var record := Sources(AllNoted(log), hash, before);
    if Moved(record[i], hash, now) {
      MovedIsChanged(record, hash, now, i);
      var changed := ChangedAmong(record, hash, now);
      var c :| 0 <= c < |changed| && changed[c] == Changed(path, note.page);
      assert Untouched(changed[c], at, hash, now);
    } else {
      assert before(path) == now(path);
    }
  }

  // ----- the same reading -----

  /** Everything but what the log says of contents. */
  ghost predicate Agree<S(!new)>(r: Run<S>, s: Run<S>) {
    r.state == s.state && r.offsets == s.offsets && r.page == s.page
  }

  /** A run of so many steps in all, and a checkpoint taken at its n-th: where it stands, in a file. */
  ghost predicate TakenAt<S(!new)>(e: Engine<S>, world: World, hash: Hash, n: nat, total: nat, at: Checkpoint) {
    && n <= total
    && var r := After(e, world, hash, n);
      && at.page == r.page
      && at.reading in r.offsets && at.cursor == r.offsets[at.reading]
      && world(at.reading).Some? && at.cursor <= |world(at.reading).value|
      && at.prefixHash == hash(world(at.reading).value[..at.cursor])
  }

  /** The file ends in a line that nothing ends. */
  predicate EndsOpen(content: seq<byte>) {
    content != [] && content[|content| - 1] != 10 && content[|content| - 1] != 13
  }

  /** All that was read of the file is before the cursor, its end with it where nothing ends its last line. */
  predicate Within(content: seq<byte>, from: nat, cursor: nat) {
    var (line, next) := LineOf(content, from);
    if line.Some? then next <= cursor else cursor == |content| && EndsOpen(content)
  }

  /** The run has read no further in the file the checkpoint stands in than the checkpoint does. */
  ghost predicate ReadWithin<S(!new)>(e: Engine<S>, world: World, hash: Hash, n: nat, at: Checkpoint) {
    forall k :: 0 <= k < n && TakesLine(e, After(e, world, hash, k), at.reading) && world(at.reading).Some? ==>
      Within(world(at.reading).value, After(e, world, hash, k).offsets[at.reading], at.cursor)
  }

  predicate TakesLine<S(!new)>(e: Engine<S>, r: Run<S>, path: Path) {
    e.ask(r.state) == Line(path) && path in r.offsets
  }

  /** What is there now of the file being read continues it safely. */
  ghost predicate Continues(at: Checkpoint, before: World, now: World) {
    before(at.reading).Some? && now(at.reading).Some? && before(at.reading) != now(at.reading)
      && 0 < at.cursor <= |before(at.reading).value| ==>
    SafeEnd(before(at.reading).value, now(at.reading).value, at.cursor)
  }

  /** A checkpoint of the run that the rebuild may reuse: of the sources as they are now it looks at no more
      than this. */
  ghost predicate Reused<S(!new)>(e: Engine<S>, before: World, now: World, hash: Hash, n: nat, total: nat, at: Checkpoint) {
    && TellsApart(hash) && TakenAt(e, before, hash, n, total, at)
    && Reusable(at, ChangedAmong(Sources(AllNoted(After(e, before, hash, total).log), hash, before), hash, now), hash, now)
  }

  ghost predicate Resumable<S(!new)>(e: Engine<S>, before: World, now: World, hash: Hash, n: nat, total: nat, at: Checkpoint) {
    Reused(e, before, now, hash, n, total, at) && ReadWithin(e, before, hash, n, at) && Continues(at, before, now)
  }

  /** Whatever has been opened by the checkpoint is what it was, or intact as far as it was read. */
  lemma OpenedByThen<S(!new)>(e: Engine<S>, before: World, now: World, hash: Hash, n: nat, total: nat, at: Checkpoint, k: nat, m: nat)
    requires Reused(e, before, now, hash, n, total, at) && k <= n && m < |After(e, before, hash, k).log|
    ensures SameOrIntact(After(e, before, hash, k).log[m].path, at, hash, before, now)
  {
    hide Reusable, AllNoted, Sources, ChangedAmong, SameOrIntact, After, TellsApart;
    RunGrows(e, before, hash, k, n);
    RunGrows(e, before, hash, k, total);
    RunLogTrue(e, before, hash, k);
    RunLogTrue(e, before, hash, total);
    var log := After(e, before, hash, total).log;
    assert log[m] == After(e, before, hash, k).log[m];
    OpenedKept(log, m, After(e, before, hash, total).page, at, hash, before, now);
  }

  lemma AgreeStep<S(!new)>(e: Engine<S>, before: World, now: World, hash: Hash, r: Run<S>, s: Run<S>)
    requires Agree(r, s)
    requires match e.ask(r.state)
      case Open(path) => before(path).Some? == now(path).Some?
      case Line(path) => NextLine(before, r.offsets, path) == NextLine(now, r.offsets, path)
      case Ship => true
    ensures Agree(Step(e, before, hash, r), Step(e, now, hash, s))
  {
    hide NextLine;
  }

  /** A line of the file being read, taken before the checkpoint, is the same now. */
  lemma LineSame(before: seq<byte>, now: seq<byte>, at: nat, cursor: nat, hash: Hash)
    requires TellsApart(hash) && at < |before| && LineOf(before, at).1 <= cursor <= |before| && cursor <= |now|
    requires hash(now[..cursor]) == hash(before[..cursor])
    requires before != now && cursor > 0 ==> SafeEnd(before, now, cursor)
    ensures LineOf(now, at) == LineOf(before, at)
  {
    hide SafeEnd;
    assert now[..cursor] == before[..cursor];
    if LineOf(before, at).1 < cursor {
      LineBefore(before, now, at, cursor);
    } else {
      LineKeptExactly(before, now, at);
    }
  }

  lemma LineStepSame<S(!new)>(e: Engine<S>, before: World, now: World, hash: Hash, n: nat, total: nat, at: Checkpoint, k: nat, path: Path)
    requires Resumable(e, before, now, hash, n, total, at) && k < n
    requires e.ask(After(e, before, hash, k).state) == Line(path)
    ensures NextLine(before, After(e, before, hash, k).offsets, path) == NextLine(now, After(e, before, hash, k).offsets, path)
  {
    hide Reusable, AllNoted, Sources, ChangedAmong, After, TellsApart, LineOf, SafeEnd, Within;
    var r := After(e, before, hash, k);
    if path in r.offsets {
      RunKeeps(e, before, hash, k);
      var m :| 0 <= m < |r.log| && r.log[m].path == path;
      OpenedByThen(e, before, now, hash, n, total, at, k, m);
      if before(path) != now(path) {
        WithinSame(before(path).value, now(path).value, r.offsets[path], at.cursor, hash);
      }
    }
  }

  ghost predicate NotRunOut<S(!new)>(e: Engine<S>, world: World, hash: Hash, n: nat, path: Path) {
    forall k :: 0 <= k < n && TakesLine(e, After(e, world, hash, k), path) ==>
      NextLine(world, After(e, world, hash, k).offsets, path).0.Some?
  }

  /** A file opened once and not found run out has been read within the cursor. */
  lemma OnceReadWithin<S(!new)>(e: Engine<S>, world: World, hash: Hash, n: nat, total: nat, at: Checkpoint)
    requires TakenAt(e, world, hash, n, total, at)
    requires OpenedOnce(After(e, world, hash, n).log) && NotRunOut(e, world, hash, n, at.reading)
    ensures ReadWithin(e, world, hash, n, at)
  {
    hide After, OpenedOnce, LineOf;
    forall k | 0 <= k < n && TakesLine(e, After(e, world, hash, k), at.reading) && world(at.reading).Some?
      ensures Within(world(at.reading).value, After(e, world, hash, k).offsets[at.reading], at.cursor)
    {
      var r := After(e, world, hash, k);
      assert NextLine(world, r.offsets, at.reading).0.Some?;
      AfterStep(e, world, hash, k);
      OffsetGrows(e, world, hash, at.reading, k + 1, n);
    }
  }

  lemma LineThere(content: seq<byte>, at: nat)
    ensures LineOf(content, at).0.Some? <==> at < |content|
  {}

  /** What was read within the cursor is the same of a file that continues safely what was read of it. */
  lemma WithinSame(before: seq<byte>, now: seq<byte>, from: nat, cursor: nat, hash: Hash)
    requires TellsApart(hash) && Within(before, from, cursor) && cursor <= |before| && cursor <= |now|
    requires hash(now[..cursor]) == hash(before[..cursor])
    requires before != now && cursor > 0 ==> SafeEnd(before, now, cursor)
    ensures LineOf(now, from) == LineOf(before, from)
  {
    LineThere(before, from);
    if from < |before| {
      LineSame(before, now, from, cursor, hash);
    } else {
      EndsThere(before, now);
    }
  }

  /** A file that ends in an open line continues safely only as itself. */
  lemma EndsThere(before: seq<byte>, now: seq<byte>)
    requires EndsOpen(before) && |before| <= |now| && now[..|before|] == before[..|before|]
    requires before != now ==> SafeEnd(before, now, |before|)
    ensures now == before
  {
    assert |now| == |before| ==> now == now[..|before|];
  }

  /** A checkpoint that may be reused is reached by the same reading in the sources as they are now: the
      engine comes to the same state, at the same page, and stands in every open file where it stood. */
  lemma {:induction false} SameReading<S(!new)>(e: Engine<S>, before: World, now: World, hash: Hash, n: nat, total: nat, at: Checkpoint, k: nat)
    requires Resumable(e, before, now, hash, n, total, at) && k <= n
    ensures Agree(After(e, before, hash, k), After(e, now, hash, k))
    decreases k
  {
    if k == 0 {
      assert Agree(After(e, before, hash, 0), After(e, now, hash, 0));
    } else {
      hide Resumable, After, Agree;
      SameReading(e, before, now, hash, n, total, at, k - 1);
      SameStep(e, before, now, hash, n, total, at, k - 1);
    }
  }

  lemma AfterStep<S(!new)>(e: Engine<S>, world: World, hash: Hash, k: nat)
    ensures After(e, world, hash, k + 1) == Step(e, world, hash, After(e, world, hash, k))
  {}

  lemma IsReused<S(!new)>(e: Engine<S>, before: World, now: World, hash: Hash, n: nat, total: nat, at: Checkpoint)
    requires Resumable(e, before, now, hash, n, total, at)
    ensures Reused(e, before, now, hash, n, total, at)
  {
    hide Reused;
  }

  lemma SameStep<S(!new)>(e: Engine<S>, before: World, now: World, hash: Hash, n: nat, total: nat, at: Checkpoint, k: nat)
    requires Resumable(e, before, now, hash, n, total, at) && k < n
    requires Agree(After(e, before, hash, k), After(e, now, hash, k))
    ensures Agree(After(e, before, hash, k + 1), After(e, now, hash, k + 1))
  {
    hide Resumable, Reused, After, Step, NextLine;
    var r, s := After(e, before, hash, k), After(e, now, hash, k);
    AfterStep(e, before, hash, k);
    AfterStep(e, now, hash, k);
    IsReused(e, before, now, hash, n, total, at);
    match e.ask(r.state) {
      case Open(path) => OpenSame(e, before, now, hash, n, total, at, k, path);
      case Line(path) => LineStepSame(e, before, now, hash, n, total, at, k, path);
      case Ship =>
    }
    AgreeStep(e, before, now, hash, r, s);
  }

  lemma OpenSame<S(!new)>(e: Engine<S>, before: World, now: World, hash: Hash, n: nat, total: nat, at: Checkpoint, k: nat, path: Path)
    requires Reused(e, before, now, hash, n, total, at) && k < n
    requires e.ask(After(e, before, hash, k).state) == Open(path)
    ensures before(path).Some? == now(path).Some?
  {
    hide Reusable, AllNoted, Sources, ChangedAmong, TellsApart, SafeEnd;
    var r := After(e, before, hash, k);
    assert After(e, before, hash, k + 1) == Step(e, before, hash, r);
    hide After;
    OpenedByThen(e, before, now, hash, n, total, at, k + 1, |r.log|);
  }

  // ----- exactly when the answers are the same -----

  /** What the world answers: whether a file was there, a line and where the next begins, or nothing. */
  datatype Reply = Found(found: bool) | Taken(line: Option<seq<byte>>, next: nat) | Nothing

  function ReplyTo<S(!new)>(e: Engine<S>, world: World, r: Run<S>): Reply {
    match e.ask(r.state)
    case Open(path) => Found(world(path).Some?)
    case Line(path) => Taken(NextLine(world, r.offsets, path).0, NextLine(world, r.offsets, path).1)
    case Ship => Nothing
  }

  /** The k-th request of a run, answered. */
  function ReplyAt<S(!new)>(e: Engine<S>, world: World, hash: Hash, k: nat): Reply {
    ReplyTo(e, world, After(e, world, hash, k))
  }

  ghost predicate SameReplies<S(!new)>(e: Engine<S>, before: World, now: World, hash: Hash, n: nat) {
    forall k :: 0 <= k < n ==> ReplyAt(e, before, hash, k) == ReplyAt(e, now, hash, k)
  }

  lemma SameAnswered<S(!new)>(e: Engine<S>, before: World, now: World, hash: Hash, r: Run<S>, s: Run<S>)
    requires Agree(r, s)
    ensures ReplyTo(e, before, r) == ReplyTo(e, now, s) <==>
      match e.ask(r.state) {
        case Open(path) => before(path).Some? == now(path).Some?
        case Line(path) => NextLine(before, r.offsets, path) == NextLine(now, r.offsets, path)
        case Ship => true
      }
  {
    hide NextLine;
  }

  /** A run told the same goes the same way. */
  lemma {:induction false} RepliesAgree<S(!new)>(e: Engine<S>, before: World, now: World, hash: Hash, n: nat, k: nat)
    requires SameReplies(e, before, now, hash, n) && k <= n
    ensures Agree(After(e, before, hash, k), After(e, now, hash, k))
    decreases k
  {
    if k == 0 {
      assert Agree(After(e, before, hash, 0), After(e, now, hash, 0));
    } else {
      hide After, Agree, ReplyTo, Step;
      RepliesAgree(e, before, now, hash, n, k - 1);
      assert ReplyAt(e, before, hash, k - 1) == ReplyAt(e, now, hash, k - 1);
      SameAnswered(e, before, now, hash, After(e, before, hash, k - 1), After(e, now, hash, k - 1));
      AfterStep(e, before, hash, k - 1);
      AfterStep(e, now, hash, k - 1);
      AgreeStep(e, before, now, hash, After(e, before, hash, k - 1), After(e, now, hash, k - 1));
    }
  }

  lemma KeptReply<S(!new)>(e: Engine<S>, before: World, now: World, hash: Hash, n: nat, total: nat, at: Checkpoint, k: nat)
    requires Resumable(e, before, now, hash, n, total, at) && k < n
    ensures ReplyAt(e, before, hash, k) == ReplyAt(e, now, hash, k)
  {
    hide Resumable, Reused, After, Step, NextLine, ReplyTo, Agree;
    SameReading(e, before, now, hash, n, total, at, k);
    IsReused(e, before, now, hash, n, total, at);
    var r := After(e, before, hash, k);
    match e.ask(r.state) {
      case Open(path) => OpenSame(e, before, now, hash, n, total, at, k, path);
      case Line(path) => LineStepSame(e, before, now, hash, n, total, at, k, path);
      case Ship =>
    }
    SameAnswered(e, before, now, hash, r, After(e, now, hash, k));
  }

  /** The run stands so far in the file. */
  predicate StandsIn<S(!new)>(r: Run<S>, path: Path, cursor: nat) { path in r.offsets && r.offsets[path] == cursor }

  /** The run takes a line of the file, and it ends there. */
  predicate TakesTo<S(!new)>(e: Engine<S>, world: World, r: Run<S>, path: Path, cursor: nat) {
    && e.ask(r.state) == Line(path) && path in r.offsets
    && NextLine(world, r.offsets, path).0.Some? && NextLine(world, r.offsets, path).1 == cursor
  }

  /** Where a run stands past the beginning of a file, a line it took ended there. */
  lemma {:induction false} LineEndedThere<S(!new)>(e: Engine<S>, world: World, hash: Hash, n: nat, path: Path, cursor: nat) returns (k: nat)
    requires StandsIn(After(e, world, hash, n), path, cursor) && cursor > 0
    ensures k < n && TakesTo(e, world, After(e, world, hash, k), path, cursor)
    decreases n
  {
    hide StandsIn, TakesTo, Step;
    if n == 0 {
      NowhereYet(e.start, path, cursor);
      assert false;
    } else {
      hide After;
      AfterStep(e, world, hash, n - 1);
      StoodBefore(e, world, hash, After(e, world, hash, n - 1), path, cursor);
      if TakesTo(e, world, After(e, world, hash, n - 1), path, cursor) {
        k := n - 1;
      } else {
        k := LineEndedThere(e, world, hash, n - 1, path, cursor);
      }
    }
  }

  lemma NowhereYet<S(!new)>(start: S, path: Path, cursor: nat)
    ensures !StandsIn(Run(start, map[], 0, []), path, cursor)
  {}

  lemma StoodBefore<S(!new)>(e: Engine<S>, world: World, hash: Hash, r: Run<S>, path: Path, cursor: nat)
    requires StandsIn(Step(e, world, hash, r), path, cursor) && cursor > 0
    ensures TakesTo(e, world, r, path, cursor) || StandsIn(r, path, cursor)
  {
    if e.ask(r.state) == Line(path) && NextLine(world, r.offsets, path).0.Some? { OnlyOpen(world, r.offsets, path); }
    hide NextLine;
  }

  lemma OnlyOpen(world: World, offsets: map<Path, nat>, path: Path)
    requires NextLine(world, offsets, path).0.Some?
    ensures path in offsets
  {}

  /** Where the line that ended at the cursor is not safely ended now, that line is answered otherwise. */
  lemma UnsafeAnswer<S(!new)>(e: Engine<S>, before: World, now: World, hash: Hash, n: nat, total: nat, at: Checkpoint)
    requires Reused(e, before, now, hash, n, total, at) && !Continues(at, before, now)
    ensures !SameReplies(e, before, now, hash, n)
  {
    hide Reusable, AllNoted, Sources, ChangedAmong, After, SafeEnd, LineOf, TellsApart, SameReplies;
    var k := LineEndedThere(e, before, hash, n, at.reading, at.cursor);
    PrefixStands(e, before, now, hash, n, total, at);
    var from := After(e, before, hash, k).offsets[at.reading];
    LineThere(before(at.reading).value, from);
    LineKeptExactly(before(at.reading).value, now(at.reading).value, from);
    if SameReplies(e, before, now, hash, n) {
      RepliesAgree(e, before, now, hash, n, k);
      assert ReplyAt(e, before, hash, k) == ReplyAt(e, now, hash, k) by { OneReply(e, before, now, hash, n, k); }
    }
  }

  lemma OneReply<S(!new)>(e: Engine<S>, before: World, now: World, hash: Hash, n: nat, k: nat)
    requires SameReplies(e, before, now, hash, n) && k < n
    ensures ReplyAt(e, before, hash, k) == ReplyAt(e, now, hash, k)
  {}

  /** What was read of the file still stands. */
  lemma PrefixStands<S(!new)>(e: Engine<S>, before: World, now: World, hash: Hash, n: nat, total: nat, at: Checkpoint)
    requires Reused(e, before, now, hash, n, total, at)
    ensures at.reading in After(e, before, hash, n).offsets
    ensures before(at.reading).Some? && at.cursor <= |before(at.reading).value|
    ensures before(at.reading) == now(at.reading) || PrefixStill(before(at.reading).value, now(at.reading), at.cursor)
  {
    hide Reusable, AllNoted, Sources, ChangedAmong, After;
    RunKeeps(e, before, hash, n);
    var r := After(e, before, hash, n);
    var m :| 0 <= m < |r.log| && r.log[m].path == at.reading;
    OpenedByThen(e, before, now, hash, n, total, at, n, m);
  }

  predicate PrefixStill(before: seq<byte>, now: Option<seq<byte>>, cursor: nat) {
    cursor <= |before| && now.Some? && cursor <= |now.value| && now.value[..cursor] == before[..cursor]
  }

  /** From a checkpoint the rebuild may reuse, a run over the sources as they are now is answered as the first
      one was, request by request, exactly where the last line read safely ends. */
  lemma SameAnswersExactly<S(!new)>(e: Engine<S>, before: World, now: World, hash: Hash, n: nat, total: nat, at: Checkpoint)
    requires Reused(e, before, now, hash, n, total, at) && ReadWithin(e, before, hash, n, at)
    ensures SameReplies(e, before, now, hash, n) <==> Continues(at, before, now)
  {
    hide Reused, Continues, ReplyAt, ReadWithin;
    if Continues(at, before, now) {
      forall k | 0 <= k < n
        ensures ReplyAt(e, before, hash, k) == ReplyAt(e, now, hash, k)
      {
        KeptReply(e, before, now, hash, n, total, at, k);
      }
    } else {
      UnsafeAnswer(e, before, now, hash, n, total, at);
    }
  }

  /** What the rebuild computes from a run's record, as much of the changes as there is room for: where it is a
      checkpoint of that run, everything the run read by then reads the same now. */
  lemma ReusedReadsTheSame<S(!new)>(e: Engine<S>, before: World, now: World, hash: Hash, n: nat, total: nat, at: Checkpoint, changed: seq<Changed>)
    requires TellsApart(hash) && TakenAt(e, before, hash, n, total, at)
    requires ReadWithin(e, before, hash, n, at) && Continues(at, before, now)
    requires var all := ChangedAmong(Sources(AllNoted(After(e, before, hash, total).log), hash, before), hash, now);
      changed == all[..Min(CHANGED_CAPACITY, |all|)]
    requires Reusable(at, changed, hash, now)
    ensures Agree(After(e, before, hash, n), After(e, now, hash, n))
  {
    hide AllNoted, Sources, ChangedAmong, TakenAt, Continues, After, Reusable, TellsApart, Agree;
    RunLogTrue(e, before, hash, total);
    KeptAreEnough(After(e, before, hash, total).log, hash, before, now, at);
    SameReading(e, before, now, hash, n, total, at, n);
  }

  // ----- a run that is resumed and should not be -----

  /** Opens a file, takes its first line and ships pages. */
  function OneLineEngine(path: Path): Engine<int> {
    Engine(0, (s: int) => if s == 0 then Open(path) else if s == 1 then Line(path) else Ship, (s: int, a: Answer) => s + 1)
  }

  function OneFileWorld(path: Path, content: seq<byte>): World { (p: Path) => if p == path then Some(content) else None }

  lemma OneLineRun(path: Path, content: seq<byte>, hash: Hash)
    requires content != []
    ensures var e, world := OneLineEngine(path), OneFileWorld(path, content);
      && After(e, world, hash, 1) == Run(1, map[path := 0], 0, [Opening(0, Hashed(hash(content)), path)])
      && After(e, world, hash, 2)
         == Run(2, map[path := LineOf(content, 0).1], 0, [Opening(0, Hashed(hash(content)), path)])
      && ReplyAt(e, world, hash, 1) == Taken(LineOf(content, 0).0, LineOf(content, 0).1)
  {
    hide LineOf;
    var e, world := OneLineEngine(path), OneFileWorld(path, content);
    LineThere(content, 0);
    AfterStep(e, world, hash, 0);
    AfterStep(e, world, hash, 1);
    assert After(e, world, hash, 0) == Run(0, map[], 0, []);
  }

  lemma OneChange(path: Path, hash: Hash, before: seq<byte>, now: seq<byte>)
    requires hash(before) != ABSENT && hash(before) != hash(now)
    ensures ChangedAmong(Sources(AllNoted([Opening(0, Hashed(hash(before)), path)]), hash, OneFileWorld(path, before)), hash,
                         OneFileWorld(path, now)) == [Changed(path, 0)]
  {
    var log := [Opening(0, Hashed(hash(before)), path)];
    assert log[..0] == [] && AllNoted([]) == [];
    assert AllNoted(log) == [Note(path, 0, Hashed(hash(before)))];
    assert Sources(AllNoted(log), hash, OneFileWorld(path, before)) == [Source(0, hash(before), path)];
  }

  /** The rebuild after a byte was added to a file that ended without a terminator: the checkpoint behind its
      one line is given for reuse, though a run over the file as it is now would be answered another line. */
  method LengthenedLineIsReused(path: Path, hash: Hash) returns (reuse: int)
    requires hash([97]) != ABSENT && hash([97]) != hash([97, 98])
    ensures reuse == 0
    ensures var e, before, now := OneLineEngine(path), OneFileWorld(path, [97]), OneFileWorld(path, [97, 98]);
      var at := Checkpoint(0, 1, hash([97]), path);
      && TakenAt(e, before, hash, 2, 2, at)
      && Reusable(at, ChangedAmong(Sources(AllNoted(After(e, before, hash, 2).log), hash, before), hash, now), hash, now)
      && ReplyAt(e, before, hash, 1) == Taken(Some([97]), 1)
      && ReplyAt(e, now, hash, 1) == Taken(Some([97, 98]), 2)
  {
    hide LineOf, After, AllNoted, Sources, ChangedAmong, ReplyAt;
    PrefixAloneDoesNotFixTheLine();
    OneLineRun(path, [97], hash);
    OneLineRun(path, [97, 98], hash);
    OneChange(path, hash, [97], [97, 98]);
    OneCheckpoint(path, hash);
    var at := Checkpoint(0, 1, hash([97]), path);
    var now := OneFileWorld(path, [97, 98]);
    var log := [Opening(0, Hashed(hash([97])), path)];
    var notes := RecordSources(log);
    var record := Sources(notes, hash, OneFileWorld(path, [97]));
    var changed := ChangedFiles(record, hash, now, CHANGED_CAPACITY);
    assert changed == [Changed(path, 0)];
    assert [97, 98][..1] == [97];
    assert Reusable(at, changed, hash, now);
    reuse := ReusePage([at], changed, hash, now);
    assert [at][0].page == 0;
  }

  lemma OneCheckpoint(path: Path, hash: Hash)
    ensures TakenAt(OneLineEngine(path), OneFileWorld(path, [97]), hash, 2, 2, Checkpoint(0, 1, hash([97]), path))
  {
    hide LineOf, After;
    PrefixAloneDoesNotFixTheLine();
    OneLineRun(path, [97], hash);
    assert [97][..1] == [97];
    var e, world := OneLineEngine(path), OneFileWorld(path, [97]);
    forall k | 0 <= k < 2 && e.ask(After(e, world, hash, k).state) == Line(path)
      ensures NextLine(world, After(e, world, hash, k).offsets, path).0.Some?
    {
      AfterNone(e, world, hash);
    }
  }

  lemma AfterNone<S(!new)>(e: Engine<S>, world: World, hash: Hash)
    ensures After(e, world, hash, 0).state == e.start
  {}
}
