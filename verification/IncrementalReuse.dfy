/** When a checkpoint may be reused whatever the edit: exactly where the run had read no further in the file it
    was reading than the checkpoint stands. */
module IncrementalReuse {
  import opened Bytes
  import opened Mouth
  import opened Incremental
  import opened IncrementalRun

  // ----- the sources with one file edited -----

  function Edited(world: World, path: Path, content: seq<byte>): World { (p: Path) => if p == path then Some(content) else world(p) }

  predicate NotesTrue(notes: seq<Note>, hash: Hash, world: World) {
    forall i :: 0 <= i < |notes| ==> notes[i].seen == SeenOf(world(notes[i].path), hash)
  }

  lemma {:induction false} LogNotesTrue(log: seq<Opening>, hash: Hash, world: World)
    requires forall m :: 0 <= m < |log| ==> log[m].seen == SeenOf(world(log[m].path), hash)
    ensures NotesTrue(AllNoted(log), hash, world)
    decreases |log|
  {
    hide SeenOf;
    if log != [] { LogNotesTrue(log[..|log| - 1], hash, world); }
  }

  predicate OnlyOf(changed: seq<Changed>, path: Path) { forall i :: 0 <= i < |changed| ==> changed[i].path == path }

  /** Of the sources of a true record only what the edit wrote has moved. */
  lemma {:induction false} OnlyEdited(notes: seq<Note>, hash: Hash, before: World, path: Path, content: seq<byte>)
    requires NotesTrue(notes, hash, before) && TellsApart(hash)
    ensures OnlyOf(ChangedAmong(Sources(notes, hash, before), hash, Edited(before, path, content)), path)
  {
    if notes != [] {
      OnlyEdited(notes[1..], hash, before, path, content);
      FirstMoved(notes[0], hash, before, path, content);
      hide Moved, SourceOf, TellsApart, SeenOf;
      var others := Sources(notes[1..], hash, before);
      if SourceOf(notes[0], hash, before).Some? {
        var source := SourceOf(notes[0], hash, before).value;
        assert Sources(notes, hash, before) == [source] + others;
        FirstChange(source, others, hash, Edited(before, path, content), path);
      } else {
        assert Sources(notes, hash, before) == others;
      }
    }
  }

  lemma FirstChange(source: Source, others: seq<Source>, hash: Hash, world: World, path: Path)
    requires Moved(source, hash, world) ==> source.path == path
    requires OnlyOf(ChangedAmong(others, hash, world), path)
    ensures OnlyOf(ChangedAmong([source] + others, hash, world), path)
  {
    hide Moved;
    assert ([source] + others)[1..] == others;
  }

  lemma FirstMoved(note: Note, hash: Hash, before: World, path: Path, content: seq<byte>)
    requires note.seen == SeenOf(before(note.path), hash) && TellsApart(hash)
    ensures var source := SourceOf(note, hash, before);
      source.Some? && Moved(source.value, hash, Edited(before, path, content)) ==> source.value.path == path
  {}

  /** An edit behind the cursor of the file being read leaves the checkpoint one that may be reused. */
  lemma EditReused<S(!new)>(e: Engine<S>, before: World, hash: Hash, n: nat, total: nat, at: Checkpoint, content: seq<byte>)
    requires TellsApart(hash) && TakenAt(e, before, hash, n, total, at)
    requires at.cursor <= |content| && content[..at.cursor] == before(at.reading).value[..at.cursor]
    ensures Reused(e, before, Edited(before, at.reading, content), hash, n, total, at)
  {
    hide AllNoted, Sources, ChangedAmong, TellsApart, After, SeenOf;
    var log := After(e, before, hash, total).log;
    RunLogTrue(e, before, hash, total);
    LogNotesTrue(log, hash, before);
    OnlyEdited(AllNoted(log), hash, before, at.reading, content);
    var now := Edited(before, at.reading, content);
    assert PrefixIntact(at, hash, now);
    var all := ChangedAmong(Sources(AllNoted(log), hash, before), hash, now);
    assert forall i :: 0 <= i < |all| ==> Untouched(all[i], at, hash, now);
    assert Reusable(at, all, hash, now);
  }

  /** Where that edit makes another line of one the run took, the run would be answered otherwise. */
  lemma EditAnswered<S(!new)>(e: Engine<S>, before: World, hash: Hash, n: nat, path: Path, content: seq<byte>, k: nat)
    requires k < n && TakesLine(e, After(e, before, hash, k), path) && before(path).Some?
    requires var from := After(e, before, hash, k).offsets[path]; LineOf(content, from) != LineOf(before(path).value, from)
    ensures !SameReplies(e, before, Edited(before, path, content), hash, n)
  {
    hide After, LineOf, SameReplies;
    var now := Edited(before, path, content);
    if SameReplies(e, before, now, hash, n) {
      RepliesAgree(e, before, now, hash, n, k);
      OneReply(e, before, now, hash, n, k);
      SameAnswered(e, before, now, hash, After(e, before, hash, k), After(e, now, hash, k));
    }
  }

  // ----- whatever the edit -----

  /** After every edit that leaves the checkpoint one that may be reused, and the last line read safely ended,
      a run is answered as the first one was. */
  ghost predicate AlwaysRight<S(!new)>(e: Engine<S>, before: World, hash: Hash, n: nat, total: nat, at: Checkpoint) {
    forall now: World :: Reused(e, before, now, hash, n, total, at) && Continues(at, before, now) ==> SameReplies(e, before, now, hash, n)
  }

  lemma AlwaysRightFor<S(!new)>(e: Engine<S>, before: World, now: World, hash: Hash, n: nat, total: nat, at: Checkpoint)
    requires AlwaysRight(e, before, hash, n, total, at) && Reused(e, before, now, hash, n, total, at) && Continues(at, before, now)
    ensures SameReplies(e, before, now, hash, n)
  {
    hide Reused, Continues, SameReplies;
  }

  /** The file cut at the cursor. */
  lemma CutContinues(content: seq<byte>, cursor: nat)
    requires cursor <= |content|
    ensures content[..cursor][..cursor] == content[..cursor] && (cursor > 0 ==> SafeEnd(content, content[..cursor], cursor))
  {}

  /** Where a line taken ends behind the cursor, cutting the file there changes it. */
  lemma CutTells(content: seq<byte>, from: nat, cursor: nat)
    requires cursor < LineOf(content, from).1 && from < |content| && cursor <= |content|
    ensures LineOf(content[..cursor], from) != LineOf(content, from)
  {
    if from < cursor { LineBound(content[..cursor], from); }
  }

  /** Where nothing follows a line that is ended, a byte added there is another line. */
  lemma AddedTells(content: seq<byte>)
    requires !EndsOpen(content)
    ensures var now := content + [97];
      && now[..|content|] == content[..|content|] && (content != [] ==> SafeEnd(content, now, |content|))
      && LineOf(now, |content|) != LineOf(content, |content|)
  {}

  lemma EndedAtEnd<S(!new)>(e: Engine<S>, world: World, hash: Hash, k: nat, path: Path) returns (earlier: nat)
    requires TakesLine(e, After(e, world, hash, k), path) && After(e, world, hash, k).offsets[path] > 0
    ensures earlier < k && TakesTo(e, world, After(e, world, hash, earlier), path, After(e, world, hash, k).offsets[path])
  {
    hide After, TakesTo;
    earlier := LineEndedThere(e, world, hash, k, path, After(e, world, hash, k).offsets[path]);
  }

  /** A run that has read further than the checkpoint stands is led astray by some edit. */
  lemma SomeEditMisleads<S(!new)>(e: Engine<S>, before: World, hash: Hash, n: nat, total: nat, at: Checkpoint, k: nat)
    requires TellsApart(hash) && TakenAt(e, before, hash, n, total, at) && AlwaysRight(e, before, hash, n, total, at)
    requires k < n && TakesLine(e, After(e, before, hash, k), at.reading)
    ensures Within(before(at.reading).value, After(e, before, hash, k).offsets[at.reading], at.cursor)
    decreases k
  {
    hide After, LineOf, TellsApart, AlwaysRight, Reused, SameReplies, SafeEnd;
    var content, from := before(at.reading).value, After(e, before, hash, k).offsets[at.reading];
    RunKeeps(e, before, hash, k);
    LineThere(content, from);
    if from < |content| {
      CutContinues(content, at.cursor);
      var now := Edited(before, at.reading, content[..at.cursor]);
      EditReused(e, before, hash, n, total, at, content[..at.cursor]);
      AlwaysRightFor(e, before, now, hash, n, total, at);
      if at.cursor < LineOf(content, from).1 {
        CutTells(content, from, at.cursor);
        EditAnswered(e, before, hash, n, at.reading, content[..at.cursor], k);
      }
    } else if at.cursor < |content| {
      var earlier := EndedAtEnd(e, before, hash, k, at.reading);
      SomeEditMisleads(e, before, hash, n, total, at, earlier);
    } else if !EndsOpen(content) {
      AddedTells(content);
      var now := Edited(before, at.reading, content + [97]);
      EditReused(e, before, hash, n, total, at, content + [97]);
      AlwaysRightFor(e, before, now, hash, n, total, at);
      EditAnswered(e, before, hash, n, at.reading, content + [97], k);
    }
  }

  /** A checkpoint is right to reuse whatever the edit exactly where the run had read no further in the file than
      the checkpoint stands: a file opened once has not been, a file opened again may have been. */
  lemma AlwaysRightExactly<S(!new)>(e: Engine<S>, before: World, hash: Hash, n: nat, total: nat, at: Checkpoint)
    requires TellsApart(hash) && TakenAt(e, before, hash, n, total, at)
    ensures AlwaysRight(e, before, hash, n, total, at) <==> ReadWithin(e, before, hash, n, at)
  {
    hide After, LineOf, TellsApart, Within, Reused, SameReplies, Continues;
    if AlwaysRight(e, before, hash, n, total, at) {
      forall k | 0 <= k < n && TakesLine(e, After(e, before, hash, k), at.reading) && before(at.reading).Some?
        ensures Within(before(at.reading).value, After(e, before, hash, k).offsets[at.reading], at.cursor)
      {
        SomeEditMisleads(e, before, hash, n, total, at, k);
      }
    }
    if ReadWithin(e, before, hash, n, at) {
      hide ReadWithin;
      forall now: World | Reused(e, before, now, hash, n, total, at) && Continues(at, before, now)
        ensures SameReplies(e, before, now, hash, n)
      {
        SameAnswersExactly(e, before, now, hash, n, total, at);
      }
    }
  }

  // ----- a file opened twice -----

  /** Opens a file and takes two lines of it, opens it again and takes one, and ships pages. */
  function TwiceEngine(path: Path): Engine<int> {
    Engine(0, (s: int) => if s == 0 || s == 3 then Open(path) else if 0 < s < 5 then Line(path) else Ship, (s: int, a: Answer) => s + 1)
  }

  lemma TwoLines(second: byte)
    requires second != 10 && second != 13
    ensures var content := [97, 10, second, 10];
      LineOf(content, 0) == (Some([97]), 2) && LineOf(content, 2) == (Some([second]), 4)
  {
    var content := [97, 10, second, 10];
    EndIs(content, 0, 1);
    EndIs(content, 2, 3);
    assert content[0..1] == [97] && content[2..3] == [second];
  }

  lemma TwiceRun(path: Path, second: byte, hash: Hash)
    requires second != 10 && second != 13
    ensures var content := [97, 10, second, 10];
      var e, world, opening := TwiceEngine(path), OneFileWorld(path, content), Opening(0, Hashed(hash(content)), path);
      && After(e, world, hash, 2) == Run(2, map[path := 2], 0, [opening])
      && After(e, world, hash, 5) == Run(5, map[path := 2], 0, [opening, opening])
      && ReplyAt(e, world, hash, 2) == Taken(Some([second]), 4)
  {
    hide LineOf;
    var e, world := TwiceEngine(path), OneFileWorld(path, [97, 10, second, 10]);
    TwoLines(second);
    AfterStep(e, world, hash, 0);
    AfterStep(e, world, hash, 1);
    AfterStep(e, world, hash, 2);
    AfterStep(e, world, hash, 3);
    AfterStep(e, world, hash, 4);
    assert After(e, world, hash, 0) == Run(0, map[], 0, []);
    hide After;
  }

  lemma TwiceChange(path: Path, hash: Hash, before: seq<byte>, now: seq<byte>)
    requires hash(before) != ABSENT && hash(before) != hash(now)
    ensures var opening := Opening(0, Hashed(hash(before)), path);
      ChangedAmong(Sources(AllNoted([opening, opening]), hash, OneFileWorld(path, before)), hash, OneFileWorld(path, now))
      == [Changed(path, 0)]
  {
    var opening := Opening(0, Hashed(hash(before)), path);
    OneChange(path, hash, before, now);
    assert [opening, opening][..1] == [opening];
    assert AllNoted([opening]) == [Note(path, 0, Hashed(hash(before)))] by { assert [opening][..0] == [] && AllNoted([]) == []; }
    assert AllNoted([opening, opening]) == AllNoted([opening]);
  }

  /** A file read to its second line, opened again and read to its first: the checkpoint there is given for reuse
      after an edit of the second line, which the run had read and would now be answered otherwise. */
  method TwiceOpenedIsReused(path: Path, hash: Hash) returns (reuse: int)
    requires hash([97, 10, 98, 10]) != ABSENT && hash([97, 10, 98, 10]) != hash([97, 10, 99, 10])
    ensures reuse == 0
    ensures var e, before, now := TwiceEngine(path), OneFileWorld(path, [97, 10, 98, 10]), OneFileWorld(path, [97, 10, 99, 10]);
      var at := Checkpoint(0, 2, hash([97, 10]), path);
      && TakenAt(e, before, hash, 5, 5, at) && Continues(at, before, now)
      && Reusable(at, ChangedAmong(Sources(AllNoted(After(e, before, hash, 5).log), hash, before), hash, now), hash, now)
      && ReplyAt(e, before, hash, 2) == Taken(Some([98]), 4)
      && ReplyAt(e, now, hash, 2) == Taken(Some([99]), 4)
  {
    hide LineOf, After, AllNoted, Sources, ChangedAmong, ReplyAt;
    var old_: seq<byte>, new_: seq<byte> := [97, 10, 98, 10], [97, 10, 99, 10];
    TwiceRun(path, 98, hash);
    TwiceRun(path, 99, hash);
    TwiceChange(path, hash, old_, new_);
    assert old_[..2] == new_[..2] == [97, 10];
    var at, now := Checkpoint(0, 2, hash([97, 10]), path), OneFileWorld(path, new_);
    var opening := Opening(0, Hashed(hash(old_)), path);
    var notes := RecordSources([opening, opening]);
    var changed := ChangedFiles(Sources(notes, hash, OneFileWorld(path, old_)), hash, now, CHANGED_CAPACITY);
    assert changed == [Changed(path, 0)];
    assert Reusable(at, changed, hash, now);
    reuse := ReusePage([at], changed, hash, now);
    assert [at][0].page == 0;
  }
}
