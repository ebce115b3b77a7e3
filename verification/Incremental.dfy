/** The record a cold run leaves of what it read, and the checkpoint a later run may resume from. */
module Incremental {
  import opened Bytes
  import opened Mouth

  type Path = seq<byte>

  /** The files there are, by path. */
  type World = Path -> Option<seq<byte>>

  /** A hash of contents; which one does not matter. */
  type Hash = seq<byte> -> nat

  /** What stands in the record for a file that was looked for and was not there. */
  const ABSENT: nat := 0xFFFF_FFFF_FFFF_FFFF

  /** How many changed files are kept. */
  const CHANGED_CAPACITY: nat := 256

  // ----- the record -----

  /** A line of the log: the page a file was opened at and its content as it was then. */
  datatype Seen = Missing | Hashed(hash: nat) | Unhashed

  datatype Opening = Opening(page: int, seen: Seen, path: Path)

  datatype Note = Note(path: Path, page: int, seen: Seen)

  function NoteIndex(notes: seq<Note>, path: Path): (i: nat)
    ensures i <= |notes|
    ensures i < |notes| ==> notes[i].path == path
    ensures forall k :: 0 <= k < i ==> notes[k].path != path
  {
    if notes == [] || notes[0].path == path then 0 else 1 + NoteIndex(notes[1..], path)
  }

  /** A file's first reading is the one that counts, and the earliest page it was opened at. */
  function Noted(notes: seq<Note>, opening: Opening): seq<Note> {
    var i := NoteIndex(notes, opening.path);
    if i == |notes| then notes + [Note(opening.path, opening.page, opening.seen)]
    else if opening.page < notes[i].page then notes[i := notes[i].(page := opening.page)]
    else notes
  }

  function AllNoted(log: seq<Opening>): seq<Note> {
    if log == [] then [] else Noted(AllNoted(log[..|log| - 1]), log[|log| - 1])
  }

  /** parallel_record_sources, up to the files it leaves out by their names. */
  method RecordSources(log: seq<Opening>) returns (notes: seq<Note>)
    ensures notes == AllNoted(log)
  {
    notes := [];
    assert log[..0] == [];
    for n := 0 to |log|
      invariant notes == AllNoted(log[..n])
    {
      assert log[..n + 1][..n] == log[..n];
      var opening := log[n];
      var index: nat := 0;
      while index < |notes| && notes[index].path != opening.path
        invariant index <= |notes| && forall k :: 0 <= k < index ==> notes[k].path != opening.path
      {
        index := index + 1;
      }
      IndexFound(notes, opening.path, index);
      if index < |notes| {
        if opening.page < notes[index].page {
          notes := notes[index := notes[index].(page := opening.page)];
        }
      } else {
        notes := notes + [Note(opening.path, opening.page, opening.seen)];
      }
    }
    assert log[..|log|] == log;
  }

  lemma IndexFound(notes: seq<Note>, path: Path, index: nat)
    requires index <= |notes| && forall k :: 0 <= k < index ==> notes[k].path != path
    requires index < |notes| ==> notes[index].path == path
    ensures NoteIndex(notes, path) == index
  {}

  /** A line of the record that is kept. */
  datatype Source = Source(page: int, hash: nat, path: Path)

  function SourceOf(note: Note, hash: Hash, world: World): Option<Source> {
    match note.seen
    case Missing => Some(Source(note.page, ABSENT, note.path))
    case Hashed(h) => Some(Source(note.page, h, note.path))
    case Unhashed =>
      match world(note.path)
      case None => None
      case Some(content) => Some(Source(note.page, hash(content), note.path))
  }

  /** The record as it is written: a file never hashed is hashed now, or left out where it cannot be read. */
  function Sources(notes: seq<Note>, hash: Hash, world: World): seq<Source> {
    if notes == [] then []
    else
      match SourceOf(notes[0], hash, world)
      case None => Sources(notes[1..], hash, world)
      case Some(source) => [source] + Sources(notes[1..], hash, world)
  }

  /** The note of a file that was opened: at no later a page, and, if that was its first opening, with what
      it was then. */
  predicate NoteOf(note: Note, opening: Opening, first: bool) {
    note.path == opening.path && note.page <= opening.page && (first ==> note.seen == opening.seen)
  }

  predicate FirstOpening(log: seq<Opening>, n: nat)
    requires n < |log|
  {
    forall m :: 0 <= m < n ==> log[m].path != log[n].path
  }

  /** Every file opened has its note. */
  lemma {:induction false} NotesHold(log: seq<Opening>, n: nat) returns (k: nat)
    requires n < |log|
    ensures k < |AllNoted(log)| && NoteOf(AllNoted(log)[k], log[n], FirstOpening(log, n))
    decreases |log|
  {
    var front, last := log[..|log| - 1], log[|log| - 1];
    var before := AllNoted(front);
    if n < |front| {
      k := NotesHold(front, n);
      assert FirstOpening(log, n) ==> FirstOpening(front, n) by { assert forall m :: 0 <= m < n ==> front[m] == log[m]; }
    } else {
      k := NoteIndex(before, last.path);
      if FirstOpening(log, n) { NotNoted(front, last.path); }
    }
  }

  lemma {:induction false} NotNoted(log: seq<Opening>, path: Path)
    requires forall m :: 0 <= m < |log| ==> log[m].path != path
    ensures forall k :: 0 <= k < |AllNoted(log)| ==> AllNoted(log)[k].path != path
  {
    if log != [] {
      NotNoted(log[..|log| - 1], path);
    }
  }

  // ----- what has changed -----

  /** The file is not what the record says it was when it was first opened. */
  predicate Moved(source: Source, hash: Hash, world: World) {
    if source.hash == ABSENT then world(source.path).Some?
    else world(source.path).None? || hash(world(source.path).value) != source.hash
  }

  datatype Changed = Changed(path: Path, firstPage: int)

  function ChangedAmong(record: seq<Source>, hash: Hash, world: World): seq<Changed> {
    if record == [] then []
    else
      var others := ChangedAmong(record[1..], hash, world);
      if Moved(record[0], hash, world) then [Changed(record[0].path, record[0].page)] + others else others
  }

  /** parallel_changed_files: those that moved, in the order of the record, as far as there is room. */
  method ChangedFiles(record: seq<Source>, hash: Hash, world: World, capacity: nat) returns (changed: seq<Changed>)
    ensures changed == ChangedAmong(record, hash, world)[..Min(capacity, |ChangedAmong(record, hash, world)|)]
  {
    hide Moved;
    changed := [];
    var rest := record;
    ghost var all := ChangedAmong(record, hash, world);
    while rest != [] && |changed| < capacity
      invariant |changed| <= capacity && changed + ChangedAmong(rest, hash, world) == all
      decreases |rest|
    {
      if Moved(rest[0], hash, world) {
        Assoc(changed, [Changed(rest[0].path, rest[0].page)], ChangedAmong(rest[1..], hash, world));
        changed := changed + [Changed(rest[0].path, rest[0].page)];
      }
      rest := rest[1..];
    }
    assert changed == all[..|changed|];
  }

  lemma {:induction false} MovedIsChanged(record: seq<Source>, hash: Hash, world: World, k: nat)
    requires k < |record| && Moved(record[k], hash, world)
    ensures Changed(record[k].path, record[k].page) in ChangedAmong(record, hash, world)
  {
    hide Moved;
    if k > 0 { MovedIsChanged(record[1..], hash, world, k - 1); }
  }

  // ----- which checkpoint to resume -----

  /** What stands beside a checkpoint: the file being read, how far, and a hash of that much of it. */
  datatype Checkpoint = Checkpoint(page: int, cursor: nat, prefixHash: nat, reading: Path)

  /** The file still begins with what the checkpoint had read of it. */
  predicate PrefixIntact(at: Checkpoint, hash: Hash, world: World) {
    match world(at.reading)
    case None => false
    case Some(content) => at.cursor <= |content| && hash(content[..at.cursor]) == at.prefixHash
  }

  predicate Untouched(edit: Changed, at: Checkpoint, hash: Hash, world: World) {
    edit.firstPage > at.page || (edit.path == at.reading && PrefixIntact(at, hash, world))
  }

  predicate Reusable(at: Checkpoint, changed: seq<Changed>, hash: Hash, world: World) {
    forall i :: 0 <= i < |changed| ==> Untouched(changed[i], at, hash, world)
  }

  /** parallel_incremental_reuse_page: None for a cold rebuild. */
  method ReusePage(positions: seq<Checkpoint>, changed: seq<Changed>, hash: Hash, world: World) returns (reuse: int)
    ensures reuse >= -1 && (changed == [] ==> reuse == -1)
    ensures reuse != -1 ==> exists k :: 0 <= k < |positions| && positions[k].page == reuse && Reusable(positions[k], changed, hash, world)
    ensures changed != [] ==> forall k :: 0 <= k < |positions| && Reusable(positions[k], changed, hash, world) ==> positions[k].page <= reuse || positions[k].page < 0
  {
    hide Untouched;
    reuse := -1;
    if changed == [] {
      return;
    }
    for n := 0 to |positions|
      invariant reuse >= -1
      invariant reuse != -1 ==> exists k :: 0 <= k < n && positions[k].page == reuse && Reusable(positions[k], changed, hash, world)
      invariant forall k :: 0 <= k < n && Reusable(positions[k], changed, hash, world) ==> positions[k].page <= reuse || positions[k].page < 0
    {
      var at := positions[n];
      if at.page > reuse {
        var reusable := IsReusable(at, changed, hash, world);
        if reusable {
          reuse := at.page;
        }
      }
    }
  }

  method IsReusable(at: Checkpoint, changed: seq<Changed>, hash: Hash, world: World) returns (reusable: bool)
    ensures reusable == Reusable(at, changed, hash, world)
  {
    for index := 0 to |changed|
      invariant forall i :: 0 <= i < index ==> Untouched(changed[i], at, hash, world)
    {
      var edit := changed[index];
      if edit.firstPage > at.page {
        continue;
      }
      if edit.path == at.reading {
        if !PrefixIntact(at, hash, world) {
          return false;
        }
      } else {
        return false;
      }
    }
    reusable := true;
  }

  // ----- the changes there is room for -----

  /** The log of one run: page after page. */
  predicate Ascending(log: seq<Opening>) {
    forall i, j :: 0 <= i < j < |log| ==> log[i].page <= log[j].page
  }

  /** One for each file, page after page. */
  predicate NotesOrdered(notes: seq<Note>) {
    forall i, j :: 0 <= i < j < |notes| ==> notes[i].page <= notes[j].page && notes[i].path != notes[j].path
  }

  predicate SourcesOrdered(record: seq<Source>) {
    forall i, j :: 0 <= i < j < |record| ==> record[i].page <= record[j].page && record[i].path != record[j].path
  }

  predicate ChangesOrdered(changed: seq<Changed>) {
    forall i, j :: 0 <= i < j < |changed| ==> changed[i].firstPage <= changed[j].firstPage && changed[i].path != changed[j].path
  }

  lemma {:induction false} LogNotesOrdered(log: seq<Opening>)
    requires Ascending(log)
    ensures NotesOrdered(AllNoted(log))
    ensures forall i :: 0 <= i < |AllNoted(log)| ==> log != [] && AllNoted(log)[i].page <= log[|log| - 1].page
    decreases |log|
  {
    if log != [] {
      var front := log[..|log| - 1];
      LogNotesOrdered(front);
      if front != [] { assert front[|front| - 1].page <= log[|log| - 1].page; }
    }
  }

  lemma {:induction false} RecordOrdered(notes: seq<Note>, hash: Hash, world: World)
    requires NotesOrdered(notes)
    ensures SourcesOrdered(Sources(notes, hash, world))
    ensures forall i :: 0 <= i < |Sources(notes, hash, world)| ==> SourceNoted(notes, Sources(notes, hash, world)[i])
  {
    if notes != [] {
      assert NotesOrdered(notes[1..]);
      RecordOrdered(notes[1..], hash, world);
      SourcesBehind(notes, hash, world);
    }
  }

  predicate SourceNoted(notes: seq<Note>, source: Source) {
    exists k :: 0 <= k < |notes| && notes[k].page == source.page && notes[k].path == source.path
  }

  lemma {:induction false} SourcesBehind(notes: seq<Note>, hash: Hash, world: World)
    requires notes != [] && NotesOrdered(notes) && SourcesOrdered(Sources(notes[1..], hash, world))
    requires forall i :: 0 <= i < |Sources(notes[1..], hash, world)| ==> SourceNoted(notes[1..], Sources(notes[1..], hash, world)[i])
    ensures SourcesOrdered(Sources(notes, hash, world))
    ensures forall i :: 0 <= i < |Sources(notes, hash, world)| ==> SourceNoted(notes, Sources(notes, hash, world)[i])
  {
    var others := Sources(notes[1..], hash, world);
    forall i | 0 <= i < |others|
      ensures SourceNoted(notes, others[i]) && notes[0].page <= others[i].page && notes[0].path != others[i].path
    {
      assert SourceNoted(notes[1..], others[i]);
      var k :| 0 <= k < |notes[1..]| && notes[1..][k].page == others[i].page && notes[1..][k].path == others[i].path;
      assert notes[k + 1] == notes[1..][k];
    }
    if SourceOf(notes[0], hash, world).Some? {
      assert Sources(notes, hash, world) == [SourceOf(notes[0], hash, world).value] + others;
      assert SourceNoted(notes, Sources(notes, hash, world)[0]) by { assert notes[0].page == Sources(notes, hash, world)[0].page; }
    } else {
      assert Sources(notes, hash, world) == others;
    }
  }

  predicate ChangeRecorded(record: seq<Source>, edit: Changed) {
    exists k :: 0 <= k < |record| && record[k].page == edit.firstPage && record[k].path == edit.path
  }

  lemma {:induction false} ChangedOrdered(record: seq<Source>, hash: Hash, world: World)
    requires SourcesOrdered(record)
    ensures ChangesOrdered(ChangedAmong(record, hash, world))
    ensures forall i :: 0 <= i < |ChangedAmong(record, hash, world)| ==> ChangeRecorded(record, ChangedAmong(record, hash, world)[i])
  {
    hide Moved;
    if record != [] {
      ChangedOrdered(record[1..], hash, world);
      ChangesBehind(record, hash, world);
    }
  }

  lemma {:induction false} ChangesBehind(record: seq<Source>, hash: Hash, world: World)
    requires record != [] && SourcesOrdered(record) && ChangesOrdered(ChangedAmong(record[1..], hash, world))
    requires forall i :: 0 <= i < |ChangedAmong(record[1..], hash, world)| ==>
      ChangeRecorded(record[1..], ChangedAmong(record[1..], hash, world)[i])
    ensures ChangesOrdered(ChangedAmong(record, hash, world))
    ensures forall i :: 0 <= i < |ChangedAmong(record, hash, world)| ==> ChangeRecorded(record, ChangedAmong(record, hash, world)[i])
  {
    hide Moved;
    var others := ChangedAmong(record[1..], hash, world);
    forall i | 0 <= i < |others|
      ensures ChangeRecorded(record, others[i]) && record[0].page <= others[i].firstPage && record[0].path != others[i].path
    {
      assert ChangeRecorded(record[1..], others[i]);
      var k :| 0 <= k < |record[1..]| && record[1..][k].page == others[i].firstPage && record[1..][k].path == others[i].path;
      assert record[k + 1] == record[1..][k];
    }
    if Moved(record[0], hash, world) {
      var first := Changed(record[0].path, record[0].page);
      assert ChangedAmong(record, hash, world) == [first] + others;
      assert ChangeRecorded(record, first) by { assert record[0].page == first.firstPage; }
    } else {
      assert ChangedAmong(record, hash, world) == others;
    }
  }

  /** Of changes page after page, two tell: only one can be the file being read, and behind the other every
      page is later still. */
  lemma TwoTell(changed: seq<Changed>, room: nat, at: Checkpoint, hash: Hash, world: World)
    requires ChangesOrdered(changed) && room >= 2
    ensures Reusable(at, changed[..Min(room, |changed|)], hash, world) <==> Reusable(at, changed, hash, world)
  {
    hide PrefixIntact;
    var kept := changed[..Min(room, |changed|)];
    if Reusable(at, kept, hash, world) && |changed| > room {
      assert Untouched(kept[0], at, hash, world) && Untouched(kept[1], at, hash, world);
      forall i | 0 <= i < |changed|
        ensures Untouched(changed[i], at, hash, world)
      {
        if i < room { assert Untouched(kept[i], at, hash, world); }
      }
    }
    if Reusable(at, changed, hash, world) {
      assert forall i :: 0 <= i < |kept| ==> kept[i] == changed[i];
    }
  }

  /** The changes there is room for decide of the record of a run as all of them would. */
  lemma KeptAreEnough(log: seq<Opening>, hash: Hash, before: World, now: World, at: Checkpoint)
    requires Ascending(log)
    ensures var all := ChangedAmong(Sources(AllNoted(log), hash, before), hash, now);
      Reusable(at, all[..Min(CHANGED_CAPACITY, |all|)], hash, now) <==> Reusable(at, all, hash, now)
  {
    hide AllNoted, Sources, ChangedAmong, Reusable, NotesOrdered, SourcesOrdered, ChangesOrdered;
    LogNotesOrdered(log);
    RecordOrdered(AllNoted(log), hash, before);
    ChangedOrdered(Sources(AllNoted(log), hash, before), hash, now);
    TwoTell(ChangedAmong(Sources(AllNoted(log), hash, before), hash, now), CHANGED_CAPACITY, at, hash, now);
  }
}
