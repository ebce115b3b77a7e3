/** The filename index: every file the trees' lists hold, found by name through a ring of slots. A name
    may be held many times. */
module FileDb {
  import opened Bytes
  import opened Fnv
  import opened OpenIndex
  import opened Words

  const INITIAL_SLOTS: nat := 32768

  /** A file as its list gives it: its whole path, its last component and the place it stands in. */
  datatype Held = Held(path: seq<byte>, name: seq<byte>, place: nat)

  // ----- places and kinds -----

  const NOWHERE: nat := 0
  const TEX: nat := 1

  function Places(): seq<(seq<byte>, nat)> {
    [(Ascii("tex/"), TEX), (Ascii("fonts/tfm/"), 2), (Ascii("fonts/vf/"), 3), (Ascii("fonts/type1/"), 4),
     (Ascii("fonts/afm/"), 5), (Ascii("fonts/enc/"), 6), (Ascii("fonts/map/"), 7)]
  }

  function Kinds(): seq<(seq<byte>, nat)> {
    [(Ascii(".tfm"), 2), (Ascii(".vf"), 3), (Ascii(".pfb"), 4), (Ascii(".afm"), 5), (Ascii(".enc"), 6), (Ascii(".map"), 7),
     (Ascii(".tex"), TEX), (Ascii(".sty"), TEX), (Ascii(".cls"), TEX), (Ascii(".clo"), TEX), (Ascii(".def"), TEX),
     (Ascii(".cfg"), TEX), (Ascii(".fd"), TEX), (Ascii(".ltx"), TEX), (Ascii(".dfu"), TEX)]
  }

  /** The directory is the place's own or lies under it. */
  predicate InPlace(directory: seq<byte>, under: seq<byte>) {
    under <= directory || (under != [] && directory == under[..|under| - 1])
  }

  function PlaceAmong(directory: seq<byte>, places: seq<(seq<byte>, nat)>): nat {
    if places == [] then NOWHERE
    else if InPlace(directory, places[0].0) then places[0].1
    else PlaceAmong(directory, places[1..])
  }

  /** place_of. */
  function PlaceOf(directory: seq<byte>): (place: nat)
    ensures place < 9
  {
    PlaceAmongBound(directory, Places());
    PlaceAmong(directory, Places())
  }

  lemma {:induction false} PlaceAmongBound(directory: seq<byte>, places: seq<(seq<byte>, nat)>)
    requires forall i :: 0 <= i < |places| ==> places[i].1 < 9
    ensures PlaceAmong(directory, places) < 9
  {
    hide InPlace;
    if places != [] { PlaceAmongBound(directory, places[1..]); }
  }

  /** From the last dot on; empty where there is none. */
  function Suffix(name: seq<byte>): seq<byte> {
    if name == [] then []
    else if Suffix(name[1..]) != [] then Suffix(name[1..])
    else if name[0] == '.' as int then name
    else []
  }

  function KindAmong(suffix: seq<byte>, kinds: seq<(seq<byte>, nat)>): Option<nat> {
    if kinds == [] then None
    else if suffix == kinds[0].0 then Some(kinds[0].1)
    else KindAmong(suffix, kinds[1..])
  }

  /** kind_is_searched: whether a file in that place is what a name of this kind is looked for as. */
  predicate KindIsSearched(name: seq<byte>, place: nat) {
    if Suffix(name) == [] then place == TEX
    else KindAmong(Suffix(name), Kinds()) == Some(place)
  }

  // ----- what the index is asked -----

  /** A name, and either the place searched for its kind or a directory it must lie under. */
  datatype Query = Searched(name: seq<byte>) | Below(name: seq<byte>, directory: seq<byte>)

  predicate Meets(file: Held, query: Query) {
    && file.name == query.name
    && match query
       case Searched(name) => KindIsSearched(name, file.place)
       case Below(_, directory) => directory + ['/' as int] <= file.path
  }

  /** The files that meet the query, in the order they were listed. */
  function Answers(held: seq<Held>, query: Query): seq<Held> {
    if held == [] then []
    else
      var file := held[|held| - 1];
      Answers(held[..|held| - 1], query) + if Meets(file, query) then [file] else []
  }

  lemma {:induction false} AnswersGrow(held: seq<Held>, query: Query, m: nat)
    requires m <= |held|
    ensures Answers(held[..m], query) <= Answers(held, query)
  {
    if m == |held| {
      assert held[..m] == held;
    } else {
      AnswersGrow(held[..|held| - 1], query, m);
      assert held[..|held| - 1][..m] == held[..m];
    }
  }

  /** Files that do not meet the query add nothing. */
  lemma {:induction false} NoAnswers(held: seq<Held>, query: Query, m: nat, n: nat)
    requires m <= n <= |held|
    requires forall i :: m <= i < n ==> !Meets(held[i], query)
    ensures Answers(held[..n], query) == Answers(held[..m], query)
    decreases n
  {
    if m < n {
      NoAnswers(held, query, m, n - 1);
      assert held[..n][..n - 1] == held[..n - 1];
      assert held[..n][n - 1] == held[n - 1];
    }
  }

  lemma OneAnswer(held: seq<Held>, query: Query, i: nat)
    requires i < |held| && Meets(held[i], query)
    ensures Answers(held[..i + 1], query) == Answers(held[..i], query) + [held[i]]
  {
    assert held[..i + 1][..i] == held[..i];
  }

  // ----- what a walk has met -----

  function NameHash(name: seq<byte>): nat { MixedFrom(BASIS, name) }

  function Hashes(held: seq<Held>): (hashes: seq<nat>)
    ensures |hashes| == |held|
    ensures forall i :: 0 <= i < |held| ==> hashes[i] == NameHash(held[i].name)
  {
    seq(|held|, i requires 0 <= i < |held| => NameHash(held[i].name))
  }

  ghost predicate Ring(slots: seq<nat>, held: seq<Held>, steps: seq<nat>) {
    Chained(slots, Hashes(held), steps)
  }

  /** After k steps the walk has met exactly the answers among the first m files. */
  ghost predicate Met(held: seq<Held>, steps: seq<nat>, query: Query, k: nat, m: nat) {
    && m <= |held| == |steps|
    && (forall i :: 0 <= i < m && Meets(held[i], query) ==> steps[i] < k)
    && (forall i :: m <= i < |held| && Meets(held[i], query) ==> steps[i] >= k)
  }

  lemma WalkStart(held: seq<Held>, slots: seq<nat>, steps: seq<nat>, query: Query)
    requires Ring(slots, held, steps)
    ensures Met(held, steps, query, 0, 0)
  {
    hide Meets;
  }

  lemma WalkOn(held: seq<Held>, slots: seq<nat>, steps: seq<nat>, query: Query, k: nat, m: nat) returns (next: nat)
    requires Ring(slots, held, steps) && Met(held, steps, query, k, m) && k < |slots|
    requires var id := slots[Step(Home(NameHash(query.name), |slots|), k, |slots|)]; id != 0
    ensures var id := slots[Step(Home(NameHash(query.name), |slots|), k, |slots|)];
      && id <= |held|
      && Met(held, steps, query, k + 1, next)
      && Answers(held[..next], query) == Answers(held[..m], query) + if Meets(held[id - 1], query) then [held[id - 1]] else []
  {
    hide Home, Step, NameHash, Meets, Chained, Answers;
    var home := Home(NameHash(query.name), |slots|);
    var i: int := slots[Step(home, k, |slots|)] - 1;
    HeldAt(held, slots, steps, Step(home, k, |slots|));
    if Meets(held[i], query) {
      AnswerAt(held, slots, steps, query, k, m, i);
      NoAnswers(held, query, m, i);
      OneAnswer(held, query, i);
      return i + 1;
    }
    forall j | m <= j < |held| && Meets(held[j], query)
      ensures steps[j] != k
    {
      PlaceOfAnswer(held, slots, steps, query, j);
    }
    next := m;
  }

  lemma HeldAt(held: seq<Held>, slots: seq<nat>, steps: seq<nat>, s: nat)
    requires Ring(slots, held, steps) && s < |slots| && slots[s] != 0
    ensures slots[s] <= |held|
  {
    assert Holder(slots, Hashes(held), steps, s);
  }

  lemma PlaceOfAnswer(held: seq<Held>, slots: seq<nat>, steps: seq<nat>, query: Query, i: nat)
    requires Ring(slots, held, steps) && i < |held| && Meets(held[i], query)
    ensures i < |steps| && steps[i] < |slots|
    ensures slots[Step(Home(NameHash(query.name), |slots|), steps[i], |slots|)] == i + 1
  {
    hide Home, Step, NameHash;
    assert Placed(slots, Hashes(held)[i], i, steps[i]);
  }

  lemma AnswerAt(held: seq<Held>, slots: seq<nat>, steps: seq<nat>, query: Query, k: nat, m: nat, i: nat)
    requires Ring(slots, held, steps) && Met(held, steps, query, k, m) && k < |slots|
    requires slots[Step(Home(NameHash(query.name), |slots|), k, |slots|)] == i + 1
    requires i < |held| && Meets(held[i], query)
    ensures m <= i && Met(held, steps, query, k + 1, i + 1)
    ensures forall j :: m <= j < i ==> !Meets(held[j], query)
  {
    hide Home, Step, NameHash, Chained;
    PlaceOfAnswer(held, slots, steps, query, i);
    OnePlace(slots, Hashes(held), steps, Home(NameHash(query.name), |slots|), k, steps[i]);
    forall j | 0 <= j < |held| && j != i && Meets(held[j], query)
      ensures j < i ==> steps[j] < k
      ensures j > i ==> steps[j] > k
    {
      if j < i { InOrder(slots, Hashes(held), steps, j, i); } else { InOrder(slots, Hashes(held), steps, i, j); }
    }
  }

  /** At the first empty slot every answer has been met. */
  lemma WalkEnd(held: seq<Held>, slots: seq<nat>, steps: seq<nat>, query: Query, k: nat, m: nat)
    requires Ring(slots, held, steps) && Met(held, steps, query, k, m)
    requires FirstEmpty(slots, Home(NameHash(query.name), |slots|), k)
    ensures Answers(held[..m], query) == Answers(held, query)
  {
    hide Home, Step, NameHash, Chained, Answers;
    forall i | m <= i < |held|
      ensures !Meets(held[i], query)
    {
      if Meets(held[i], query) { Reached(slots, Hashes(held), steps, i, k); }
    }
    NoAnswers(held, query, m, |held|);
    assert held[..|held|] == held;
  }

  // ----- the bytes behind an entry -----

  predicate NoZero(s: seq<byte>) {
    forall i :: 0 <= i < |s| ==> s[i] != 0
  }

  /** What a C string holds: everything before its first zero. */
  function CString(s: seq<byte>): (text: seq<byte>)
    ensures text <= s && NoZero(text)
    ensures |text| < |s| ==> s[|text|] == 0
  {
    if s == [] || s[0] == 0 then [] else [s[0]] + CString(s[1..])
  }

  datatype Entry = Entry(path: nat, name: nat, nameLength: nat, place: nat)

  predicate Holds(entry: Entry, bytes: seq<byte>, file: Held) {
    && file.name != [] && entry.nameLength == |file.name| && Stands(file.name, bytes, entry.name)
    && NoZero(file.path) && Stands(file.path + [0], bytes, entry.path)
    && entry.place == file.place < 9
  }

  predicate AllHeld(entries: seq<Entry>, bytes: seq<byte>, held: seq<Held>) {
    && |entries| == |held|
    && forall i :: 0 <= i < |held| ==> Holds(entries[i], bytes, held[i])
  }

  /** The path add_entry puts together. */
  function JoinedPath(tree: seq<byte>, directory: seq<byte>, name: seq<byte>): (path: seq<byte>)
    ensures |path| > |name|
  {
    tree + (if directory != [] then ['/' as int] + directory else []) + ['/' as int] + name
  }

  function NewFile(tree: seq<byte>, directory: seq<byte>, name: seq<byte>): Held {
    Held(CString(JoinedPath(tree, directory, name)), name, PlaceOf(directory))
  }

  lemma PathBegins(bytes: seq<byte>, at: nat, path: seq<byte>, s: seq<byte>)
    requires NoZero(s) && Stands(path + [0], bytes, at)
    ensures Stands(s, bytes, at) <==> s <= path
  {
    var text := path + [0];
    if Stands(s, bytes, at) {
      assert text[|path|] == bytes[at + |path|];
      assert forall i :: 0 <= i < |s| ==> s[i] == bytes[at + i];
      assert bytes[at..at + |text|][..|s|] == bytes[at..at + |s|];
      assert s == text[..|s|] == path[..|s|];
    }
    if s <= path {
      Within(bytes, at, path, s);
    }
  }

  lemma Within(bytes: seq<byte>, at: nat, path: seq<byte>, s: seq<byte>)
    requires s <= path && Stands(path + [0], bytes, at)
    ensures Stands(s, bytes, at)
  {
    assert bytes[at..at + |s|] == bytes[at..at + |path| + 1][..|s|];
  }

  lemma StillHeld(entries: seq<Entry>, bytes: seq<byte>, held: seq<Held>, more: seq<byte>, entry: Entry, file: Held)
    requires AllHeld(entries, bytes, held) && Holds(entry, bytes + more, file)
    ensures AllHeld(entries + [entry], bytes + more, held + [file])
  {
    hide Stands, NoZero;
    forall i | 0 <= i < |held|
      ensures Holds(entries[i], bytes + more, held[i])
    {
      assert Holds(entries[i], bytes, held[i]);
      StillStands(held[i].name, bytes, entries[i].name, more);
      StillStands(held[i].path + [0], bytes, entries[i].path, more);
    }
  }

  lemma NewHeld(bytes: seq<byte>, tree: seq<byte>, directory: seq<byte>, name: seq<byte>)
    requires name != []
    ensures var path := JoinedPath(tree, directory, name);
      Holds(Entry(|bytes|, |bytes| + |path| - |name|, |name|, PlaceOf(directory)), bytes + (path + [0]), NewFile(tree, directory, name))
  {
    hide Stands, PlaceOf, CString;
    var path := JoinedPath(tree, directory, name);
    var text := CString(path);
    var before := path[..|path| - |name|];
    assert path == before + name;
    StandsAt(bytes, before, name, [0]);
    assert path + [0] == before + name + [0];
    var after := (path + [0])[|text| + 1..];
    assert path + [0] == [] + (text + [0]) + after;
    StandsAt(bytes, [], text + [0], after);
  }

  // ----- the index -----

  class FileDb {
    var entries: seq<Entry>
    var bytes: seq<byte>
    var slots: array<nat>

    /** The files listed so far, and where each stands in the ring. */
    ghost var held: seq<Held>
    ghost var steps: seq<nat>

    ghost predicate Valid()
      reads this, slots
    {
      && AllHeld(entries, bytes, held)
      && (slots.Length == 0 ==> held == [])
      && (slots.Length > 0 ==> Ring(slots[..], held, steps) && |held| <= slots.Length / 2 && PowerOfTwo(slots.Length))
    }

    constructor ()
      ensures Valid() && fresh(slots) && held == [] && slots.Length == 0
    {
      entries := [];
      bytes := [];
      slots := new nat[0](_ => 0);
      held := [];
      steps := [];
    }

    /** chain: the first empty slot at or behind the home of the name. */
    method Chain(id: nat, ghost entered: seq<Held>, ghost steps: seq<nat>) returns (ghost k: nat)
      requires AllHeld(entries, bytes, held) && id == |entered| + 1 <= |held| && entered == held[..|entered|]
      requires slots.Length > |entered| && Ring(slots[..], entered, steps)
      modifies slots
      ensures Ring(slots[..], held[..id], steps + [k])
    {
      hide Home, Step, NameHash, Chained, Holds;
      var entry := entries[id - 1];
      ghost var file := held[id - 1];
      NameOf(entry, bytes, file);
      var home := Home(NameHash(bytes[entry.name..entry.name + entry.nameLength]), slots.Length);
      ghost var ring := slots[..];
      ghost var empty := SomeEmpty(ring, Hashes(entered), steps);
      ghost var last := Distance(home, empty, slots.Length);
      var slot := home;
      k := 0;
      StepZero(home, slots.Length);
      while slots[slot] != 0
        invariant slots[..] == ring
        invariant k <= last < slots.Length && slot == Step(home, k, slots.Length)
        invariant forall j :: 0 <= j < k ==> ring[Step(home, j, |ring|)] != 0
        decreases last - k
      {
        StepOn(home, k, slots.Length);
        slot := if slot + 1 == slots.Length then 0 else slot + 1;
        k := k + 1;
      }
      Entered(ring, Hashes(entered), steps, NameHash(file.name), k);
      OneMoreHash(held, id - 1);
      slots[slot] := id;
    }

    /** reserve_slots_for: twice as many slots as names, everything chained again where there are not. */
    method ReserveSlots(wanted: nat)
      requires Valid()
      modifies this`slots, this`steps
      ensures Valid() && (slots == old(slots) || fresh(slots))
      ensures slots.Length > 0 && wanted <= slots.Length / 2
    {
      hide Home, Step, NameHash, Chained, Holds, PowerOfTwo;
      if slots.Length != 0 && wanted <= slots.Length / 2 {
        return;
      }
      InitialPowers();
      if slots.Length > 0 { Doubled(slots.Length); }
      var capacity := if slots.Length == 0 then INITIAL_SLOTS else slots.Length * 2;
      while wanted > capacity / 2
        invariant capacity > 0 && |held| <= capacity / 2 && PowerOfTwo(capacity)
        decreases wanted - capacity / 2
      {
        Doubled(capacity);
        capacity := capacity * 2;
      }
      slots := new nat[capacity](_ => 0);
      steps := [];
      assert slots[..] == seq(capacity, _ => 0);
      EmptyTable(capacity);
      assert Hashes([]) == [];
      for index := 0 to |entries|
        invariant fresh(slots) && slots.Length == capacity
        invariant AllHeld(entries, bytes, held) && Ring(slots[..], held[..index], steps)
      {
        ghost var k := Chain(index + 1, held[..index], steps);
        steps := steps + [k];
      }
      assert held[..|entries|] == held;
    }

    /** add_entry. */
    method AddEntry(tree: seq<byte>, directory: seq<byte>, name: seq<byte>) returns (added: bool)
      requires Valid()
      modifies this, slots
      ensures Valid() && (slots == old(slots) || fresh(slots))
      ensures added <==> 0 < |name| <= UINT32_MAX
      ensures held == old(held) + if added then [NewFile(tree, directory, name)] else []
    {
      hide Home, Step, NameHash, Chained, Holds, NewFile, JoinedPath;
      if |name| == 0 || |name| > UINT32_MAX {
        return false;
      }
      ReserveSlots(|entries| + 1);
      var path := JoinedPath(tree, directory, name);
      var entry := Entry(|bytes|, |bytes| + |path| - |name|, |name|, PlaceOf(directory));
      NewHeld(bytes, tree, directory, name);
      StillHeld(entries, bytes, held, path + [0], entry, NewFile(tree, directory, name));
      ghost var before := held;
      bytes := bytes + (path + [0]);
      entries := entries + [entry];
      held := held + [NewFile(tree, directory, name)];
      assert held[..|before|] == before && held[..|before| + 1] == held;
      ghost var k := Chain(|entries|, before, steps);
      steps := steps + [k];
      added := true;
    }

    /** hstex_file_db_lookup. `readable` says of a path whether a regular file stands there that can be
        read. */
    method Lookup(name: seq<byte>, readable: seq<byte> -> bool) returns (path: Option<seq<byte>>)
      requires Valid() && slots.Length > 0
      ensures var answers := Answers(held, Searched(name));
        path == if name != [] && '/' as int !in name && |answers| == 1 && readable(answers[0].path)
                then Some(answers[0].path) else None
    {
      hide Home, Step, NameHash, Chained, Holds, KindIsSearched, Answers, Meets, Ring, Met, Fits, CString;
      if name == [] || '/' as int in name {
        return None;
      }
      var query := Searched(name);
      ghost var ring, m: nat, k: nat := slots[..], 0, 0;
      var home := Home(NameHash(name), slots.Length);
      var slot := home;
      var found := None;
      ghost var last := WalkBegins(held, ring, steps, query);
      while slots[slot] != 0
        invariant Walking(held, ring, steps, query, k, m, last) && slot == Step(home, k, slots.Length)
        invariant m <= |held| && |Answers(held[..m], query)| <= 1
        invariant found == if Answers(held[..m], query) == [] then None else Some(Answers(held[..m], query)[0].path)
        decreases last - k
      {
        m := WalkSteps(held, ring, steps, query, k, m, last);
        var entry := entries[slots[slot] - 1];
        EntryAt(entries, bytes, held, query, slots[slot] - 1);
        if Fits(entry, bytes, query) {
          if found != None {
            AnswersGrow(held, query, m);
            return None;
          }
          found := Some(CString(bytes[entry.path..]));
        }
        StepOn(home, k, slots.Length);
        slot := if slot + 1 == slots.Length then 0 else slot + 1;
        k := k + 1;
      }
      WalkDone(held, ring, steps, query, k, m, last);
      path := if found.Some? && readable(found.value) then found else None;
    }

    /** held_under: how many files of the name lie under the directory, and the path of the last one. */
    method HeldUnder(name: seq<byte>, directory: seq<byte>) returns (count: nat, path: Option<seq<byte>>)
      requires Valid() && slots.Length > 0 && NoZero(directory)
      ensures var answers := Answers(held, Below(name, directory));
        && count == |answers|
        && path == if answers == [] then None else Some(answers[|answers| - 1].path)
    {
      hide Home, Step, NameHash, Chained, Holds, KindIsSearched, Answers, Meets, Ring, Met, Fits, CString;
      var query := Below(name, directory);
      ghost var ring, m: nat, k: nat := slots[..], 0, 0;
      var home := Home(NameHash(name), slots.Length);
      var slot := home;
      count, path := 0, None;
      ghost var last := WalkBegins(held, ring, steps, query);
      while slots[slot] != 0
        invariant Walking(held, ring, steps, query, k, m, last) && slot == Step(home, k, slots.Length)
        invariant m <= |held| && count == |Answers(held[..m], query)|
        invariant path == LastPath(Answers(held[..m], query))
        decreases last - k
      {
        m := WalkSteps(held, ring, steps, query, k, m, last);
        var entry := entries[slots[slot] - 1];
        EntryAt(entries, bytes, held, query, slots[slot] - 1);
        if Fits(entry, bytes, query) {
          count := count + 1;
          path := Some(CString(bytes[entry.path..]));
        }
        StepOn(home, k, slots.Length);
        slot := if slot + 1 == slots.Length then 0 else slot + 1;
        k := k + 1;
      }
      WalkDone(held, ring, steps, query, k, m, last);
    }
  }

  lemma PathOf(entry: Entry, bytes: seq<byte>, file: Held)
    requires Holds(entry, bytes, file)
    ensures entry.path < |bytes| && CString(bytes[entry.path..]) == file.path
  {
    var behind := bytes[entry.path..];
    assert behind[..|file.path| + 1] == file.path + [0];
    CStringIs(behind, file.path);
  }

  lemma {:induction false} CStringIs(s: seq<byte>, text: seq<byte>)
    requires text + [0] <= s && NoZero(text)
    ensures CString(s) == text
  {
    if text != [] {
      assert s[0] == (text + [0])[0] == text[0];
      assert text[1..] + [0] == (text + [0])[1..] <= s[1..];
      CStringIs(s[1..], text[1..]);
    }
  }

  /** The tests the two walks make of an entry. */
  predicate Fits(entry: Entry, bytes: seq<byte>, query: Query) {
    && entry.nameLength == |query.name| && Stands(query.name, bytes, entry.name)
    && match query
       case Searched(name) => KindIsSearched(name, entry.place)
       case Below(_, directory) => Stands(directory + ['/' as int], bytes, entry.path)
  }

  lemma FitsExactly(entry: Entry, bytes: seq<byte>, file: Held, query: Query)
    requires Holds(entry, bytes, file)
    requires query.Below? ==> NoZero(query.directory)
    ensures Fits(entry, bytes, query) <==> Meets(file, query)
  {
    hide KindIsSearched;
    if query.Below? {
      hide Stands;
      assert NoZero(query.directory + ['/' as int]);
      PathBegins(bytes, entry.path, file.path, query.directory + ['/' as int]);
    }
    if |file.name| == |query.name| { SameStands(bytes, entry.name, file.name, query.name); }
  }

  lemma SameStands(bytes: seq<byte>, at: nat, a: seq<byte>, b: seq<byte>)
    requires Stands(a, bytes, at) && |a| == |b|
    ensures Stands(b, bytes, at) <==> a == b
  {}

  lemma NameOf(entry: Entry, bytes: seq<byte>, file: Held)
    requires Holds(entry, bytes, file)
    ensures entry.name + entry.nameLength <= |bytes| && bytes[entry.name..entry.name + entry.nameLength] == file.name
  {}

  lemma OneMoreHash(held: seq<Held>, index: nat)
    requires index < |held|
    ensures Hashes(held[..index + 1]) == Hashes(held[..index]) + [NameHash(held[index].name)]
  {
    hide NameHash;
  }

  function LastPath(files: seq<Held>): Option<seq<byte>> {
    if files == [] then None else Some(files[|files| - 1].path)
  }

  /** A walk under way: k taken slots behind it, an empty one at most `last` steps from its start. */
  ghost predicate Walking(held: seq<Held>, ring: seq<nat>, steps: seq<nat>, query: Query, k: nat, m: nat, last: nat) {
    && Ring(ring, held, steps) && Met(held, steps, query, k, m)
    && k <= last < |ring|
    && ring[Step(Home(NameHash(query.name), |ring|), last, |ring|)] == 0
    && forall j :: 0 <= j < k ==> ring[Step(Home(NameHash(query.name), |ring|), j, |ring|)] != 0
  }

  lemma WalkBegins(held: seq<Held>, ring: seq<nat>, steps: seq<nat>, query: Query) returns (last: nat)
    requires Ring(ring, held, steps) && |held| < |ring|
    ensures Walking(held, ring, steps, query, 0, 0, last)
    ensures Step(Home(NameHash(query.name), |ring|), 0, |ring|) == Home(NameHash(query.name), |ring|)
    ensures Answers(held[..0], query) == []
  {
    hide Home, Step, NameHash, Chained, Meets;
    var empty := SomeEmpty(ring, Hashes(held), steps);
    last := Distance(Home(NameHash(query.name), |ring|), empty, |ring|);
    WalkStart(held, ring, steps, query);
    StepZero(Home(NameHash(query.name), |ring|), |ring|);
  }

  lemma WalkSteps(held: seq<Held>, ring: seq<nat>, steps: seq<nat>, query: Query, k: nat, m: nat, last: nat) returns (next: nat)
    requires Walking(held, ring, steps, query, k, m, last)
    requires k < |ring| && ring[Step(Home(NameHash(query.name), |ring|), k, |ring|)] != 0
    ensures Walking(held, ring, steps, query, k + 1, next, last) && k + 1 < |ring|
    ensures m <= |held| && next <= |held|
    ensures var id := ring[Step(Home(NameHash(query.name), |ring|), k, |ring|)];
      && id <= |held|
      && Answers(held[..next], query) == Answers(held[..m], query) + if Meets(held[id - 1], query) then [held[id - 1]] else []
  {
    hide Home, Step, NameHash, Ring, Meets, Answers;
    next := WalkOn(held, ring, steps, query, k, m);
  }

  lemma WalkDone(held: seq<Held>, ring: seq<nat>, steps: seq<nat>, query: Query, k: nat, m: nat, last: nat)
    requires Walking(held, ring, steps, query, k, m, last)
    requires k < |ring| && ring[Step(Home(NameHash(query.name), |ring|), k, |ring|)] == 0
    ensures m <= |held| && Answers(held[..m], query) == Answers(held, query)
  {
    hide Home, Step, NameHash, Ring, Meets, Answers;
    WalkEnd(held, ring, steps, query, k, m);
  }

  lemma EntryAt(entries: seq<Entry>, bytes: seq<byte>, held: seq<Held>, query: Query, i: nat)
    requires AllHeld(entries, bytes, held) && i < |held|
    requires query.Below? ==> NoZero(query.directory)
    ensures entries[i].path <= |bytes| && CString(bytes[entries[i].path..]) == held[i].path
    ensures Fits(entries[i], bytes, query) <==> Meets(held[i], query)
  {
    hide Holds, Fits, Meets, CString;
    assert Holds(entries[i], bytes, held[i]);
    PathOf(entries[i], bytes, held[i]);
    FitsExactly(entries[i], bytes, held[i], query);
  }
}
