/** The control-sequence table: names of two kinds, each with one identifier, counted from one. */
module Symbol {
  import opened Bytes
  import opened Fnv
  import opened OpenIndex

  datatype Kind = Regular | Active

  datatype Symbol = Symbol(kind: Kind, name: seq<byte>)

  const CS_ID_MAX: int := 0x1FFF_FFFF

  const INITIAL_SLOTS: nat := 1024

  // ----- what the table means -----

  datatype Interning = Identifier(id: nat) | Invalid | ArenaFull | Exhausted

  predicate Injective(names: seq<Symbol>) {
    forall i, j :: 0 <= i < j < |names| ==> names[i] != names[j]
  }

  /** The bytes all the names take. */
  function Arena(names: seq<Symbol>): nat {
    if names == [] then 0 else Arena(names[..|names| - 1]) + |names[|names| - 1].name|
  }

  predicate Acceptable(symbol: Symbol) { symbol.kind == Active ==> |symbol.name| == 1 }

  function Index(names: seq<Symbol>, symbol: Symbol): (i: nat)
    requires symbol in names
    ensures i < |names| && names[i] == symbol
  {
    if names[0] == symbol then 0 else 1 + Index(names[1..], symbol)
  }

  /** hstex_symbol_intern on the list of names the table stands for. The room a new name would need is
      asked for before the name is looked up. */
  function Interned(names: seq<Symbol>, symbol: Symbol): (Interning, seq<Symbol>) {
    if !Acceptable(symbol) then (Invalid, names)
    else if |symbol.name| > UINT32_MAX || Arena(names) > UINT32_MAX - |symbol.name| then (ArenaFull, names)
    else if symbol in names then (Identifier(Index(names, symbol) + 1), names)
    else if |names| >= CS_ID_MAX then (Exhausted, names)
    else (Identifier(|names| + 1), names + [symbol])
  }

  /** hstex_symbol_find: zero where the name has no identifier. */
  function Found(names: seq<Symbol>, symbol: Symbol): nat {
    if Acceptable(symbol) && symbol in names then Index(names, symbol) + 1 else 0
  }

  /** The names interned in turn, those refused passed over. */
  function AllInterned(names: seq<Symbol>, requests: seq<Symbol>): seq<Symbol>
    decreases |requests|
  {
    if requests == [] then names else AllInterned(Interned(names, requests[0]).1, requests[1..])
  }

  lemma InjectiveKept(names: seq<Symbol>, symbol: Symbol)
    requires Injective(names)
    ensures Injective(Interned(names, symbol).1)
  {}

  lemma OneIndex(names: seq<Symbol>, symbol: Symbol, i: nat)
    requires Injective(names) && i < |names| && names[i] == symbol
    ensures Index(names, symbol) == i
  {
    var j := Index(names, symbol);
    if i < j { assert false; } else if j < i { assert false; }
  }

  /** Whatever is interned afterwards, an identifier keeps its name and its name keeps it. */
  lemma {:induction false} IdentifiersStand(names: seq<Symbol>, requests: seq<Symbol>, symbol: Symbol)
    requires Injective(names)
    ensures Injective(AllInterned(names, requests)) && names <= AllInterned(names, requests)
    ensures Found(names, symbol) != 0 ==> Found(AllInterned(names, requests), symbol) == Found(names, symbol)
    decreases |requests|
  {
    if requests != [] {
      hide Index, Arena;
      var after := Interned(names, requests[0]).1;
      InjectiveKept(names, requests[0]);
      IdentifiersStand(after, requests[1..], symbol);
      if Found(names, symbol) != 0 {
        var i := Index(names, symbol);
        OneIndex(after, symbol, i);
      }
    }
  }

  /** A name just given its identifier is found under it, and interning it again gives it again and
      changes nothing, exactly as long as the arena could hold the name a second time. */
  lemma InternAgain(names: seq<Symbol>, symbol: Symbol)
    requires Injective(names) && Interned(names, symbol).0.Identifier?
    ensures var (first, after) := Interned(names, symbol);
      && Found(after, symbol) == first.id
      && 1 <= first.id <= |after| && after[first.id - 1] == symbol
      && (Arena(after) + |symbol.name| <= UINT32_MAX ==> Interned(after, symbol) == (first, after))
      && (Arena(after) + |symbol.name| > UINT32_MAX ==> Interned(after, symbol) == (ArenaFull, after))
  {
    hide Index, Arena;
    InjectiveKept(names, symbol);
    var (first, after) := Interned(names, symbol);
    OneIndex(after, symbol, first.id - 1);
  }

  // ----- the table -----

  function KindByte(kind: Kind): byte {
    match kind
    case Regular => 0
    case Active => 1
  }

  /** FNV-1a over the kind, the name and its length. */
  function Hash(symbol: Symbol): nat {
    Mixed(MixedFrom(Mixed(BASIS, KindByte(symbol.kind)), symbol.name), |symbol.name|)
  }

  datatype Entry = Entry(hash: nat, offset: nat, length: nat, kind: Kind)

  predicate Holds(entry: Entry, bytes: seq<byte>, symbol: Symbol) {
    && entry.offset + entry.length <= |bytes|
    && bytes[entry.offset..entry.offset + entry.length] == symbol.name
    && entry.kind == symbol.kind
    && entry.hash == Hash(symbol)
  }

  /** hstex_symbol_name of an entry. */
  function NameOf(entry: Entry, bytes: seq<byte>): Symbol
    requires entry.offset + entry.length <= |bytes|
  {
    Symbol(entry.kind, bytes[entry.offset..entry.offset + entry.length])
  }

  lemma ItsName(entry: Entry, bytes: seq<byte>, name: Symbol)
    requires Holds(entry, bytes, name)
    ensures entry.offset + entry.length <= |bytes|
    ensures NameOf(entry, bytes) == name && entry.hash == Hash(name)
  {
    hide Hash;
  }

  /** The test a probe makes of an entry. */
  predicate Same(entry: Entry, bytes: seq<byte>, hash: nat, symbol: Symbol)
    requires entry.offset + entry.length <= |bytes|
  {
    && entry.hash == hash && entry.kind == symbol.kind && entry.length == |symbol.name|
    && bytes[entry.offset..entry.offset + entry.length] == symbol.name
  }

  /** It tells exactly whether the entry is the name's. */
  lemma SameExactly(entry: Entry, bytes: seq<byte>, name: Symbol, symbol: Symbol)
    requires Holds(entry, bytes, name)
    ensures entry.offset + entry.length <= |bytes|
    ensures Same(entry, bytes, Hash(symbol), symbol) <==> name == symbol
  {
    hide Hash;
  }

  function Hashes(names: seq<Symbol>): (hashes: seq<nat>)
    ensures |hashes| == |names|
    ensures forall i :: 0 <= i < |names| ==> hashes[i] == Hash(names[i])
  {
    seq(|names|, i requires 0 <= i < |names| => Hash(names[i]))
  }

  class SymbolTable {
    var entries: seq<Entry>
    var bytes: seq<byte>
    var slots: array<nat>

    /** The list of names the table stands for, and where each stands in the ring. */
    ghost var names: seq<Symbol>
    ghost var steps: seq<nat>

    ghost predicate Stored()
      reads this
    {
      && |entries| == |names|
      && |bytes| == Arena(names) <= UINT32_MAX
      && (forall i :: 0 <= i < |names| ==> Holds(entries[i], bytes, names[i]))
    }

    ghost predicate Valid()
      reads this, slots
    {
      && Stored() && Injective(names)
      && slots.Length >= INITIAL_SLOTS && PowerOfTwo(slots.Length)
      && Chained(slots[..], Hashes(names), steps)
      && |names| <= slots.Length / 10 * 7
      && |names| <= CS_ID_MAX
    }

    ghost predicate HasRoom(symbol: Symbol)
      reads this, slots
    {
      && |bytes| + |symbol.name| <= UINT32_MAX && |names| < CS_ID_MAX
      && slots.Length >= INITIAL_SLOTS && PowerOfTwo(slots.Length) && |names| + 1 <= slots.Length / 10 * 7
    }

    /** A new entry of the hash may go in the slot. */
    ghost predicate Fits(hash: nat, slot: nat, k: nat)
      reads this, slots
    {
      slot < slots.Length && Chained(slots[..][slot := |names| + 1], Hashes(names) + [hash], steps + [k])
    }

    /** hstex_symbols_init. */
    constructor ()
      ensures Valid() && fresh(slots) && names == []
    {
      entries := [];
      bytes := [];
      slots := new nat[INITIAL_SLOTS](_ => 0);
      names := [];
      steps := [];
      new;
      assert slots[..] == seq(INITIAL_SLOTS, _ => 0);
      EmptyTable(INITIAL_SLOTS);
      InitialPowers();
    }

    /** find_slot: the slot of the name, or the first empty one where it would stand. */
    method FindSlot(hash: nat, symbol: Symbol, ghost entered: seq<Symbol>, ghost steps: seq<nat>) returns (slot: nat, id: nat, ghost k: nat)
      requires Stored() && entered <= names && slots.Length > 0 && hash == Hash(symbol)
      requires Chained(slots[..], Hashes(entered), steps) && |entered| < slots.Length
      ensures id != 0 ==> id <= |entered| && entered[id - 1] == symbol
      ensures id == 0 ==> symbol !in entered
      ensures id == 0 ==> FirstEmpty(slots[..], Home(Hash(symbol), slots.Length), k)
      ensures id == 0 ==> slot == Step(Home(Hash(symbol), slots.Length), k, slots.Length)
    {
      hide Home, Step, Hash, Chained, Arena, Same, Holds;
      ghost var ring, hashes := slots[..], Hashes(entered);
      var home := Home(hash, slots.Length);
      slot := home;
      k := 0;
      ghost var empty := SomeEmpty(ring, hashes, steps);
      ghost var last := Distance(home, empty, slots.Length);
      StepZero(home, slots.Length);
      while true
        invariant k <= last < slots.Length && slot == Step(home, k, slots.Length)
        invariant forall j :: 0 <= j < k ==> ring[Step(home, j, |ring|)] != 0
        invariant forall j :: 0 <= j < k ==> Elsewhere(ring[Step(home, j, |ring|)], entered, symbol)
        decreases last - k
      {
        var candidate := slots[slot];
        if candidate == 0 {
          NotMet(ring, entered, steps, symbol, k);
          return slot, 0, k;
        }
        HolderOf(ring, hashes, steps, slot);
        SameExactly(entries[candidate - 1], bytes, names[candidate - 1], symbol);
        if Same(entries[candidate - 1], bytes, hash, symbol) {
          return slot, candidate, k;
        }
        StepOn(home, k, slots.Length);
        slot := if slot + 1 == slots.Length then 0 else slot + 1;
        k := k + 1;
      }
    }

    /** rehash: every entry goes into a ring of the new capacity, in the order they were made. */
    method Rehash(capacity: nat)
      requires Stored() && Injective(names) && capacity >= INITIAL_SLOTS && |names| < capacity
      modifies this`slots, this`steps
      ensures fresh(slots) && slots.Length == capacity
      ensures Chained(slots[..], Hashes(names), steps)
    {
      hide Home, Step, Hash, Chained, Arena, Holds, FirstEmpty;
      slots := new nat[capacity](_ => 0);
      steps := [];
      assert slots[..] == seq(capacity, _ => 0);
      EmptyTable(capacity);
      for index := 0 to |entries|
        invariant fresh(slots) && slots.Length == capacity
        invariant Chained(slots[..], Hashes(names[..index]), steps)
      {
        NotYet(names, index);
        ItsName(entries[index], bytes, names[index]);
        var slot, id, k := FindSlot(entries[index].hash, NameOf(entries[index], bytes), names[..index], steps);
        Entered(slots[..], Hashes(names[..index]), steps, Hash(names[index]), k);
        OneMoreHash(names, index);
        slots[slot] := index + 1;
        steps := steps + [k];
      }
      assert names[..|entries|] == names;
    }

    /** hstex_symbol_find. */
    method Find(symbol: Symbol) returns (id: nat)
      requires Valid()
      ensures id == Found(names, symbol)
    {
      hide Home, Step, Hash, Chained, Arena, Holds, FirstEmpty, Index;
      if !Acceptable(symbol) {
        return 0;
      }
      var slot, found, k := FindSlot(Hash(symbol), symbol, names, steps);
      if found != 0 {
        OneIndex(names, symbol, found - 1);
      }
      id := found;
    }

    /** hstex_symbol_name. */
    method Name(id: nat) returns (symbol: Option<Symbol>)
      requires Valid()
      ensures symbol == if 1 <= id <= |names| then Some(names[id - 1]) else None
    {
      if id == 0 || id > |entries| {
        return None;
      }
      ItsName(entries[id - 1], bytes, names[id - 1]);
      symbol := Some(NameOf(entries[id - 1], bytes));
    }

    /** hstex_symbol_intern. */
    method Intern(symbol: Symbol) returns (r: Interning)
      requires Valid()
      modifies this, slots
      ensures Valid() && (slots == old(slots) || fresh(slots))
      ensures (r, names) == Interned(old(names), symbol)
    {
      hide Home, Step, Hash, Chained, Holds, FirstEmpty, Index, Arena, Hashes;
      if symbol.kind == Active && |symbol.name| != 1 {
        return Invalid;
      }
      if |symbol.name| > UINT32_MAX || |bytes| > UINT32_MAX - |symbol.name| {
        return ArenaFull;
      }
      var hash := Hash(symbol);
      var slot, found, k := FindSlot(hash, symbol, names, steps);
      if found != 0 {
        OneIndex(names, symbol, found - 1);
        return Identifier(found);
      }
      if |entries| >= CS_ID_MAX {
        return Exhausted;
      }
      if |entries| + 1 > slots.Length / 10 * 7 {
        Doubled(slots.Length);
        Rehash(slots.Length * 2);
        slot, found, k := FindSlot(hash, symbol, names, steps);
      }
      Entered(slots[..], Hashes(names), steps, hash, k);
      Add(symbol, hash, slot, k);
      r := Identifier(|entries|);
    }

    /** The new entry, its bytes behind all the others, and its slot. */
    method Add(symbol: Symbol, hash: nat, slot: nat, ghost k: nat)
      requires Stored() && Injective(names) && symbol !in names && HasRoom(symbol)
      requires hash == Hash(symbol) && Fits(hash, slot, k)
      modifies this, slots
      ensures Valid() && slots == old(slots)
      ensures names == old(names) + [symbol]
    {
      hide Home, Step, Hash, Chained, Holds;
      MoreNames(names, symbol);
      StillHolds(entries, bytes, names, symbol);
      entries := entries + [Entry(hash, |bytes|, |symbol.name|, symbol.kind)];
      bytes := bytes + symbol.name;
      slots[slot] := |entries|;
      names := names + [symbol];
      steps := steps + [k];
    }
  }

  ghost predicate Elsewhere(id: nat, entered: seq<Symbol>, symbol: Symbol) {
    0 < id <= |entered| && entered[id - 1] != symbol
  }

  lemma NotYet(names: seq<Symbol>, index: nat)
    requires Injective(names) && index < |names|
    ensures names[index] !in names[..index]
  {}

  lemma OneMoreHash(names: seq<Symbol>, index: nat)
    requires index < |names|
    ensures Hashes(names[..index + 1]) == Hashes(names[..index]) + [Hash(names[index])]
  {
    hide Hash;
  }

  lemma MoreNames(names: seq<Symbol>, symbol: Symbol)
    ensures Hashes(names + [symbol]) == Hashes(names) + [Hash(symbol)]
    ensures Arena(names + [symbol]) == Arena(names) + |symbol.name|
  {
    hide Hash;
    assert (names + [symbol])[..|names|] == names;
  }

  lemma StillHolds(entries: seq<Entry>, bytes: seq<byte>, names: seq<Symbol>, symbol: Symbol)
    requires |entries| == |names| && forall i :: 0 <= i < |names| ==> Holds(entries[i], bytes, names[i])
    ensures forall i :: 0 <= i < |names| ==> Holds(entries[i], bytes + symbol.name, names[i])
    ensures Holds(Entry(Hash(symbol), |bytes|, |symbol.name|, symbol.kind), bytes + symbol.name, symbol)
  {
    hide Hash;
    forall i | 0 <= i < |names|
      ensures Holds(entries[i], bytes + symbol.name, names[i])
    {
      var e := entries[i];
      assert Holds(e, bytes, names[i]);
      assert (bytes + symbol.name)[e.offset..e.offset + e.length] == bytes[e.offset..e.offset + e.length];
    }
  }

  lemma HolderOf(slots: seq<nat>, hashes: seq<nat>, steps: seq<nat>, s: nat)
    requires Chained(slots, hashes, steps) && s < |slots| && slots[s] != 0
    ensures slots[s] <= |hashes|
  {
    assert Holder(slots, hashes, steps, s);
  }

  /** A name not met before the first empty slot behind its home was never entered. */
  lemma NotMet(slots: seq<nat>, entered: seq<Symbol>, steps: seq<nat>, symbol: Symbol, k: nat)
    requires Chained(slots, Hashes(entered), steps)
    requires FirstEmpty(slots, Home(Hash(symbol), |slots|), k)
    requires forall j :: 0 <= j < k ==> Elsewhere(slots[Step(Home(Hash(symbol), |slots|), j, |slots|)], entered, symbol)
    ensures symbol !in entered
  {
    hide Home, Step, Hash, Chained;
    if symbol in entered {
      var i :| 0 <= i < |entered| && entered[i] == symbol;
      Reached(slots, Hashes(entered), steps, i, k);
    }
  }
}
