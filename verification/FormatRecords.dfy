/** Records with holes: what a writer clears, how much of a register bank it writes, and arrays whose records
    are followed by pieces of their own. */
module FormatRecords {
  import opened Bytes
  import opened Words
  import opened FormatPieces

  // ----- holes -----

  datatype Hole = Hole(at: nat, length: nat)

  predicate InHole(i: nat, holes: seq<Hole>) {
    exists h :: 0 <= h < |holes| && holes[h].at <= i < holes[h].at + holes[h].length
  }

  /** A record with its holes cleared. */
  function Cleared(row: Row, holes: seq<Hole>): (r: Row)
    ensures |r| == |row|
    ensures forall i :: 0 <= i < |row| ==> r[i] == if InHole(i, holes) then 0 else row[i]
  {
    seq(|row|, i requires 0 <= i < |row| => if InHole(i, holes) then 0 else row[i])
  }

  function AllCleared(rows: seq<Row>, holes: seq<Hole>): (r: seq<Row>)
    ensures |r| == |rows|
    ensures forall i :: 0 <= i < |rows| ==> r[i] == Cleared(rows[i], holes)
  {
    seq(|rows|, i requires 0 <= i < |rows| => Cleared(rows[i], holes))
  }

  /** Two records are written alike exactly where they differ only inside the holes. */
  lemma ClearedAlike(a: Row, b: Row, holes: seq<Hole>)
    requires |a| == |b|
    ensures Cleared(a, holes) == Cleared(b, holes) <==> forall i :: 0 <= i < |a| ==> InHole(i, holes) || a[i] == b[i]
  {
    hide InHole;
    if Cleared(a, holes) == Cleared(b, holes) {
      forall i | 0 <= i < |a|
        ensures InHole(i, holes) || a[i] == b[i]
      {
        assert Cleared(a, holes)[i] == Cleared(b, holes)[i];
      }
    }
  }

  lemma ClearedTwice(row: Row, holes: seq<Hole>)
    ensures Cleared(Cleared(row, holes), holes) == Cleared(row, holes)
  {
    hide InHole;
  }

  lemma AllClearedTwice(rows: seq<Row>, holes: seq<Hole>)
    ensures AllCleared(AllCleared(rows, holes), holes) == AllCleared(rows, holes)
  {
    hide Cleared;
    forall i | 0 <= i < |rows|
      ensures Cleared(Cleared(rows[i], holes), holes) == Cleared(rows[i], holes)
    {
      ClearedTwice(rows[i], holes);
    }
  }

  lemma ClearedSized(rows: seq<Row>, holes: seq<Hole>, size: nat)
    requires Sized(rows, size)
    ensures Sized(AllCleared(rows, holes), size)
  {
    hide Cleared;
  }

  // ----- register banks -----

  datatype Bank = Bank(size: nat, holes: seq<Hole>, rows: seq<Row>)

  datatype BankShape = BankShape(size: nat, holes: seq<Hole>)

  /** The longest record a writer can clear a copy of. */
  const ELEMENT: nat := 512

  predicate Unset(row: Row, holes: seq<Hole>) { Cleared(row, holes) == Zeros(|row|) }

  /** used_prefix: up to the last record that is not zero once its holes are cleared. */
  function UsedPrefix(rows: seq<Row>, holes: seq<Hole>): (n: nat)
    ensures n <= |rows|
    ensures forall i :: n <= i < |rows| ==> Unset(rows[i], holes)
    ensures n > 0 ==> !Unset(rows[n - 1], holes)
  {
    if rows == [] then 0
    else if !Unset(rows[|rows| - 1], holes) then |rows|
    else UsedPrefix(rows[..|rows| - 1], holes)
  }

  /** One length serves all the banks. */
  function Prefix(banks: seq<Bank>): nat {
    if banks == [] then 0 else Max(UsedPrefix(banks[0].rows, banks[0].holes), Prefix(banks[1..]))
  }

  lemma {:induction false} PrefixCovers(banks: seq<Bank>, capacity: nat)
    requires forall k :: 0 <= k < |banks| ==> |banks[k].rows| == capacity
    ensures Prefix(banks) <= capacity
    ensures forall k :: 0 <= k < |banks| ==> UsedPrefix(banks[k].rows, banks[k].holes) <= Prefix(banks)
  {
    hide UsedPrefix;
    if banks != [] { PrefixCovers(banks[1..], capacity); }
  }

  /** Cutting the banks there loses nothing, and cutting them any sooner loses a register that is set. */
  lemma {:induction false} PrefixLeast(banks: seq<Bank>, n: nat)
    requires n < Prefix(banks)
    ensures exists k, i :: 0 <= k < |banks| && n <= i < |banks[k].rows| && !Unset(banks[k].rows[i], banks[k].holes)
  {
    hide Unset;
    var used := UsedPrefix(banks[0].rows, banks[0].holes);
    if n < used {
      assert !Unset(banks[0].rows[used - 1], banks[0].holes);
    } else {
      PrefixLeast(banks[1..], n);
      var k, i :| 0 <= k < |banks[1..]| && n <= i < |banks[1..][k].rows| && !Unset(banks[1..][k].rows[i], banks[1..][k].holes);
      assert banks[k + 1] == banks[1..][k];
    }
  }

  function BankBytes(bank: Bank, prefix: nat): seq<byte> {
    Flat(AllCleared(if prefix <= |bank.rows| then bank.rows[..prefix] else bank.rows, bank.holes))
  }

  function BanksBytes(banks: seq<Bank>, prefix: nat): seq<byte> {
    if banks == [] then [] else BankBytes(banks[0], prefix) + BanksBytes(banks[1..], prefix)
  }

  predicate BankOK(bank: Bank, shape: BankShape, capacity: nat) {
    && bank.size == shape.size && bank.holes == shape.holes && 0 < bank.size <= ELEMENT
    && |bank.rows| == capacity && Sized(bank.rows, bank.size)
  }

  predicate BanksOK(banks: seq<Bank>, shapes: seq<BankShape>, capacity: nat) {
    |banks| == |shapes| && forall k :: 0 <= k < |banks| ==> BankOK(banks[k], shapes[k], capacity)
  }

  /** A register bank as it is read: what the file holds of it, over a bank that is zero throughout. */
  function TakeBank(shape: BankShape, bytes: seq<byte>, at: nat, capacity: nat, prefix: nat): Got<Bank> {
    if capacity == 0 then Got(Bank(shape.size, shape.holes, []), at)
    else
      var rows := TakeRows(bytes, at, shape.size, prefix);
      if rows.Failed? || prefix > capacity then Failed
      else Got(Bank(shape.size, shape.holes, rows.value + ZeroRows(capacity - prefix, shape.size)), rows.at)
  }

  function TakeBanks(shapes: seq<BankShape>, bytes: seq<byte>, at: nat, capacity: nat, prefix: nat): Got<seq<Bank>>
    decreases |shapes|
  {
    if shapes == [] then Got([], at)
    else
      var first := TakeBank(shapes[0], bytes, at, capacity, prefix);
      if first.Failed? then Failed
      else
        var others := TakeBanks(shapes[1..], bytes, first.at, capacity, prefix);
        if others.Failed? then Failed else Got([first.value] + others.value, others.at)
  }

  function ClearedBank(bank: Bank): Bank { bank.(rows := AllCleared(bank.rows, bank.holes)) }

  function ClearedBanks(banks: seq<Bank>): (r: seq<Bank>)
    ensures |r| == |banks|
    ensures forall k :: 0 <= k < |banks| ==> r[k] == ClearedBank(banks[k])
  {
    seq(|banks|, k requires 0 <= k < |banks| => ClearedBank(banks[k]))
  }

  /** A bank comes back whole, however much of it was written, up to its holes. */
  lemma BankBack(bank: Bank, shape: BankShape, capacity: nat, prefix: nat, bytes: seq<byte>, at: nat)
    requires BankOK(bank, shape, capacity) && UsedPrefix(bank.rows, bank.holes) <= prefix <= capacity
    requires Stands(BankBytes(bank, prefix), bytes, at)
    ensures TakeBank(shape, bytes, at, capacity, prefix) == Got(ClearedBank(bank), at + |BankBytes(bank, prefix)|)
  {
    hide Stands, TakeRows, Flat, Cleared;
    var written := AllCleared(bank.rows[..prefix], bank.holes);
    ClearedSized(bank.rows[..prefix], bank.holes, bank.size);
    RowsTaken(written, bank.size, bytes, at);
    Untouched(bank, prefix);
    if capacity == 0 {
      assert Flat([]) == [] by { FlatNone(); }
    }
  }

  lemma FlatNone()
    ensures Flat([]) == []
  {}

  lemma Untouched(bank: Bank, prefix: nat)
    requires Sized(bank.rows, bank.size) && UsedPrefix(bank.rows, bank.holes) <= prefix <= |bank.rows|
    ensures AllCleared(bank.rows, bank.holes) == AllCleared(bank.rows[..prefix], bank.holes) + ZeroRows(|bank.rows| - prefix, bank.size)
  {
    hide Cleared, UsedPrefix;
    forall i | prefix <= i < |bank.rows|
      ensures Cleared(bank.rows[i], bank.holes) == Zeros(bank.size)
    {
      assert Unset(bank.rows[i], bank.holes);
    }
  }

  /** Banks that are as they should be and are set nowhere behind the prefix. */
  ghost predicate Covered(banks: seq<Bank>, shapes: seq<BankShape>, capacity: nat, prefix: nat) {
    && BanksOK(banks, shapes, capacity) && prefix <= capacity
    && forall k :: 0 <= k < |banks| ==> UsedPrefix(banks[k].rows, banks[k].holes) <= prefix
  }

  lemma CoveredFirst(banks: seq<Bank>, shapes: seq<BankShape>, capacity: nat, prefix: nat)
    requires Covered(banks, shapes, capacity, prefix) && banks != []
    ensures shapes != [] && BankOK(banks[0], shapes[0], capacity) && prefix <= capacity
    ensures UsedPrefix(banks[0].rows, banks[0].holes) <= prefix
    ensures Covered(banks[1..], shapes[1..], capacity, prefix)
    ensures ClearedBanks(banks) == [ClearedBank(banks[0])] + ClearedBanks(banks[1..])
  {
    hide UsedPrefix, BankOK, ClearedBank;
  }

  lemma CoveredNone(shapes: seq<BankShape>, capacity: nat, prefix: nat)
    requires Covered([], shapes, capacity, prefix)
    ensures shapes == [] && ClearedBanks([]) == []
  {}

  lemma CoveredByPrefix(banks: seq<Bank>, shapes: seq<BankShape>, capacity: nat)
    requires BanksOK(banks, shapes, capacity)
    ensures Covered(banks, shapes, capacity, Prefix(banks)) && Prefix(banks) <= capacity
  {
    hide Prefix, UsedPrefix;
    BanksRows(banks, shapes, capacity);
    PrefixCovers(banks, capacity);
  }

  lemma {:induction false} BanksBack(banks: seq<Bank>, shapes: seq<BankShape>, capacity: nat, prefix: nat, bytes: seq<byte>, at: nat)
    requires Covered(banks, shapes, capacity, prefix)
    requires Stands(BanksBytes(banks, prefix), bytes, at)
    ensures TakeBanks(shapes, bytes, at, capacity, prefix) == Got(ClearedBanks(banks), at + |BanksBytes(banks, prefix)|)
    decreases |banks|
  {
    hide Stands, TakeBank, BankBytes, ClearedBank, UsedPrefix, BankOK, Covered, ClearedBanks;
    if banks == [] {
      CoveredNone(shapes, capacity, prefix);
    } else {
      CoveredFirst(banks, shapes, capacity, prefix);
      Parts(BankBytes(banks[0], prefix), BanksBytes(banks[1..], prefix), bytes, at);
      BankBack(banks[0], shapes[0], capacity, prefix, bytes, at);
      BanksBack(banks[1..], shapes[1..], capacity, prefix, bytes, at + |BankBytes(banks[0], prefix)|);
    }
  }

  // ----- the registers -----

  /** The register banks: how long they are, how much of each is written, and that much of each. */
  function RegistersBytes(banks: seq<Bank>, capacity: nat): seq<byte> {
    LittleEndian(capacity, 8) + (LittleEndian(Prefix(banks), 8) + BanksBytes(banks, Prefix(banks)))
  }

  datatype RegisterFile = RegisterFile(capacity: nat, banks: seq<Bank>)

  function TakeRegisters(shapes: seq<BankShape>, bytes: seq<byte>, at: nat): Got<RegisterFile> {
    var capacity := TakeWord(bytes, at);
    if capacity.Failed? then Failed
    else
      var prefix := TakeWord(bytes, capacity.at);
      if prefix.Failed? || prefix.value > capacity.value then Failed
      else
        var banks := TakeBanks(shapes, bytes, prefix.at, capacity.value, prefix.value);
        if banks.Failed? then Failed else Got(RegisterFile(capacity.value, banks.value), banks.at)
  }

  lemma BanksRows(banks: seq<Bank>, shapes: seq<BankShape>, capacity: nat)
    requires BanksOK(banks, shapes, capacity)
    ensures forall k :: 0 <= k < |banks| ==> |banks[k].rows| == capacity
  {}

  /** Every bank is restored in full from the one prefix, cut where the last set register of any is. */
  lemma RegistersBack(banks: seq<Bank>, shapes: seq<BankShape>, capacity: nat, bytes: seq<byte>, at: nat)
    requires BanksOK(banks, shapes, capacity) && capacity < WORD
    requires Stands(RegistersBytes(banks, capacity), bytes, at)
    ensures TakeRegisters(shapes, bytes, at) == Got(RegisterFile(capacity, ClearedBanks(banks)), at + |RegistersBytes(banks, capacity)|)
  {
    hide Stands, TakeWord, TakeBanks, BanksBytes, LittleEndian, Prefix, Covered, BanksOK, ClearedBanks;
    CoveredByPrefix(banks, shapes, capacity);
    TwoWordsBack(capacity, Prefix(banks), BanksBytes(banks, Prefix(banks)), bytes, at);
    BanksBack(banks, shapes, capacity, Prefix(banks), bytes, at + 16);
  }
}
