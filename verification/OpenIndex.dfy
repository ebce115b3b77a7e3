/** Open addressing as both name tables use it: identifiers counted from one in a ring of slots, zero
    where a slot is empty, each entry in the first empty slot at or behind its hash's own. */
module OpenIndex {
  import opened Bytes

  /** What a ring's capacity is, so that a mask takes the remainder. */
  predicate PowerOfTwo(n: nat) { n == 1 || (n > 0 && n % 2 == 0 && PowerOfTwo(n / 2)) }

  lemma InitialPowers()
    ensures PowerOfTwo(1024) && PowerOfTwo(32768)
  {
    assert PowerOfTwo(16);
    Doubled(16);
    Doubled(32);
    Doubled(64);
    Doubled(128);
    Doubled(256);
    Doubled(512);
    Doubled(1024);
    Doubled(2048);
    Doubled(4096);
    Doubled(8192);
    Doubled(16384);
  }

  lemma Doubled(n: nat)
    requires PowerOfTwo(n)
    ensures PowerOfTwo(2 * n)
  {
    var m := 2 * n;
    assert m % 2 == 0 && m / 2 == n > 0;
    assert PowerOfTwo(m / 2);
  }

  /** The slot a hash begins at; the mask of a power of two is the remainder. */
  function Home(hash: nat, capacity: nat): (slot: nat)
    requires capacity > 0
    ensures slot < capacity
  {
    hash % capacity
  }

  /** The slot k steps on from another, round the ring. */
  function Step(start: nat, k: nat, capacity: nat): (slot: nat)
    requires start < capacity && k < capacity
    ensures slot < capacity
  {
    if start + k < capacity then start + k else start + k - capacity
  }

  lemma StepZero(start: nat, capacity: nat)
    requires start < capacity
    ensures Step(start, 0, capacity) == start
  {}

  lemma StepOn(start: nat, k: nat, capacity: nat)
    requires start < capacity && k + 1 < capacity
    ensures Step(start, k + 1, capacity) == if Step(start, k, capacity) + 1 == capacity then 0 else Step(start, k, capacity) + 1
  {}

  /** How far on from one slot another is. */
  function Distance(start: nat, slot: nat, capacity: nat): (k: nat)
    requires start < capacity && slot < capacity
    ensures k < capacity && Step(start, k, capacity) == slot
  {
    if slot >= start then slot - start else slot + capacity - start
  }

  /** Entry i stands `steps[i]` on from its home; what stands before it on the way was there first. */
  ghost predicate Chained(slots: seq<nat>, hashes: seq<nat>, steps: seq<nat>) {
    && |slots| > 0 && |steps| == |hashes|
    && (forall i :: 0 <= i < |steps| ==> Placed(slots, hashes[i], i, steps[i]))
    && (forall s :: 0 <= s < |slots| && slots[s] != 0 ==> Holder(slots, hashes, steps, s))
  }

  ghost predicate Placed(slots: seq<nat>, hash: nat, i: nat, steps: nat) {
    && |slots| > 0 && steps < |slots|
    && slots[Step(Home(hash, |slots|), steps, |slots|)] == i + 1
    && (forall k :: 0 <= k < steps ==> 0 < slots[Step(Home(hash, |slots|), k, |slots|)] <= i)
  }

  ghost predicate Holder(slots: seq<nat>, hashes: seq<nat>, steps: seq<nat>, s: nat) {
    && s < |slots| && 0 < slots[s] <= |hashes| == |steps| && steps[slots[s] - 1] < |slots|
    && Step(Home(hashes[slots[s] - 1], |slots|), steps[slots[s] - 1], |slots|) == s
  }

  /** The slots from `start` on are taken for k steps and the next one is empty. */
  ghost predicate FirstEmpty(slots: seq<nat>, start: nat, k: nat) {
    && start < |slots| && k < |slots|
    && slots[Step(start, k, |slots|)] == 0
    && (forall j :: 0 <= j < k ==> slots[Step(start, j, |slots|)] != 0)
  }

  lemma EmptyTable(capacity: nat)
    requires capacity > 0
    ensures Chained(seq(capacity, _ => 0), [], [])
  {}

  // ----- a probe ends -----

  lemma {:induction false} Pigeons(s: seq<nat>, n: nat)
    requires forall i :: 0 <= i < |s| ==> s[i] < n
    requires forall i, j :: 0 <= i < j < |s| ==> s[i] != s[j]
    ensures |s| <= n
    decreases n
  {
    if s != [] {
      assert s[0] < n;
      if n - 1 in s {
        var at :| 0 <= at < |s| && s[at] == n - 1;
        var without := s[..at] + s[at + 1..];
        assert forall i :: 0 <= i < |without| ==> without[i] == s[if i < at then i else i + 1];
        Pigeons(without, n - 1);
      } else {
        Pigeons(s, n - 1);
      }
    }
  }

  /** Fewer entries than slots leave an empty slot, so a walk that starts anywhere comes to one. */
  lemma SomeEmpty(slots: seq<nat>, hashes: seq<nat>, steps: seq<nat>) returns (s: nat)
    requires Chained(slots, hashes, steps) && |hashes| < |slots|
    ensures s < |slots| && slots[s] == 0
  {
    if forall s :: 0 <= s < |slots| ==> slots[s] != 0 {
      var holders := seq(|slots|, s requires 0 <= s < |slots| => if slots[s] > 0 then slots[s] - 1 else 0);
      forall s | 0 <= s < |slots|
        ensures holders[s] < |hashes|
        ensures Step(Home(hashes[holders[s]], |slots|), steps[holders[s]], |slots|) == s
      {
        assert Holder(slots, hashes, steps, s);
      }
      Pigeons(holders, |hashes|);
      assert false;
    }
    s :| 0 <= s < |slots| && slots[s] == 0;
  }

  // ----- a walk finds -----

  /** An entry lies within the walk that starts at its home. */
  lemma Reached(slots: seq<nat>, hashes: seq<nat>, steps: seq<nat>, i: nat, empty: nat)
    requires Chained(slots, hashes, steps) && i < |hashes|
    requires FirstEmpty(slots, Home(hashes[i], |slots|), empty)
    ensures i < |steps| && steps[i] < empty && slots[Step(Home(hashes[i], |slots|), steps[i], |slots|)] == i + 1
  {
    hide Home, Step;
    assert Placed(slots, hashes[i], i, steps[i]);
  }

  /** One entry has one place. */
  lemma OnePlace(slots: seq<nat>, hashes: seq<nat>, steps: seq<nat>, start: nat, j: nat, k: nat)
    requires Chained(slots, hashes, steps) && start < |slots| && j < |slots| && k < |slots|
    requires slots[Step(start, j, |slots|)] == slots[Step(start, k, |slots|)] != 0
    ensures j == k
  {
    assert Holder(slots, hashes, steps, Step(start, j, |slots|));
    assert Holder(slots, hashes, steps, Step(start, k, |slots|));
  }

  /** Entries with one hash are met in the order they were entered. */
  lemma InOrder(slots: seq<nat>, hashes: seq<nat>, steps: seq<nat>, i: nat, j: nat)
    requires Chained(slots, hashes, steps) && i < j < |hashes| && hashes[i] == hashes[j]
    ensures steps[i] < steps[j]
  {
    hide Home, Step;
    assert Placed(slots, hashes[i], i, steps[i]);
    assert Placed(slots, hashes[j], j, steps[j]);
  }

  // ----- a new entry -----

  /** Written into the first empty slot at or behind its home, an entry joins the chains and disturbs
      none of them. */
  lemma Entered(slots: seq<nat>, hashes: seq<nat>, steps: seq<nat>, hash: nat, k: nat)
    requires Chained(slots, hashes, steps) && FirstEmpty(slots, Home(hash, |slots|), k)
    ensures Chained(slots[Step(Home(hash, |slots|), k, |slots|) := |hashes| + 1], hashes + [hash], steps + [k])
  {
    hide Home, Step, Placed, Holder;
    var at := Step(Home(hash, |slots|), k, |slots|);
    var after := slots[at := |hashes| + 1];
    var hashes', steps' := hashes + [hash], steps + [k];
    forall i | 0 <= i < |steps'|
      ensures Placed(after, hashes'[i], i, steps'[i])
    {
      if i < |steps| { StillPlaced(slots, hashes, steps, at, i); } else { NowPlaced(slots, hashes, steps, hash, k); }
    }
    forall s | 0 <= s < |after| && after[s] != 0
      ensures Holder(after, hashes', steps', s)
    {
      if s != at { StillHolder(slots, hashes, steps, hash, k, at, s); } else { NowHolder(slots, hashes, steps, hash, k); }
    }
  }

  lemma StillPlaced(slots: seq<nat>, hashes: seq<nat>, steps: seq<nat>, at: nat, i: nat)
    requires Chained(slots, hashes, steps) && at < |slots| && slots[at] == 0 && i < |hashes|
    ensures Placed(slots[at := |hashes| + 1], hashes[i], i, steps[i])
  {
    hide Home, Step;
    assert Placed(slots, hashes[i], i, steps[i]);
  }

  lemma NowPlaced(slots: seq<nat>, hashes: seq<nat>, steps: seq<nat>, hash: nat, k: nat)
    requires Chained(slots, hashes, steps) && FirstEmpty(slots, Home(hash, |slots|), k)
    ensures Placed(slots[Step(Home(hash, |slots|), k, |slots|) := |hashes| + 1], hash, |hashes|, k)
  {
    var home := Home(hash, |slots|);
    var after := slots[Step(home, k, |slots|) := |hashes| + 1];
    hide Home;
    forall j | 0 <= j < k
      ensures 0 < after[Step(home, j, |slots|)] <= |hashes|
    {
      assert Holder(slots, hashes, steps, Step(home, j, |slots|));
    }
  }

  lemma NowHolder(slots: seq<nat>, hashes: seq<nat>, steps: seq<nat>, hash: nat, k: nat)
    requires Chained(slots, hashes, steps) && FirstEmpty(slots, Home(hash, |slots|), k)
    ensures var at := Step(Home(hash, |slots|), k, |slots|);
      Holder(slots[at := |hashes| + 1], hashes + [hash], steps + [k], at)
  {
    hide Home, Step, Placed;
  }

  lemma StillHolder(slots: seq<nat>, hashes: seq<nat>, steps: seq<nat>, hash: nat, k: nat, at: nat, s: nat)
    requires Chained(slots, hashes, steps) && s < |slots| && at < |slots| && s != at && slots[s] != 0
    ensures Holder(slots[at := |hashes| + 1], hashes + [hash], steps + [k], s)
  {
    hide Home, Step;
    assert Holder(slots, hashes, steps, s);
  }
}
