/** The parallel run: its checkpoints in order, what each chunk of the document covers, and how many chunks run
    at once. */
module ParallelPlan {
  import opened Bytes

  // ----- the checkpoints in order -----

  predicate Ascending(s: seq<int>) {
    forall i, j :: 0 <= i < j < |s| ==> s[i] <= s[j]
  }

  /** The key behind the last element that is not larger. */
  function Inserted(s: seq<int>, key: int): (r: seq<int>)
    ensures |r| == |s| + 1
  {
    if s == [] || s[|s| - 1] <= key then s + [key] else Inserted(s[..|s| - 1], key) + [s[|s| - 1]]
  }

  function Ordered(s: seq<int>): (r: seq<int>)
    ensures |r| == |s|
  {
    if s == [] then [] else Inserted(Ordered(s[..|s| - 1]), s[|s| - 1])
  }

  lemma {:induction false} InsertedKeeps(s: seq<int>, key: int)
    requires Ascending(s)
    ensures Ascending(Inserted(s, key)) && multiset(Inserted(s, key)) == multiset(s) + multiset{key}
  {
    if s != [] && s[|s| - 1] > key {
      var front, last := s[..|s| - 1], s[|s| - 1];
      InsertedKeeps(front, key);
      assert s == front + [last];
      assert forall i :: 0 <= i < |front| ==> s[i] == front[i];
      InsertedBelow(front, key, last);
      AscendingMore(Inserted(front, key), last);
    } else if s != [] {
      AllBelow(s, key);
      AscendingMore(s, key);
    }
  }

  lemma AllBelow(s: seq<int>, key: int)
    requires Ascending(s) && s != [] && s[|s| - 1] <= key
    ensures forall i :: 0 <= i < |s| ==> s[i] <= key
  {}

  lemma AscendingMore(s: seq<int>, last: int)
    requires Ascending(s) && forall i :: 0 <= i < |s| ==> s[i] <= last
    ensures Ascending(s + [last])
  {}

  lemma {:induction false} InsertedBelow(s: seq<int>, key: int, bound: int)
    requires key <= bound && forall i :: 0 <= i < |s| ==> s[i] <= bound
    ensures forall i :: 0 <= i < |s| + 1 ==> Inserted(s, key)[i] <= bound
  {
    if s != [] && s[|s| - 1] > key { InsertedBelow(s[..|s| - 1], key, bound); }
  }

  /** The pages come out ascending, and are the pages that were found. */
  lemma {:induction false} OrderedKeeps(s: seq<int>)
    ensures Ascending(Ordered(s)) && multiset(Ordered(s)) == multiset(s)
  {
    if s != [] {
      var front := s[..|s| - 1];
      OrderedKeeps(front);
      InsertedKeeps(Ordered(front), s[|s| - 1]);
      assert s == front + [s[|s| - 1]];
    }
  }

  /** parallel_checkpoint_pages: the insertion sort of the pages in place. */
  method OrderPages(pages: array<int>)
    modifies pages
    ensures pages[..] == Ordered(old(pages[..]))
  {
    ghost var found := pages[..];
    var count := pages.Length;
    var i := if count == 0 then 0 else 1;
    FirstOrdered(found);
    while i < count
      invariant i <= count && (count > 0 ==> i > 0)
      invariant pages[..i] == Ordered(found[..i]) && pages[i..] == found[i..]
    {
      Place(pages, i);
      OneMore(found, i);
      i := i + 1;
    }
    assert pages[..] == pages[..count] && found[..count] == found;
  }

  /** One key moved down past the larger ones before it. */
  method Place(pages: array<int>, i: nat)
    requires i < pages.Length
    modifies pages
    ensures pages[..i + 1] == Inserted(old(pages[..i]), old(pages[i])) && pages[i + 1..] == old(pages[i + 1..])
  {
    ghost var before, rest := pages[..i], pages[i + 1..];
    var key := pages[i];
    var j := i;
    assert before[..i] == before;
    while j > 0 && pages[j - 1] > key
      invariant 0 <= j <= i
      invariant pages[..j] == before[..j] && pages[i + 1..] == rest
      invariant Inserted(before[..j], key) + pages[j + 1..i + 1] == Inserted(before, key)
    {
      ghost var tail := pages[j + 1..i + 1];
      pages[j] := pages[j - 1];
      Shifted(before, key, j);
      assert pages[j..i + 1] == [before[j - 1]] + tail;
      Assoc(Inserted(before[..j - 1], key), [before[j - 1]], tail);
      j := j - 1;
    }
    ghost var tail := pages[j + 1..i + 1];
    pages[j] := key;
    assert Inserted(before[..j], key) == before[..j] + [key];
    assert pages[..i + 1] == before[..j] + [key] + tail;
  }

  lemma Shifted(before: seq<int>, key: int, j: nat)
    requires 0 < j <= |before| && before[j - 1] > key
    ensures Inserted(before[..j], key) == Inserted(before[..j - 1], key) + [before[j - 1]]
  {
    assert before[..j][..j - 1] == before[..j - 1];
  }

  lemma OneMore(found: seq<int>, i: nat)
    requires i < |found|
    ensures Ordered(found[..i + 1]) == Inserted(Ordered(found[..i]), found[i])
  {
    assert found[..i + 1][..i] == found[..i];
  }

  lemma FirstOrdered(found: seq<int>)
    ensures Ordered([]) == []
    ensures found != [] ==> Ordered(found[..1]) == found[..1]
  {
    if found != [] {
      assert found[..1][..0] == [];
    }
  }

  // ----- the chunks -----

  /** Where a chunk begins, -1 from the top without a checkpoint, and the page it stops at, zero for the end. */
  datatype Chunk = Chunk(from: int, stop: int)

  function HaveZero(ckpts: seq<int>): bool { ckpts != [] && ckpts[0] == 0 }

  function ChunkCount(ckpts: seq<int>): nat { if HaveZero(ckpts) then |ckpts| else |ckpts| + 1 }

  function ChunkAt(ckpts: seq<int>, i: nat): Chunk
    requires i < ChunkCount(ckpts)
  {
    if HaveZero(ckpts) then Chunk(ckpts[i], if i + 1 < |ckpts| then ckpts[i + 1] else 0)
    else Chunk(if i == 0 then -1 else ckpts[i - 1], if i < |ckpts| then ckpts[i] else 0)
  }

  /** The pages a chunk typesets: those after where it begins, up to where it stops. */
  predicate Covers(chunk: Chunk, page: int) {
    page > chunk.from && (chunk.stop == 0 || page <= chunk.stop)
  }

  predicate Strictly(ckpts: seq<int>) {
    forall i, j :: 0 <= i < j < |ckpts| ==> ckpts[i] < ckpts[j]
  }

  /** The chunks tile the document: each begins where the one before it stops, the last runs to the end, and
      every page is typeset by exactly one of them. */
  lemma ChunksTile(ckpts: seq<int>, page: int)
    requires Strictly(ckpts) && (ckpts != [] ==> ckpts[0] >= 0) && page >= 1
    ensures forall i :: 0 < i < ChunkCount(ckpts) ==> ChunkAt(ckpts, i).from == ChunkAt(ckpts, i - 1).stop
    ensures ChunkCount(ckpts) > 0 && ChunkAt(ckpts, ChunkCount(ckpts) - 1).stop == 0
    ensures exists i :: 0 <= i < ChunkCount(ckpts) && Covers(ChunkAt(ckpts, i), page)
    ensures forall i, j :: 0 <= i < j < ChunkCount(ckpts) ==> !(Covers(ChunkAt(ckpts, i), page) && Covers(ChunkAt(ckpts, j), page))
  {
    assert ChunkCount(ckpts) > 0 && ChunkAt(ckpts, ChunkCount(ckpts) - 1).stop == 0;
    var i := Holder(ckpts, page, ChunkCount(ckpts) - 1);
    assert Covers(ChunkAt(ckpts, i), page);
    forall i, j | 0 <= i < j < ChunkCount(ckpts)
      ensures !(Covers(ChunkAt(ckpts, i), page) && Covers(ChunkAt(ckpts, j), page))
    {
      StopsBefore(ckpts, i, j);
    }
  }

  lemma StopsBefore(ckpts: seq<int>, i: nat, j: nat)
    requires Strictly(ckpts) && (ckpts != [] ==> ckpts[0] >= 0) && i < j < ChunkCount(ckpts)
    ensures 0 < ChunkAt(ckpts, i).stop <= ChunkAt(ckpts, j).from
  {}

  lemma Holder(ckpts: seq<int>, page: int, last: nat) returns (i: nat)
    requires Strictly(ckpts) && (ckpts != [] ==> ckpts[0] >= 0) && page >= 1 && last < ChunkCount(ckpts)
    requires ChunkAt(ckpts, last).stop == 0 || page <= ChunkAt(ckpts, last).stop
    ensures i <= last && Covers(ChunkAt(ckpts, i), page)
    decreases last
  {
    if page > ChunkAt(ckpts, last).from {
      i := last;
    } else {
      i := Holder(ckpts, page, last - 1);
    }
  }

  // ----- the window -----

  /** What waiting for a child gives. */
  datatype Waited = Finished(ok: bool) | Interrupted | NoChild

  /** How many of the children could not be made. */
  function Unmade(forks: seq<bool>): (n: nat)
    ensures n <= |forks|
  {
    if forks == [] then 0 else Unmade(forks[..|forks| - 1]) + if forks[|forks| - 1] then 0 else 1
  }

  /** How many waits gave a child that has finished, and how many of those one that failed. */
  function Finishes(waits: seq<Waited>): nat {
    if waits == [] then 0 else (if waits[0].Finished? then 1 else 0) + Finishes(waits[1..])
  }

  function Failures(waits: seq<Waited>): nat {
    if waits == [] then 0 else (if waits[0].Finished? && !waits[0].ok then 1 else 0) + Failures(waits[1..])
  }

  /** There is a wait for every child that can be made, and none finds that there is no child. */
  predicate Enough(forks: seq<bool>, waits: seq<Waited>) {
    NoChild !in waits && Finishes(waits) >= |forks| - Unmade(forks)
  }

  lemma {:induction false} UnmadeGrows(forks: seq<bool>, k: nat)
    requires k <= |forks|
    ensures Unmade(forks[..k]) <= Unmade(forks) <= Unmade(forks[..k]) + |forks| - k
  {
    if k == |forks| {
      assert forks[..k] == forks;
    } else {
      var front := forks[..|forks| - 1];
      UnmadeGrows(front, k);
      assert front[..k] == forks[..k];
    }
  }

  lemma OneFork(forks: seq<bool>, k: nat)
    requires k < |forks|
    ensures Unmade(forks[..k + 1]) == Unmade(forks[..k]) + if forks[k] then 0 else 1
  {
    assert forks[..k + 1][..k] == forks[..k];
  }

  /** Every child that was made has been waited for, so nothing runs, and no chunk is left. */
  lemma AllDone(forks: seq<bool>, launched: nat, running: nat, finished: nat, cap: nat)
    requires launched <= |forks| && running + finished + Unmade(forks[..launched]) == launched
    requires finished >= |forks| - Unmade(forks) && 0 < cap && (running < cap ==> launched == |forks|)
    ensures launched == |forks| && running == 0
  {
    UnmadeGrows(forks, launched);
  }

  /** The launching loop of run_parallel_warm: `forks` says of each chunk whether a child could be made, and
      `waits` what each wait gave. Chunks are launched once each, in order, never more than the cap at once,
      and every one of them is running, finished or was never made. Where the waits suffice all of them are
      launched and none is left running; the run succeeds exactly where nothing failed. */
  method RunWindow(chunks: nat, cap: nat, forks: seq<bool>, waits: seq<Waited>)
    returns (launched: seq<nat>, failures: nat, running: nat, finished: nat, unmade: nat, bad: nat, ok: bool, ghost most: nat, ghost waited: nat)
    requires 0 < cap && |forks| == chunks
    ensures running <= most <= cap
    ensures |launched| <= chunks && forall i :: 0 <= i < |launched| ==> launched[i] == i
    ensures running + finished + unmade == |launched| && unmade == Unmade(forks[..|launched|])
    ensures waited <= |waits| && finished == Finishes(waits[..waited]) && bad == Failures(waits[..waited])
    ensures bad <= finished && failures == unmade + bad
    ensures Enough(forks, waits) ==> |launched| == chunks && running == 0
    ensures ok <==> failures == 0
    ensures ok && Enough(forks, waits) ==> finished == chunks && bad == 0
  {
    hide Unmade, Finishes, Failures;
    launched, failures, running, finished, unmade, bad, most := [], 0, 0, 0, 0, 0, 0;
    waited := 0;
    NoneYet(forks, waits);
    ghost var here := waits;
    var w := 0;
    while |launched| < chunks || running > 0
      invariant running <= most <= cap && |launched| <= chunks && w == waited <= |waits| && here == waits[w..]
      invariant forall i :: 0 <= i < |launched| ==> launched[i] == i
      invariant running + finished + unmade == |launched| && unmade == Unmade(forks[..|launched|])
      invariant bad <= finished && failures == unmade + bad
      invariant finished == Finishes(waits[..w]) && bad == Failures(waits[..w])
      invariant Finishes(waits) == finished + Finishes(here)
      decreases |waits| - w
    {
      while running < cap && |launched| < chunks
        invariant running <= most <= cap && |launched| <= chunks
        invariant forall i :: 0 <= i < |launched| ==> launched[i] == i
        invariant running + finished + unmade == |launched| && unmade == Unmade(forks[..|launched|])
        invariant bad <= finished && failures == unmade + bad
        decreases chunks - |launched|
      {
        var i := |launched|;
        OneFork(forks, i);
        launched := launched + [i];
        if forks[i] {
          running := running + 1;
          most := Max(most, running);
        } else {
          unmade := unmade + 1;
          failures := failures + 1;
        }
      }
      if w == |waits| {
        NoWaits(here);
        if Enough(forks, waits) { AllDone(forks, |launched|, running, finished, cap); }
        break;
      }
      if waits[w] == NoChild {
        break;
      }
      if waits[w].Finished? && running == 0 {
        break;
      }
      OneWait(waits, w);
      if waits[w].Finished? {
        running := running - 1;
        finished := finished + 1;
        if !waits[w].ok {
          bad := bad + 1;
          failures := failures + 1;
        }
      }
      here := here[1..];
      w := w + 1;
      waited := w;
    }
    ok := failures == 0;
  }

  lemma NoneYet(forks: seq<bool>, waits: seq<Waited>)
    ensures Unmade(forks[..0]) == 0 && Finishes(waits[..0]) == 0 && Failures(waits[..0]) == 0
  {}

  lemma NoWaits(waits: seq<Waited>)
    requires waits == []
    ensures Finishes(waits) == 0
  {}

  lemma {:induction false} WaitsAdd(waits: seq<Waited>, wait: Waited)
    ensures Finishes(waits + [wait]) == Finishes(waits) + Finishes([wait])
    ensures Failures(waits + [wait]) == Failures(waits) + Failures([wait])
  {
    if waits == [] {
      assert waits + [wait] == [wait];
    } else {
      WaitsAdd(waits[1..], wait);
      assert (waits + [wait])[1..] == waits[1..] + [wait];
    }
  }

  lemma OneWait(waits: seq<Waited>, w: nat)
    requires w < |waits|
    ensures Finishes(waits[..w + 1]) == Finishes(waits[..w]) + if waits[w].Finished? then 1 else 0
    ensures Failures(waits[..w + 1]) == Failures(waits[..w]) + if waits[w].Finished? && !waits[w].ok then 1 else 0
    ensures Finishes(waits[w..]) == (if waits[w].Finished? then 1 else 0) + Finishes(waits[w..][1..])
  {
    WaitsAdd(waits[..w], waits[w]);
    assert waits[..w + 1] == waits[..w] + [waits[w]];
  }
}
