/** How much of its future a restored stack keeps: all of it exactly where no file that reading can come to
    was cut short. */
module CheckpointFuture {
  import opened Bytes
  import opened Mouth
  import opened Source
  import opened SourceStack
  import opened Checkpoint

  // ----- a plain reading -----

  /** Every byte a plain character, and a character at the end of every line. */
  function EveryByte(): Lex { Lex(seq(256, _ => 12), 65, 0, []) }

  /** The lines left cannot run past the largest line number: a line takes at least one byte. */
  predicate LinesFit(m: MouthState) {
    m.lineNumber + |m.data| - m.nextLine <= UINT32_MAX
  }

  predicate LineInHand(m: MouthState) { m.loaded && m.cursor < m.raw }

  /** What is left to read, as a bound on the tokens a plain reading still gives. */
  function Left(m: MouthState): nat
    requires Sound(m)
  {
    2 * (m.length - m.nextLine) + if LineInHand(m) then m.raw - m.cursor else 0
  }

  predicate Spells(m: MouthState) { Sound(m) && CutAtLine(m) && LinesFit(m) }

  lemma PlainCharacter(m: MouthState)
    requires Sound(m) && LineInHand(m)
    ensures MouthNext(m, EveryByte())
         == (Token(CharacterToken(12, m.line[m.cursor]), LocationAt(m, m.cursor)), m.(cursor := m.cursor + 1, mode := MiddleLine), EveryByte())
  {
    hide MouthNext, Turn;
    PlainTurn(m);
    OneTurn(m, EveryByte());
  }

  lemma PlainTurn(m: MouthState)
    requires Sound(m) && LineInHand(m)
    ensures Turn(m, EveryByte())
         == Stop(Token(CharacterToken(12, m.line[m.cursor]), LocationAt(m, m.cursor)), m.(cursor := m.cursor + 1, mode := MiddleLine), EveryByte())
  {
    PlainRead(m);
    hide ReadOver, ControlSequence;
  }

  lemma PlainRead(m: MouthState)
    requires Sound(m) && LineInHand(m)
    ensures ReadOver(m, EveryByte().catcodes) == (m.line[m.cursor], m.(cursor := m.cursor + 1))
  {}

  lemma PlainLine(m: MouthState)
    requires Sound(m) && !LineInHand(m) && m.nextLine < m.length && m.lineNumber < UINT32_MAX
    ensures var loaded := LoadLine(m, 65);
      LineInHand(loaded) && MouthNext(m, EveryByte()) == MouthNext(loaded, EveryByte())
  {
    hide MouthNext, LineEnd, NextStart, Trimmed;
    var left := m.(loaded := false, line := []);
    if m.loaded { OneTurn(m, EveryByte()); }
    OneTurn(left, EveryByte());
    assert LoadLine(left, 65) == LoadLine(m, 65);
  }

  lemma PlainEnd(m: MouthState)
    requires Sound(m) && !LineInHand(m) && m.nextLine == m.length
    ensures MouthNext(m, EveryByte()).0 == EndOfFile && MouthNext(m, EveryByte()).2 == EveryByte()
  {
    hide MouthNext;
    var left := m.(loaded := false, line := []);
    if m.loaded { OneTurn(m, EveryByte()); }
    OneTurn(left, EveryByte());
  }

  predicate RunOut(m: MouthState) { !LineInHand(m) && m.nextLine == m.length }

  lemma LineLeft(m: MouthState)
    requires Sound(m) && !LineInHand(m) && m.nextLine < m.length && m.lineNumber < UINT32_MAX
    ensures Left(LoadLine(m, 65)) <= Left(m) && (LinesFit(m) ==> LinesFit(LoadLine(m, 65)))
  {
    hide LineEnd, NextStart, Trimmed;
  }

  /** Where the file has not run out it gives a token, and then has less to give. */
  lemma PlainToken(m: MouthState)
    requires Spells(m) && !RunOut(m)
    ensures var (result, after, lex) := MouthNext(m, EveryByte());
      && result.Token? && lex == EveryByte()
      && after.data == m.data && after.length == m.length && Spells(after) && Left(after) < Left(m)
  {
    hide MouthNext;
    MouthKeeps(m, EveryByte());
    if LineInHand(m) {
      PlainCharacter(m);
    } else {
      PlainLine(m);
      LineLeft(m);
      PlainCharacter(LoadLine(m, 65));
    }
  }

  // ----- a file cut short, and the whole of it -----

  function WholeFile(m: MouthState): MouthState { m.(length := |m.data|) }

  lemma {:induction false} SameLineEnd(m: MouthState, at: nat)
    requires Sound(m) && CutAtLine(m) && at < m.length
    ensures LineEnd(m.data, at, |m.data|) == LineEnd(m.data, at, m.length)
    ensures m.length < |m.data| ==> LineEnd(m.data, at, m.length) < m.length
    decreases m.length - at
  {
    if m.length < |m.data| && m.data[at] != 10 && m.data[at] != 13 {
      SameLineEnd(m, at + 1);
    }
  }

  lemma SameLoadedLine(m: MouthState, endLine: int)
    requires Sound(m) && CutAtLine(m) && m.nextLine < m.length && m.lineNumber < UINT32_MAX
    ensures LoadLine(WholeFile(m), endLine) == WholeFile(LoadLine(m, endLine))
  {
    hide LineEnd, Trimmed;
    SameLineEnd(m, m.nextLine);
  }

  /** Until the one runs out, both give the same tokens. */
  lemma PlainAlike(m: MouthState)
    requires Spells(m) && !RunOut(m)
    ensures var (result, after, lex) := MouthNext(m, EveryByte());
      MouthNext(WholeFile(m), EveryByte()) == (result, WholeFile(after), lex)
  {
    hide MouthNext, LoadLine;
    if LineInHand(m) {
      PlainCharacter(m);
      PlainCharacter(WholeFile(m));
    } else {
      PlainLine(m);
      PlainLine(WholeFile(m));
      SameLoadedLine(m, 65);
      var loaded := LoadLine(m, 65);
      PlainCharacter(loaded);
      PlainCharacter(WholeFile(loaded));
    }
  }

  // ----- views that come back -----

  function ViewBack(view: View): View {
    match view
    case FileView(path, mouth) => FileView(path, WholeFile(mouth))
    case _ => view
  }

  predicate UncutView(view: View) { view.FileView? ==> view.mouth.length == |view.mouth.data| }

  predicate ReadsPlainly(view: View) {
    match view
    case FileView(_, mouth) => Spells(mouth)
    case TokenView(_, _, _, _, _) => true
    case BoundaryView => false
  }

  function LeftOf(view: View): nat {
    match view
    case FileView(_, mouth) => if Sound(mouth) then Left(mouth) else 0
    case TokenView(words, cursor, _, _, _) => if cursor <= |words| then |words| - cursor else 0
    case BoundaryView => 0
  }

  /** Two stacks that differ, as far as reading comes, only in that the one has a file cut short at `cut`. */
  predicate Differ(a: seq<View>, b: seq<View>, cut: nat) {
    && cut < |a| == |b|
    && a[cut].FileView? && Spells(a[cut].mouth) && a[cut].mouth.length < |a[cut].mouth.data|
    && b[cut] == ViewBack(a[cut])
    && (forall j :: cut < j < |a| ==> ReadsPlainly(a[j]) && a[j] == b[j])
  }

  function Over(views: seq<View>, fileEnds: nat): Reading { Reading(views, fileEnds, EveryByte()) }

  predicate BothOK(a: seq<View>, b: seq<View>) {
    ReadingOK(Over(a, 0)) && ReadingOK(Over(b, 0))
  }

  /** One call has told the two apart, or they still differ and the one has less left to read. */
  predicate Nearing(a: seq<View>, b: seq<View>, fileEnds: nat, cut: nat, most: nat, left: nat) {
    var (resultA, afterA) := NextOf(Over(a, fileEnds));
    var (resultB, afterB) := NextOf(Over(b, fileEnds));
    || afterA.fileEnds > afterB.fileEnds
    || (&& resultA == resultB && afterA.fileEnds == afterB.fileEnds && StillDiffer(afterA.frames, afterB.frames, cut, most, left))
  }

  predicate StillDiffer(a: seq<View>, b: seq<View>, cut: nat, most: nat, left: nat) {
    && Differ(a, b, cut) && BothOK(a, b)
    && (|a| < most || (|a| == most && LeftOf(Top(a)) < left))
  }

  lemma {:induction false} EndsCounted(r: Reading)
    requires ReadingOK(r)
    ensures NextRead(r).1.fileEnds >= r.fileEnds
    decreases |r.frames|
  {
    hide MouthNext;
    if r.frames != [] {
      assert ViewOK(r.frames[|r.frames| - 1]);
      match Top(r.frames)
      case BoundaryView =>
      case TokenView(words, cursor, _, _, _) =>
        if cursor >= |words| { EndsCounted(r.(frames := Below(r.frames))); }
      case FileView(path, mouth) =>
        var (result, after, lex) := MouthNext(mouth, r.lex);
        if result == EndOfFile { EndsCounted(Reading(Below(r.frames), r.fileEnds + 1, lex)); }
    }
  }

  lemma StillOK(views: seq<View>, view: View)
    requires views != [] && ReadingOK(Over(views, 0)) && ViewOK(view)
    ensures ReadingOK(Over(Below(views), 0)) && ReadingOK(Over(Below(views) + [view], 0))
  {
    hide ViewOK;
  }

  lemma OKAnywhere(views: seq<View>, fileEnds: nat)
    requires ReadingOK(Over(views, 0))
    ensures ReadingOK(Over(views, fileEnds))
  {}

  /** The view on top of both read on by one. */
  lemma TopsDiffer(a: seq<View>, b: seq<View>, cut: nat, top: View)
    requires Differ(a, b, cut) && BothOK(a, b) && |a| - 1 > cut && ReadsPlainly(top) && LeftOf(top) < LeftOf(Top(a))
    ensures StillDiffer(Below(a) + [top], Below(b) + [top], cut, |a|, LeftOf(Top(a)))
  {
    hide Spells, LeftOf;
    TopOK(top);
    StillOK(a, top);
    StillOK(b, top);
  }

  lemma TopOK(view: View)
    requires ReadsPlainly(view)
    ensures ViewOK(view)
  {}

  lemma BelowDiffer(a: seq<View>, b: seq<View>, cut: nat)
    requires Differ(a, b, cut) && BothOK(a, b) && |a| - 1 > cut
    ensures Differ(Below(a), Below(b), cut) && BothOK(Below(a), Below(b))
  {
    hide Spells, ReadsPlainly, ViewBack, ViewOK;
  }

  lemma NearingPopped(a: seq<View>, b: seq<View>, fileEnds: nat, endsNow: nat, cut: nat, left: nat, leftNow: nat)
    requires a != [] && b != []
    requires Nearing(Below(a), Below(b), endsNow, cut, |a| - 1, leftNow)
    requires NextOf(Over(a, fileEnds)) == NextOf(Over(Below(a), endsNow))
    requires NextOf(Over(b, fileEnds)) == NextOf(Over(Below(b), endsNow))
    ensures Nearing(a, b, fileEnds, cut, |a|, left)
  {
    hide Differ, BothOK, LeftOf, NextOf;
  }

  lemma {:induction false} StepDiffers(a: seq<View>, b: seq<View>, fileEnds: nat, cut: nat)
    requires Differ(a, b, cut) && BothOK(a, b)
    ensures Nearing(a, b, fileEnds, cut, |a|, LeftOf(Top(a)))
    decreases |a|
  {
    hide NextOf, MouthNext, StillDiffer, LeftOf, BothOK, Spells;
    if |a| - 1 == cut {
      CutReads(a, b, fileEnds, cut);
    } else {
      BelowDiffer(a, b, cut);
      TopAlike(a, b, cut);
      match Top(a)
      case TokenView(words, cursor, _, _, _) =>
        if cursor >= |words| {
          StepDiffers(Below(a), Below(b), fileEnds, cut);
          SpentBoth(a, b, fileEnds);
          NearingPopped(a, b, fileEnds, fileEnds, cut, LeftOf(Top(a)), LeftOf(Top(Below(a))));
        } else {
          ListReads(a, b, fileEnds, cut);
        }
      case FileView(path, mouth) =>
        if RunOut(mouth) {
          StepDiffers(Below(a), Below(b), fileEnds + 1, cut);
          EndBoth(a, b, fileEnds);
          NearingPopped(a, b, fileEnds, fileEnds + 1, cut, LeftOf(Top(a)), LeftOf(Top(Below(a))));
        } else {
          FileReads(a, b, fileEnds, cut);
        }
    }
  }

  lemma TopAlike(a: seq<View>, b: seq<View>, cut: nat)
    requires Differ(a, b, cut) && |a| - 1 > cut
    ensures a != [] && b != [] && Top(a) == Top(b) && ReadsPlainly(Top(a)) && !Top(a).BoundaryView?
  {
    hide Spells;
  }

  lemma SpentBoth(a: seq<View>, b: seq<View>, fileEnds: nat)
    requires a != [] && b != [] && BothOK(a, b) && Top(a) == Top(b) && Top(a).TokenView? && Top(a).cursor >= |Top(a).words|
    ensures NextOf(Over(a, fileEnds)) == NextOf(Over(Below(a), fileEnds))
    ensures NextOf(Over(b, fileEnds)) == NextOf(Over(Below(b), fileEnds))
  {
    hide NextOf, ViewOK;
    OKAnywhere(a, fileEnds);
    OKAnywhere(b, fileEnds);
    NextSpent(Over(a, fileEnds));
    NextSpent(Over(b, fileEnds));
  }

  lemma EndOne(views: seq<View>, fileEnds: nat)
    requires views != [] && ReadingOK(Over(views, 0)) && Top(views).FileView? && Sound(Top(views).mouth) && RunOut(Top(views).mouth)
    ensures NextOf(Over(views, fileEnds)) == NextOf(Over(Below(views), fileEnds + 1))
  {
    hide NextOf, ViewOK, MouthNext;
    OKAnywhere(views, fileEnds);
    PlainEnd(Top(views).mouth);
    NextReads(Over(views, fileEnds));
  }

  lemma EndBoth(a: seq<View>, b: seq<View>, fileEnds: nat)
    requires a != [] && b != [] && BothOK(a, b) && Top(a) == Top(b) && Top(a).FileView? && RunOut(Top(a).mouth) && ReadsPlainly(Top(a))
    ensures NextOf(Over(a, fileEnds)) == NextOf(Over(Below(a), fileEnds + 1))
    ensures NextOf(Over(b, fileEnds)) == NextOf(Over(Below(b), fileEnds + 1))
  {
    hide NextOf, ViewOK;
    EndOne(a, fileEnds);
    EndOne(b, fileEnds);
  }

  lemma ListReads(a: seq<View>, b: seq<View>, fileEnds: nat, cut: nat)
    requires Differ(a, b, cut) && BothOK(a, b) && |a| - 1 > cut && Top(a) == Top(b)
    requires ReadsPlainly(Top(a)) && Top(a).TokenView? && Top(a).cursor < |Top(a).words|
    ensures Nearing(a, b, fileEnds, cut, |a|, LeftOf(Top(a)))
  {
    var top := Advanced(Top(a));
    hide NextOf, ViewOK, StillDiffer, Differ;
    OKAnywhere(a, fileEnds);
    OKAnywhere(b, fileEnds);
    NextToken(Over(a, fileEnds));
    NextToken(Over(b, fileEnds));
    TopsDiffer(a, b, cut, top);
  }

  /** A call to a file that gives a token. */
  lemma FileGives(views: seq<View>, fileEnds: nat)
    requires views != [] && ReadingOK(Over(views, 0)) && Top(views).FileView? && Spells(Top(views).mouth) && !RunOut(Top(views).mouth)
    ensures var (result, after, lex) := MouthNext(Top(views).mouth, EveryByte());
      NextOf(Over(views, fileEnds)) == (result, Over(Below(views) + [FileView(Top(views).path, after)], fileEnds))
  {
    hide NextOf, ViewOK, MouthNext;
    OKAnywhere(views, fileEnds);
    PlainToken(Top(views).mouth);
    NextReads(Over(views, fileEnds));
  }

  lemma FileReads(a: seq<View>, b: seq<View>, fileEnds: nat, cut: nat)
    requires Differ(a, b, cut) && BothOK(a, b) && a != [] && b != [] && |a| - 1 > cut && Top(a) == Top(b)
    requires Top(a).FileView? && Spells(Top(a).mouth) && !RunOut(Top(a).mouth)
    ensures Nearing(a, b, fileEnds, cut, |a|, LeftOf(Top(a)))
  {
    hide NextOf, ViewOK, StillDiffer, Differ, MouthNext, Left, CutAtLine, LinesFit;
    PlainToken(Top(a).mouth);
    FileGives(a, fileEnds);
    FileGives(b, fileEnds);
    TopsDiffer(a, b, cut, FileView(Top(a).path, MouthNext(Top(a).mouth, EveryByte()).1));
  }

  lemma WholeSpells(m: MouthState)
    requires Spells(m)
    ensures Spells(WholeFile(m)) && (m.length < |m.data| ==> !RunOut(WholeFile(m)))
  {}

  /** At the file cut short: it runs out where the whole of it gives a token, or both give the same. */
  lemma CutReads(a: seq<View>, b: seq<View>, fileEnds: nat, cut: nat)
    requires Differ(a, b, cut) && BothOK(a, b) && |a| - 1 == cut
    ensures Nearing(a, b, fileEnds, cut, |a|, LeftOf(Top(a)))
  {
    hide NextOf, ViewOK, StillDiffer, MouthNext, Left, CutAtLine, LinesFit, RunOut;
    var m := Top(a).mouth;
    WholeSpells(m);
    FileGives(b, fileEnds);
    if RunOut(m) {
      EndOne(a, fileEnds);
      EndsKept(Below(a), fileEnds + 1);
    } else {
      FileGives(a, fileEnds);
      PlainToken(m);
      PlainAlike(m);
      CutTopsDiffer(a, b, cut, MouthNext(m, EveryByte()).1);
    }
  }

  lemma EndsKept(views: seq<View>, fileEnds: nat)
    ensures NextOf(Over(views, fileEnds)).1.fileEnds >= fileEnds
  {
    hide NextRead;
    if ReadingOK(Over(views, fileEnds)) { EndsCounted(Over(views, fileEnds)); }
  }

  lemma CutTopsDiffer(a: seq<View>, b: seq<View>, cut: nat, after: MouthState)
    requires Differ(a, b, cut) && BothOK(a, b) && |a| - 1 == cut
    requires Spells(after) && after.data == Top(a).mouth.data && after.length == Top(a).mouth.length
    requires Left(after) < Left(Top(a).mouth)
    ensures StillDiffer(Below(a) + [FileView(Top(a).path, after)], Below(b) + [FileView(Top(b).path, WholeFile(after))], cut, |a|, LeftOf(Top(a)))
  {
    hide Left, CutAtLine, LinesFit;
    StillOK(a, FileView(Top(a).path, after));
    StillOK(b, FileView(Top(b).path, WholeFile(after)));
  }

  // ----- the futures differ -----

  function Plainly(n: nat): (lexes: seq<Lex>)
    ensures |lexes| == n
  {
    seq(n, _ => EveryByte())
  }

  lemma {:induction false} FuturesDiffer(a: seq<View>, b: seq<View>, fileEnds: nat, lexA: Lex, lexB: Lex, cut: nat) returns (n: nat)
    requires Differ(a, b, cut) && BothOK(a, b)
    ensures Future(Reading(a, fileEnds, lexA), Plainly(n)) != Future(Reading(b, fileEnds, lexB), Plainly(n))
    decreases |a|, LeftOf(Top(a))
  {
    hide NextOf, Differ, BothOK, LeftOf, Nearing, Future;
    assert a != [] by { NotEmpty(a, b, cut); }
    StepDiffers(a, b, fileEnds, cut);
    var (resultA, afterA) := NextOf(Over(a, fileEnds));
    var (resultB, afterB) := NextOf(Over(b, fileEnds));
    if afterA.fileEnds > afterB.fileEnds {
      n := 1;
      FirstTold(Reading(a, fileEnds, lexA), 0);
      FirstTold(Reading(b, fileEnds, lexB), 0);
      assert Future(Reading(a, fileEnds, lexA), Plainly(n))[0] != Future(Reading(b, fileEnds, lexB), Plainly(n))[0];
    } else {
      NotYet(a, b, fileEnds, cut, |a|, LeftOf(Top(a)));
      var k := FuturesDiffer(afterA.frames, afterB.frames, afterA.fileEnds, afterA.lex, afterB.lex, cut);
      n := k + 1;
      FirstTold(Reading(a, fileEnds, lexA), k);
      FirstTold(Reading(b, fileEnds, lexB), k);
      assert Future(Reading(a, fileEnds, lexA), Plainly(n))[1..] == Future(afterA, Plainly(k));
      assert Future(Reading(b, fileEnds, lexB), Plainly(n))[1..] == Future(afterB, Plainly(k));
    }
  }

  lemma NotEmpty(a: seq<View>, b: seq<View>, cut: nat)
    requires Differ(a, b, cut)
    ensures a != []
  {}

  lemma NotYet(a: seq<View>, b: seq<View>, fileEnds: nat, cut: nat, most: nat, left: nat)
    requires Nearing(a, b, fileEnds, cut, most, left)
    requires NextOf(Over(a, fileEnds)).1.fileEnds <= NextOf(Over(b, fileEnds)).1.fileEnds
    ensures var afterA, afterB := NextOf(Over(a, fileEnds)).1, NextOf(Over(b, fileEnds)).1;
      && afterA.fileEnds == afterB.fileEnds && Differ(afterA.frames, afterB.frames, cut) && BothOK(afterA.frames, afterB.frames)
      && afterA.frames != [] && (|afterA.frames| < most || (|afterA.frames| == most && LeftOf(Top(afterA.frames)) < left))
  {
    hide NextOf, BothOK, LeftOf;
  }

  lemma FirstTold(r: Reading, k: nat)
    ensures var (result, after) := NextOf(r.(lex := EveryByte()));
      Future(r, Plainly(k + 1))
      == [Told(result, after.frames != [] && Top(after.frames).BoundaryView?, after.fileEnds)] + Future(after, Plainly(k))
  {
    hide NextOf;
    assert Plainly(k + 1)[1..] == Plainly(k);
  }

  // ----- what a boundary hides -----

  /** No boundary stands between the view and the top. */
  predicate Open(views: seq<View>, i: nat) {
    forall j :: i <= j < |views| ==> !views[j].BoundaryView?
  }

  predicate Stopped(views: seq<View>) { views != [] && views[0].BoundaryView? }

  lemma JoinsOK(low: seq<View>, views: seq<View>)
    ensures ReadingOK(Over(low + views, 0)) <==> ReadingOK(Over(low, 0)) && ReadingOK(Over(views, 0))
  {
    hide ViewOK;
    if ReadingOK(Over(low + views, 0)) {
      assert forall i :: 0 <= i < |low| ==> low[i] == (low + views)[i];
      assert forall i :: 0 <= i < |views| ==> views[i] == (low + views)[|low| + i];
    }
  }

  lemma AnyOK(r: Reading)
    ensures ReadingOK(r) <==> ReadingOK(Over(r.frames, 0))
  {}

  lemma JoinTop(low: seq<View>, views: seq<View>)
    requires views != []
    ensures Top(low + views) == Top(views) && Below(low + views) == low + Below(views)
  {}

  lemma BelowStops(views: seq<View>)
    requires Stopped(views) && !Top(views).BoundaryView?
    ensures Stopped(Below(views))
  {}

  /** What lies under a boundary changes nothing of what is read above it. */
  lemma {:induction false} NextAbove(low: seq<View>, views: seq<View>, fileEnds: nat, lex: Lex)
    requires Stopped(views) && ReadingOK(Over(low + views, 0))
    ensures var (result, after) := NextOf(Reading(views, fileEnds, lex));
      && NextOf(Reading(low + views, fileEnds, lex)) == (result, after.(frames := low + after.frames))
      && Stopped(after.frames) && ReadingOK(Over(low + after.frames, 0))
    decreases |views|
  {
    hide NextOf, ReadingOK, ViewOK, MouthNext;
    JoinsOK(low, views);
    AnyOK(Reading(low + views, fileEnds, lex));
    AnyOK(Reading(views, fileEnds, lex));
    JoinTop(low, views);
    match Top(views)
    case BoundaryView =>
      NextStops(Reading(low + views, fileEnds, lex));
      NextStops(Reading(views, fileEnds, lex));
    case TokenView(words, cursor, _, _, _) =>
      BelowStops(views);
      TopInBounds(views);
      BelowOK(low, views);
      if cursor >= |words| {
        NextSpent(Reading(low + views, fileEnds, lex));
        NextSpent(Reading(views, fileEnds, lex));
        NextAbove(low, Below(views), fileEnds, lex);
      } else {
        NextToken(Reading(low + views, fileEnds, lex));
        NextToken(Reading(views, fileEnds, lex));
        AdvancedOK(Top(views));
        JoinedOn(low, views, Advanced(Top(views)));
      }
    case FileView(path, mouth) =>
      BelowStops(views);
      TopInBounds(views);
      BelowOK(low, views);
      var (result, after, lexAfter) := MouthNext(mouth, lex);
      NextReads(Reading(low + views, fileEnds, lex));
      NextReads(Reading(views, fileEnds, lex));
      if result == EndOfFile {
        NextAbove(low, Below(views), fileEnds + 1, lexAfter);
      } else {
        FileViewOK(path, after);
        JoinedOn(low, views, FileView(path, after));
      }
  }

  lemma TopInBounds(views: seq<View>)
    requires views != [] && ReadingOK(Over(views, 0))
    ensures ViewOK(Top(views))
    ensures Top(views).FileView? ==> Sound(Top(views).mouth)
  {}

  lemma AdvancedOK(view: View)
    requires ViewOK(view) && view.TokenView? && view.cursor < |view.words|
    ensures ViewOK(Advanced(view))
  {}

  lemma FileViewOK(path: seq<byte>, m: MouthState)
    requires Sound(m)
    ensures ViewOK(FileView(path, m))
  {}

  lemma BelowOK(low: seq<View>, views: seq<View>)
    requires views != [] && ReadingOK(Over(low + views, 0))
    ensures ReadingOK(Over(low + Below(views), 0))
  {
    hide ViewOK;
    assert forall i :: 0 <= i < |low + Below(views)| ==> (low + Below(views))[i] == (low + views)[i];
  }

  lemma JoinedOn(low: seq<View>, views: seq<View>, top: View)
    requires views != [] && Stopped(Below(views)) && ReadingOK(Over(low + views, 0)) && ViewOK(top)
    ensures low + Below(views) + [top] == low + (Below(views) + [top])
    ensures Stopped(Below(views) + [top]) && ReadingOK(Over(low + (Below(views) + [top]), 0))
  {
    hide ViewOK;
    StillOK(low + views, top);
    JoinTop(low, views);
  }

  lemma {:induction false} FutureAbove(low: seq<View>, views: seq<View>, fileEnds: nat, lex: Lex, lexes: seq<Lex>)
    requires Stopped(views) && ReadingOK(Over(low + views, 0))
    ensures Future(Reading(low + views, fileEnds, lex), lexes) == Future(Reading(views, fileEnds, lex), lexes)
    decreases |lexes|
  {
    hide NextOf, ReadingOK;
    if lexes != [] {
      NextAbove(low, views, fileEnds, lexes[0]);
      var after := NextOf(Reading(views, fileEnds, lexes[0])).1;
      JoinTop(low, after.frames);
      FutureAbove(low, after.frames, after.fileEnds, after.lex, lexes[1..]);
    }
  }

  // ----- exactly when nothing is lost -----

  function ViewsBack(views: seq<View>): (back: seq<View>)
    ensures |back| == |views|
    ensures forall i :: 0 <= i < |views| ==> back[i] == ViewBack(views[i])
  {
    seq(|views|, i requires 0 <= i < |views| => ViewBack(views[i]))
  }

  /** A file that reading can come to: sound, cut only where a line ends, its lines few enough to count. */
  predicate CountedAbove(views: seq<View>) {
    forall i :: 0 <= i < |views| && Open(views, i) && views[i].FileView? ==> Spells(views[i].mouth)
  }

  predicate UncutAbove(views: seq<View>) {
    forall i :: 0 <= i < |views| && Open(views, i) ==> UncutView(views[i])
  }

  ghost predicate SameFuture(a: Reading, b: Reading) {
    forall lexes :: Future(a, lexes) == Future(b, lexes)
  }

  lemma BackOK(views: seq<View>)
    requires ReadingOK(Over(views, 0))
    ensures ReadingOK(Over(ViewsBack(views), 0))
  {
    forall i | 0 <= i < |views|
      ensures ViewOK(ViewsBack(views)[i])
    {
      assert ViewOK(views[i]);
    }
  }

  /** The lowest view no boundary stands above. */
  function Lowest(views: seq<View>): (k: nat)
    ensures k <= |views|
    ensures forall j :: k <= j < |views| ==> !views[j].BoundaryView?
    ensures k > 0 ==> views[k - 1].BoundaryView?
  {
    if views == [] || Top(views).BoundaryView? then |views| else Lowest(Below(views))
  }

  lemma UncutBack(views: seq<View>, k: nat)
    requires k <= |views| && forall j :: k <= j < |views| ==> UncutView(views[j])
    ensures ViewsBack(views)[k..] == views[k..]
  {}

  lemma SplitAt(views: seq<View>, k: nat)
    requires k <= |views|
    ensures views == views[..k] + views[k..]
  {}

  lemma LowestOpen(views: seq<View>)
    requires UncutAbove(views)
    ensures forall j :: Lowest(views) <= j < |views| ==> UncutView(views[j])
  {
    hide UncutView, Lowest;
    forall j | Lowest(views) <= j < |views|
      ensures UncutView(views[j])
    {
      assert Open(views, j);
    }
  }

  lemma UncutKeeps(views: seq<View>, fileEnds: nat, lex: Lex, lexes: seq<Lex>)
    requires ReadingOK(Over(views, 0)) && UncutAbove(views)
    ensures Future(Reading(ViewsBack(views), fileEnds, lex), lexes) == Future(Reading(views, fileEnds, lex), lexes)
  {
    hide Future, ViewOK, UncutView, ReadingOK, Lowest, ViewBack, UncutAbove;
    LowestOpen(views);
    BackOK(views);
    var k := Lowest(views);
    if k == 0 {
      UncutBack(views, 0);
      assert ViewsBack(views)[0..] == ViewsBack(views) && views[0..] == views;
    } else {
      hide ViewsBack;
      assert views[k - 1].BoundaryView? && ViewBack(views[k - 1]).BoundaryView? by { BoundaryBack(views, k - 1); }
      var low, above := views[..k - 1], views[k - 1..];
      UncutFrom(views, k - 1);
      SplitAt(views, k - 1);
      SplitAt(ViewsBack(views), k - 1);
      FutureAbove(low, above, fileEnds, lex, lexes);
      FutureAbove(ViewsBack(views)[..k - 1], above, fileEnds, lex, lexes);
    }
  }

  lemma BoundaryBack(views: seq<View>, i: nat)
    requires i < |views| && views[i].BoundaryView?
    ensures ViewBack(views[i]).BoundaryView?
  {}

  lemma UncutFrom(views: seq<View>, k: nat)
    requires k < |views| && views[k].BoundaryView? && forall j :: k + 1 <= j < |views| ==> UncutView(views[j])
    ensures ViewsBack(views)[k..] == views[k..]
  {
    assert UncutView(views[k]);
    UncutBack(views, k);
  }

  /** The uppermost of the views that were cut short. */
  lemma {:induction false} UppermostCut(views: seq<View>, i: nat) returns (cut: nat)
    requires i < |views| && !UncutView(views[i])
    ensures i <= cut < |views| && !UncutView(views[cut]) && forall j :: cut < j < |views| ==> UncutView(views[j])
    decreases |views|
  {
    hide UncutView;
    if !UncutView(Top(views)) {
      cut := |views| - 1;
    } else {
      cut := UppermostCut(Below(views), i);
    }
  }

  lemma CutDiffers(views: seq<View>, i: nat) returns (cut: nat)
    requires ReadingOK(Over(views, 0)) && CountedAbove(views) && i < |views| && Open(views, i) && !UncutView(views[i])
    ensures Differ(views, ViewsBack(views), cut)
  {
    hide Spells;
    cut := UppermostCut(views, i);
    forall j | cut <= j < |views|
      ensures Open(views, j) && ViewOK(views[j]) && (views[j].FileView? ==> Spells(views[j].mouth)) && !views[j].BoundaryView?
    {
      assert Open(views, j);
    }
  }

  /** A stack comes back with its whole future exactly where no file that reading can come to was cut
      short. */
  lemma SameFutureExactly(views: seq<View>, fileEnds: nat, lex: Lex)
    requires ReadingOK(Over(views, 0)) && CountedAbove(views)
    ensures SameFuture(Reading(ViewsBack(views), fileEnds, lex), Reading(views, fileEnds, lex)) <==> UncutAbove(views)
  {
    hide Future, ReadingOK, CountedAbove, UncutView, Differ, Open;
    if UncutAbove(views) {
      forall lexes
        ensures Future(Reading(ViewsBack(views), fileEnds, lex), lexes) == Future(Reading(views, fileEnds, lex), lexes)
      {
        UncutKeeps(views, fileEnds, lex, lexes);
      }
    } else {
      var i :| 0 <= i < |views| && Open(views, i) && !UncutView(views[i]);
      var cut := CutDiffers(views, i);
      BackOK(views);
      var n := FuturesDiffer(views, ViewsBack(views), fileEnds, lex, lex, cut);
    }
  }

  // ----- a stack written and restored -----

  /** No boundary stands between the frame and the top. */
  predicate InReach(frames: seq<Frame>, i: nat) {
    forall j :: i <= j < |frames| ==> !frames[j].Boundary?
  }

  /** The lines left in each file that reading can come to have numbers. */
  predicate LinesCounted(frames: seq<Frame>) {
    forall i :: 0 <= i < |frames| && InReach(frames, i) && frames[i].File? ==> LinesFit(frames[i].mouth)
  }

  lemma BackViewed(frames: seq<Frame>, store: seq<u32>, other: seq<u32>, framesAt: nat, storeAt: nat)
    requires FramesOK(frames, framesAt, storeAt) && Regions(frames) && StoreEnd(frames) <= |store|
    ensures Views(FramesBack(frames, store), other) == ViewsBack(Views(frames, store))
  {
    hide Regions, StoreEnd;
    forall i | 0 <= i < |frames|
      ensures ViewOf(FrameBack(frames[i], store), other) == ViewBack(ViewOf(frames[i], store))
    {
      assert FrameOK(frames[i], i, framesAt, storeAt);
      if InStore(frames[i]) { RegionsAscend(frames, i, |frames|); }
    }
  }

  lemma OpenViews(frames: seq<Frame>, store: seq<u32>, i: nat)
    requires i < |frames|
    ensures Open(Views(frames, store), i) <==> InReach(frames, i)
    ensures Views(frames, store)[i].FileView? <==> frames[i].File?
    ensures frames[i].File? ==> Views(frames, store)[i].mouth == frames[i].mouth
    ensures UncutView(Views(frames, store)[i]) <==> Uncut(frames[i])
  {
    hide ViewOf;
    forall j | 0 <= j < |frames|
      ensures Views(frames, store)[j].BoundaryView? <==> frames[j].Boundary?
    {
      ViewKind(frames[j], store);
    }
    FileViewed(frames[i], store);
  }

  lemma FileViewed(frame: Frame, store: seq<u32>)
    ensures ViewOf(frame, store).FileView? <==> frame.File?
    ensures frame.File? ==> ViewOf(frame, store).mouth == frame.mouth
  {}

  /** A stack restored from what was written has the whole future of the one that wrote it exactly where no
      file above its innermost boundary was cut short. */
  lemma RestoredExactly(frames: seq<Frame>, store: seq<u32>, fileEnds: nat, pushes: nat, files: Files, lex: Lex, framesAt: nat, storeAt: nat,
                        other: seq<u32>)
    requires FramesOK(frames, framesAt, storeAt) && Regions(frames) && StoreEnd(frames) <= |store|
    requires Restorable(frames, fileEnds, pushes, files) && LinesCounted(frames)
    ensures var saved := Deserialized(Serialized(frames, store, fileEnds, pushes), files);
      && saved.Some? && saved.value.pushes == pushes
      && (SameFuture(Reading(Views(saved.value.frames, other), saved.value.fileEnds, lex), Reading(Views(frames, store), fileEnds, lex))
          <==> forall i :: 0 <= i < |frames| && InReach(frames, i) ==> Uncut(frames[i]))
  {
    hide Future, Deserialized, Serialized, FramesOK, Regions, StoreEnd, Restorable, ViewOK, Spells, Open, InReach, Uncut, UncutView, SameFuture;
    SerializedBack(frames, store, fileEnds, pushes, files, framesAt, storeAt);
    BackViewed(frames, store, other, framesAt, storeAt);
    ViewsOK(frames, framesAt, storeAt, store, 0, EveryByte());
    forall i | 0 <= i < |frames|
      ensures Open(Views(frames, store), i) <==> InReach(frames, i)
      ensures UncutView(Views(frames, store)[i]) <==> Uncut(frames[i])
      ensures InReach(frames, i) && frames[i].File? ==> Spells(frames[i].mouth)
      ensures Views(frames, store)[i].FileView? <==> frames[i].File?
      ensures frames[i].File? ==> Views(frames, store)[i].mouth == frames[i].mouth
    {
      OpenViews(frames, store, i);
      if frames[i].File? && InReach(frames, i) { FileSpells(frames, framesAt, storeAt, i); }
    }
    SameFutureExactly(Views(frames, store), fileEnds, lex);
  }

  lemma FileSpells(frames: seq<Frame>, framesAt: nat, storeAt: nat, k: nat)
    requires FramesOK(frames, framesAt, storeAt) && k < |frames| && frames[k].File? && LinesFit(frames[k].mouth)
    ensures Spells(frames[k].mouth)
  {
    assert FrameOK(frames[k], k, framesAt, storeAt);
  }

  /** The stack of CutShortReadsFurther through the stream: the one that wrote it is told that the file has
      ended, and the one restored from what was written a token of the second line. */
  lemma CutShortToldFurther(path: seq<byte>, files: Files)
    requires |path| < 0xFFFF_FFFF_FFFF_FFFF && files(path) == Some([10, 66])
    ensures var frames := [File(path, Ended(Opened([10, 66])))];
      var saved := Deserialized(Serialized(frames, [], 0, 1), files);
      && FramesOK(frames, 0, 0) && saved.Some?
      && Future(Reading(Views(frames, []), 0, PlainLex()), [PlainLex()]) == [Told(EndOfFile, false, 1)]
      && FirstIsToken(Future(Reading(Views(saved.value.frames, []), saved.value.fileEnds, PlainLex()), [PlainLex()]))
  {
    hide Deserialized, Serialized, MouthNext, NextOf, ReadingOK, PlainLex;
    var cut, whole := Ended(Opened([10, 66])), Opened([10, 66]);
    var frames := [File(path, cut)];
    CutShortReadsFurther();
    assert cut == whole.(length := 1) by { assert LineEnd([10, 66], 0, 2) == 0 && NextStart([10, 66], 0, 2) == 1; }
    assert Restorable(frames, 0, 1, files) && FramesOK(frames, 0, 0) && Regions(frames) && StoreEnd(frames) == 0;
    SerializedBack(frames, [], 0, 1, files, 0, 0);
    assert FramesBack(frames, []) == [File(path, whole)];
    assert Views(frames, []) == [FileView(path, cut)] && Views([File(path, whole)], []) == [FileView(path, whole)];
    OneFile(path, cut, PlainLex());
    OneFile(path, whole, PlainLex());
    OneTold(Reading([FileView(path, cut)], 0, PlainLex()), PlainLex());
    OneTold(Reading([FileView(path, whole)], 0, PlainLex()), PlainLex());
  }

  predicate FirstIsToken(told: seq<Told>) { told != [] && told[0].result.Token? && told[0].fileEnds == 0 }

  lemma OneTold(r: Reading, lex: Lex)
    ensures var (result, after) := NextOf(r.(lex := lex));
      Future(r, [lex]) == [Told(result, after.frames != [] && Top(after.frames).BoundaryView?, after.fileEnds)]
  {
    hide NextOf;
    assert Future(NextOf(r.(lex := lex)).1, [lex][1..]) == [];
  }

  /** A call to a stack of one file. */
  lemma OneFile(path: seq<byte>, m: MouthState, lex: Lex)
    requires Sound(m)
    ensures var (result, after, lexAfter) := MouthNext(m, lex);
      NextOf(Reading([FileView(path, m)], 0, lex))
      == if result == EndOfFile then (EndOfFile, Reading([], 1, lexAfter)) else (result, Reading([FileView(path, after)], 0, lexAfter))
  {
    hide MouthNext;
    var r := Reading([FileView(path, m)], 0, lex);
    assert Below(r.frames) == [] && Top(r.frames) == FileView(path, m);
    assert [] + [FileView(path, MouthNext(m, lex).1)] == [FileView(path, MouthNext(m, lex).1)];
    assert ViewOK(r.frames[0]);
    NextReads(r);
    NextStops(Reading([], 1, MouthNext(m, lex).2));
  }
}
