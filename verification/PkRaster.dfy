/** What a run-length raster means, and that decoding one, run by run, gives exactly that. */
module PkRaster {
  import opened Bytes
  import opened PkNumber
  import opened PkBitmap

  // ----- the meaning of a raster -----

  /** A repeat count before a run: one copy has a form of its own. */
  datatype Mark = NoMark | OneCopy | Copies(count: nat)

  datatype Item = Item(mark: Mark, run: nat)

  /** A pixel, with the repeat count that stands before it. */
  datatype Dot = Dot(black: bool, repeat: nat)

  function Count(mark: Mark): nat {
    match mark
    case NoMark => 0
    case OneCopy => 1
    case Copies(n) => n
  }

  predicate ItemOK(item: Item, dyn: dynamic) {
    && 1 <= item.run <= Largest(dyn)
    && (item.mark.Copies? ==> 1 <= item.mark.count <= Largest(dyn))
  }

  predicate ItemsOK(items: seq<Item>, dyn: dynamic) {
    forall i :: 0 <= i < |items| ==> ItemOK(items[i], dyn)
  }

  function MarkCode(mark: Mark, dyn: dynamic): seq<nybble>
    requires mark.Copies? ==> mark.count >= 1
  {
    match mark
    case NoMark => []
    case OneCopy => [15]
    case Copies(n) => [14] + Code(n, dyn)
  }

  function ItemCode(item: Item, dyn: dynamic): seq<nybble>
    requires ItemOK(item, dyn)
  {
    MarkCode(item.mark, dyn) + Code(item.run, dyn)
  }

  /** The nybbles of a raster. */
  function RasterCode(items: seq<Item>, dyn: dynamic): seq<nybble>
    requires ItemsOK(items, dyn)
  {
    if items == [] then [] else ItemCode(items[0], dyn) + RasterCode(items[1..], dyn)
  }

  function Run(black: bool, n: nat): (s: seq<Dot>)
    ensures |s| == n
    ensures forall i :: 0 <= i < n ==> s[i] == Dot(black, 0)
  {
    seq(n, _ => Dot(black, 0))
  }

  function Marked(dots: seq<Dot>, count: nat): (s: seq<Dot>)
    ensures |s| == |dots|
  {
    if dots == [] then [] else [Dot(dots[0].black, count)] + dots[1..]
  }

  /** The pixels the items stand for: the colour alternates, and a repeat count marks the first
      pixel of the run it stands before. */
  function Dots(items: seq<Item>, black: bool): seq<Dot> {
    if items == [] then []
    else Marked(Run(black, items[0].run), Count(items[0].mark)) + Dots(items[1..], !black)
  }

  function Colours(dots: seq<Dot>): (s: Row)
    ensures |s| == |dots|
    ensures forall i :: 0 <= i < |s| ==> s[i] == dots[i].black
  {
    seq(|dots|, i requires 0 <= i < |dots| => dots[i].black)
  }

  /** The repeat count of a row: the one that stands before one of its pixels. */
  function Repeat(dots: seq<Dot>): nat {
    if dots == [] then 0 else dots[0].repeat + Repeat(dots[1..])
  }

  /** No row has two repeat counts. */
  predicate OneRepeat(dots: seq<Dot>) {
    forall i, j :: 0 <= i < j < |dots| ==> dots[i].repeat == 0 || dots[j].repeat == 0
  }

  function Times(row: Row, n: nat): (rows: seq<Row>)
    ensures |rows| == n
    ensures forall i :: 0 <= i < n ==> rows[i] == row
  {
    seq(n, _ => row)
  }

  predicate WellFormed(dots: seq<Dot>, width: nat)
    requires width > 0
    decreases |dots|
  {
    dots == [] || (width <= |dots| && OneRepeat(dots[..width]) && WellFormed(dots[width..], width))
  }

  /** The pixels cut into rows, each followed by as many copies as its own repeat count says. */
  function Picture(dots: seq<Dot>, width: nat): seq<Row>
    requires width > 0
    decreases |dots|
  {
    if |dots| < width then []
    else Times(Colours(dots[..width]), 1 + Repeat(dots[..width])) + Picture(dots[width..], width)
  }

  // ----- the decoder's steps -----

  datatype Status = Done | BadNumber | RepeatTooLong | TooManyRows | Incomplete

  datatype Outcome<+T> = Ok(value: T) | Failed(status: Status)

  /** What has been drawn: finished rows, the pixels of the row in hand and its repeat count. */
  datatype Drawn = Drawn(rows: seq<Row>, partial: Row, repeat: nat)

  function Solid(black: bool, n: nat): (row: Row)
    ensures |row| == n
    ensures forall i :: 0 <= i < n ==> row[i] == black
  {
    seq(n, _ => black)
  }

  /** A run laid down from where the last one ended. */
  function Paint(drawn: Drawn, run: nat, black: bool, width: nat, height: nat): (r: Outcome<Drawn>)
    requires |drawn.partial| < width && |drawn.rows| < height
    ensures r.Failed? ==> r.status == RepeatTooLong || r.status == TooManyRows
    ensures r.Ok? ==> |r.value.partial| < width && |r.value.rows| <= height
    ensures r.Ok? && |r.value.rows| == height ==> r.value.partial == [] && r.value.repeat == 0
    decreases run
  {
    var room := width - |drawn.partial|;
    if run < room then Ok(drawn.(partial := drawn.partial + Solid(black, run)))
    else if drawn.repeat > height - |drawn.rows| - 1 then Failed(RepeatTooLong)
    else
      var row := drawn.partial + Solid(black, room);
      var rows := drawn.rows + Times(row, drawn.repeat + 1);
      if run == room then Ok(Drawn(rows, [], 0))
      else if |rows| == height then Failed(TooManyRows)
      else Paint(Drawn(rows, [], 0), run - room, black, width, height)
  }

  /** pk_decode_runs from the state it is in. */
  function DecodeFrom(s: seq<nybble>, dyn: dynamic, drawn: Drawn, black: bool, width: nat, height: nat): (r: Outcome<seq<Row>>)
    requires |drawn.partial| < width && |drawn.rows| <= height
    requires |drawn.rows| == height ==> drawn.partial == [] && drawn.repeat == 0
    ensures r.Ok? ==> |r.value| == height
    ensures r != Failed(Incomplete)
    decreases |s|
  {
    if |drawn.rows| == height then
      if drawn.partial == [] && drawn.repeat == 0 then Ok(drawn.rows) else Failed(Incomplete)
    else
      var number := CountedNumber(s, dyn, drawn.repeat);
      if number.None? then Failed(BadNumber)
      else
        var painted := Paint(drawn.(repeat := number.value.repeat), number.value.value, black, width, height);
        if painted.Failed? then Failed(painted.status)
        else DecodeFrom(s[number.value.used..], dyn, painted.value, !black, width, height)
  }

  /** pk_decode_runs: a glyph with no pixels has an empty bitmap whatever its raster holds. */
  function Decode(s: seq<nybble>, dyn: dynamic, black: bool, width: nat, height: nat): (r: Outcome<seq<Row>>)
    ensures r != Failed(Incomplete)
  {
    if width == 0 || height == 0 then Ok(Times([], height))
    else DecodeFrom(s, dyn, Drawn([], [], 0), black, width, height)
  }

  // ----- one row at a time -----

  /** The state holds the pixels that do not fill a row. */
  predicate Matches(drawn: Drawn, left: seq<Dot>, width: nat) {
    && |left| < width
    && drawn.partial == Colours(left)
    && drawn.repeat == Repeat(left)
    && OneRepeat(left)
  }

  lemma {:induction false} RepeatJoins(a: seq<Dot>, b: seq<Dot>)
    ensures Repeat(a + b) == Repeat(a) + Repeat(b)
  {
    if a == [] {
      assert a + b == b;
    } else {
      RepeatJoins(a[1..], b);
      assert (a + b)[1..] == a[1..] + b;
    }
  }

  lemma {:induction false} NoRepeat(dots: seq<Dot>)
    requires forall i :: 0 <= i < |dots| ==> dots[i].repeat == 0
    ensures Repeat(dots) == 0
  {
    if dots != [] { NoRepeat(dots[1..]); }
  }

  lemma {:induction false} SomeRepeat(dots: seq<Dot>, i: nat)
    requires i < |dots|
    ensures Repeat(dots) >= dots[i].repeat
  {
    if i > 0 { SomeRepeat(dots[1..], i - 1); }
  }

  lemma {:induction false} RowsOfPicture(dots: seq<Dot>, width: nat)
    requires width > 0 && WellFormed(dots, width) && dots != []
    ensures |Picture(dots, width)| > 0
  {
    hide Repeat, OneRepeat;
  }

  /** A whole row first. */
  lemma FirstRow(all: seq<Dot>, tail: seq<Dot>, width: nat)
    requires 0 < width <= |all|
    ensures Picture(all + tail, width)
         == Times(Colours(all[..width]), 1 + Repeat(all[..width])) + Picture(all[width..] + tail, width)
    ensures WellFormed(all + tail, width) <==> OneRepeat(all[..width]) && WellFormed(all[width..] + tail, width)
  {
    hide Repeat, OneRepeat;
    assert (all + tail)[..width] == all[..width];
    assert (all + tail)[width..] == all[width..] + tail;
  }

  /** The row in hand and a run about to be laid down behind it, as pixels with their repeat counts. */
  predicate Ahead(drawn: Drawn, run: nat, black: bool, all: seq<Dot>, width: nat) {
    && Colours(all) == drawn.partial + Solid(black, run)
    && drawn.repeat == Repeat(all)
    && OneRepeat(all)
    && forall i :: width <= i < |all| ==> all[i].repeat == 0
  }

  lemma AheadRow(drawn: Drawn, run: nat, black: bool, all: seq<Dot>, width: nat)
    requires |drawn.partial| < width <= |drawn.partial| + run && Ahead(drawn, run, black, all, width)
    ensures |all| == |drawn.partial| + run
    ensures Colours(all[..width]) == drawn.partial + Solid(black, width - |drawn.partial|)
    ensures Repeat(all[..width]) == drawn.repeat && OneRepeat(all[..width])
    ensures Ahead(Drawn([], [], 0), |all| - width, black, all[width..], width)
  {
    hide Repeat;
    var row, others := all[..width], all[width..];
    assert |Colours(all)| == |drawn.partial| + run;
    assert Colours(row) == Colours(all)[..width];
    assert Colours(others) == Colours(all)[width..] == Solid(black, |all| - width);
    assert all == row + others;
    RepeatJoins(row, others);
    NoRepeat(others);
  }

  lemma AheadLeft(drawn: Drawn, run: nat, black: bool, all: seq<Dot>, width: nat)
    requires |drawn.partial| + run < width && Ahead(drawn, run, black, all, width)
    ensures |all| == |drawn.partial| + run
    ensures Matches(drawn.(partial := drawn.partial + Solid(black, run)), all, width)
  {
    hide Repeat, OneRepeat;
    assert |Colours(all)| == |drawn.partial| + run;
  }

  function Last(all: seq<Dot>, n: nat): seq<Dot> {
    if n <= |all| then all[|all| - n..] else all
  }

  lemma LastOfLast(all: seq<Dot>, k: nat, n: nat)
    requires k <= |all| && n <= |all| - k
    ensures Last(all[k..], n) == Last(all, n)
  {}

  /** Laying down a run draws the rows it completes and leaves the pixels that do not fill one. */
  lemma {:induction false} PaintDraws(drawn: Drawn, run: nat, black: bool, width: nat, height: nat, all: seq<Dot>, tail: seq<Dot>)
    requires |drawn.partial| < width && |drawn.rows| < height && Ahead(drawn, run, black, all, width)
    ensures var painted := Paint(drawn, run, black, width, height);
      && (painted.Ok? ==> LeavesOff(drawn, painted.value, all, tail, width))
      && (painted.Failed? && WellFormed(all + tail, width) ==> |drawn.rows| + |Picture(all + tail, width)| > height)
    decreases run
  {
    hide Repeat, OneRepeat, Picture, WellFormed, Matches, Ahead, Last;
    var room := width - |drawn.partial|;
    if run < room {
      AheadLeft(drawn, run, black, all, width);
      LastAll(all);
      return;
    }
    AheadRow(drawn, run, black, all, width);
    FirstRow(all, tail, width);
    var left := all[width..];
    if drawn.repeat > height - |drawn.rows| - 1 {
      return;
    }
    var row := drawn.partial + Solid(black, room);
    var rows := drawn.rows + Times(row, drawn.repeat + 1);
    Assoc(drawn.rows, Times(row, drawn.repeat + 1), Picture(left + tail, width));
    if run == room {
      NothingLeft(rows, all, width);
      return;
    }
    if |rows| == height {
      if WellFormed(left + tail, width) { RowsOfPicture(left + tail, width); }
      return;
    }
    AnyRows(rows, |left|, black, left, width);
    PaintDraws(Drawn(rows, [], 0), run - room, black, width, height, left, tail);
    var painted := Paint(Drawn(rows, [], 0), run - room, black, width, height);
    if painted.Ok? {
      LastOfLast(all, width, |painted.value.partial|);
    }
  }

  /** The pixels not yet in a finished row are the last of those laid down, and whatever follows, the
      picture comes out the same. */
  predicate LeavesOff(drawn: Drawn, painted: Drawn, all: seq<Dot>, tail: seq<Dot>, width: nat)
    requires width > 0
  {
    var left := Last(all, |painted.partial|);
    && |painted.partial| <= |all|
    && Matches(painted, left, width)
    && painted.rows + Picture(left + tail, width) == drawn.rows + Picture(all + tail, width)
    && (WellFormed(left + tail, width) <==> WellFormed(all + tail, width))
  }

  lemma LastAll(all: seq<Dot>)
    ensures Last(all, |all|) == all && Last(all, 0) == []
  {}

  lemma NothingLeft(rows: seq<Row>, all: seq<Dot>, width: nat)
    requires width > 0
    ensures Last(all, 0) == [] && Matches(Drawn(rows, [], 0), [], width)
  {}

  lemma AnyRows(rows: seq<Row>, run: nat, black: bool, all: seq<Dot>, width: nat)
    requires Ahead(Drawn([], [], 0), run, black, all, width)
    ensures Ahead(Drawn(rows, [], 0), run, black, all, width)
  {}

  /** A run read with at most one repeat count in the row, ready to be laid down. */
  lemma RunAhead(drawn: Drawn, left: seq<Dot>, count: nat, run: nat, black: bool, width: nat)
    requires Matches(drawn, left, width) && run > 0
    requires count > 0 ==> drawn.repeat == 0
    ensures Ahead(drawn.(repeat := drawn.repeat + count), run, black, left + Marked(Run(black, run), count), width)
  {
    hide Repeat;
    var dots := Marked(Run(black, run), count);
    RepeatJoins(left, dots);
    RepeatMarked(Run(black, run), count);
    if count > 0 {
      forall i | 0 <= i < |left|
        ensures left[i].repeat == 0
      {
        SomeRepeat(left, i);
      }
    }
    assert Colours(left + dots) == drawn.partial + Solid(black, run);
  }

  lemma RepeatMarked(dots: seq<Dot>, count: nat)
    requires dots != [] && forall i :: 0 <= i < |dots| ==> dots[i].repeat == 0
    ensures Repeat(Marked(dots, count)) == count
  {
    assert Marked(dots, count)[1..] == dots[1..];
    NoRepeat(dots[1..]);
  }

  // ----- what is read is an item -----

  lemma NumberIsItem(s: seq<nybble>, dyn: dynamic, pending: nat) returns (item: Item)
    requires CountedNumber(s, dyn, pending).Some?
    ensures ItemOK(item, dyn) && item.run > 0
    ensures var number := CountedNumber(s, dyn, pending).value;
      && s[..number.used] == ItemCode(item, dyn)
      && number.value == item.run
      && number.repeat == pending + Count(item.mark)
      && (Count(item.mark) > 0 ==> pending == 0)
  {
    hide PlainNumber, Code, Largest;
    if s[0] < 14 {
      DecodedIsCoded(s, dyn);
      return Item(NoMark, PlainNumber(s, dyn).value.0);
    }
    if s[0] == 15 {
      DecodedIsCoded(s[1..], dyn);
      var run := PlainNumber(s[1..], dyn).value;
      TakeBehind([15], s, run.1);
      return Item(OneCopy, run.0);
    }
    DecodedIsCoded(s[1..], dyn);
    var count := PlainNumber(s[1..], dyn).value;
    var behind := s[1..][count.1..];
    Suffix(s, 1, count.1);
    DecodedIsCoded(behind, dyn);
    var run := PlainNumber(behind, dyn).value;
    TakeBehind([14], s, count.1);
    TakeBehind([14] + Code(count.0, dyn), s, run.1);
    item := Item(Copies(count.0), run.0);
  }

  lemma TakeBehind<T>(a: seq<T>, s: seq<T>, n: nat)
    requires a <= s && |a| + n <= |s|
    ensures s[..|a| + n] == a + s[|a|..][..n]
  {}

  /** An item's code is read back as its run, and its repeat count where none is pending. */
  lemma ItemIsNumber(item: Item, dyn: dynamic, pending: nat, rest: seq<nybble>)
    requires ItemOK(item, dyn)
    requires Count(item.mark) > 0 ==> pending == 0
    ensures CountedNumber(ItemCode(item, dyn) + rest, dyn, pending)
         == Some(Counted(item.run, pending + Count(item.mark), |ItemCode(item, dyn)|))
  {
    hide PlainNumber, Code, Largest;
    var run := Code(item.run, dyn);
    var s := ItemCode(item, dyn) + rest;
    CodeDecodes(item.run, dyn, rest);
    match item.mark
    case NoMark =>
      assert s == run + rest;
      CodeBegins(item.run, dyn);
    case OneCopy =>
      assert s[1..] == run + rest;
    case Copies(n) =>
      CodeDecodes(n, dyn, run + rest);
      assert s[1..] == Code(n, dyn) + (run + rest);
      assert s[1 + |Code(n, dyn)|..] == run + rest;
  }

  lemma CodeBegins(n: nat, dyn: dynamic)
    requires n >= 1
    ensures Code(n, dyn)[0] < 14
  {
    if n > Base(dyn) { TwoDigits(n - Base(dyn) + 15); }
    hide HexDigits;
  }

  // ----- the theorem -----

  /** Where the row in hand has its repeat count, a well-formed raster gives it no other. */
  lemma NotTwice(left: seq<Dot>, count: nat, run: nat, black: bool, tail: seq<Dot>, width: nat)
    requires |left| < width && run > 0 && count > 0
    requires WellFormed(left + Marked(Run(black, run), count) + tail, width)
    ensures Repeat(left) == 0
  {
    hide Repeat;
    var all := left + Marked(Run(black, run), count) + tail;
    assert OneRepeat(all[..width]);
    assert all[..width][|left|].repeat == count;
    forall i | 0 <= i < |left|
      ensures left[i].repeat == 0
    {
      assert all[..width][i] == left[i];
    }
    NoRepeat(left);
  }

  lemma FirstItem(items: seq<Item>, black: bool, left: seq<Dot>)
    requires items != []
    ensures left + Dots(items, black)
         == left + Marked(Run(black, items[0].run), Count(items[0].mark)) + Dots(items[1..], !black)
  {
    var dots, tail := Marked(Run(black, items[0].run), Count(items[0].mark)), Dots(items[1..], !black);
    assert Dots(items, black) == dots + tail;
    hide *;
    Assoc(left, dots, tail);
  }

  /** A decoded raster begins with items that mean the rows it decoded to. */
  lemma {:induction false} DecodedMeans(s: seq<nybble>, dyn: dynamic, drawn: Drawn, black: bool, width: nat, height: nat, left: seq<Dot>)
    returns (items: seq<Item>)
    requires |drawn.rows| <= height && Matches(drawn, left, width)
    requires |drawn.rows| == height ==> left == []
    requires DecodeFrom(s, dyn, drawn, black, width, height).Ok?
    ensures ItemsOK(items, dyn) && RasterCode(items, dyn) <= s
    ensures WellFormed(left + Dots(items, black), width)
    ensures DecodeFrom(s, dyn, drawn, black, width, height).value == drawn.rows + Picture(left + Dots(items, black), width)
    decreases |s|
  {
    hide Repeat, OneRepeat, CountedNumber, Paint, Code, ItemOK;
    if |drawn.rows| == height {
      assert left + Dots([], black) == [];
      return [];
    }
    hide Matches, Picture, WellFormed, ItemsOK, Dots, RasterCode;
    var number := CountedNumber(s, dyn, drawn.repeat).value;
    var item := NumberIsItem(s, dyn, drawn.repeat);
    MatchesBounds(drawn, left, width);
    RunAhead(drawn, left, Count(item.mark), item.run, black, width);
    var all := left + Marked(Run(black, item.run), Count(item.mark));
    var marked := drawn.(repeat := number.repeat);
    var painted := Paint(marked, item.run, black, width, height).value;
    PaintDraws(marked, item.run, black, width, height, all, []);
    var next := Last(all, |painted.partial|);
    MatchesBounds(painted, next, width);
    var others := DecodedMeans(s[number.used..], dyn, painted, !black, width, height, next);
    items := [item] + others;
    PaintDraws(marked, item.run, black, width, height, all, Dots(others, !black));
    FirstItem(items, black, left);
    FirstCode(s, number.used, items, dyn);
  }

  lemma MatchesBounds(drawn: Drawn, left: seq<Dot>, width: nat)
    requires Matches(drawn, left, width)
    ensures |left| == |drawn.partial| < width
    ensures left == [] ==> drawn.repeat == 0
  {
    assert |Colours(left)| == |left|;
  }

  lemma FirstCode(s: seq<nybble>, used: nat, items: seq<Item>, dyn: dynamic)
    requires items != [] && ItemOK(items[0], dyn) && ItemsOK(items[1..], dyn)
    requires used <= |s| && s[..used] == ItemCode(items[0], dyn) && RasterCode(items[1..], dyn) <= s[used..]
    ensures ItemsOK(items, dyn) && RasterCode(items, dyn) <= s
  {
    hide ItemOK, ItemCode;
    assert s == s[..used] + s[used..];
  }

  predicate Gives(s: seq<nybble>, dyn: dynamic, drawn: Drawn, black: bool, width: nat, height: nat, rows: seq<Row>) {
    && |drawn.partial| < width && |drawn.rows| <= height
    && (|drawn.rows| == height ==> drawn.partial == [] && drawn.repeat == 0)
    && DecodeFrom(s, dyn, drawn, black, width, height) == Ok(rows)
  }

  /** The state a decoder is in, and the items still to be read that complete the picture from there. */
  predicate Completes(items: seq<Item>, dyn: dynamic, drawn: Drawn, black: bool, width: nat, height: nat, left: seq<Dot>) {
    && |drawn.rows| <= height && Matches(drawn, left, width)
    && (|drawn.rows| == height ==> left == [])
    && ItemsOK(items, dyn) && WellFormed(left + Dots(items, black), width)
    && |drawn.rows| + |Picture(left + Dots(items, black), width)| == height
  }

  /** A raster of items that make a picture of the glyph's height decodes to that picture, whatever
      follows it. */
  lemma {:induction false} MeaningDecodes(items: seq<Item>, rest: seq<nybble>, dyn: dynamic, drawn: Drawn, black: bool, width: nat, height: nat, left: seq<Dot>)
    requires Completes(items, dyn, drawn, black, width, height, left)
    ensures Gives(RasterCode(items, dyn) + rest, dyn, drawn, black, width, height,
                  drawn.rows + Picture(left + Dots(items, black), width))
    decreases |items|
  {
    if items == [] {
      NoneDecode(rest, dyn, drawn, black, width, height, left);
    } else {
      hide Completes, CountedNumber, Paint, Code, ItemOK, Matches, Picture, WellFormed, ItemsOK, Dots, RasterCode, ItemCode, DecodeFrom, Gives;
      var painted, next := ItemPaints(items, dyn, drawn, left, black, width, height);
      MeaningDecodes(items[1..], rest, dyn, painted, !black, width, height, next);
      ItemDecodes(items, rest, dyn, drawn, black, width, height, painted, painted.rows + Picture(next + Dots(items[1..], !black), width));
    }
  }

  lemma NoneDecode(s: seq<nybble>, dyn: dynamic, drawn: Drawn, black: bool, width: nat, height: nat, left: seq<Dot>)
    requires Completes([], dyn, drawn, black, width, height, left)
    ensures Gives(RasterCode([], dyn) + s, dyn, drawn, black, width, height, drawn.rows + Picture(left + Dots([], black), width))
  {
    MatchesBounds(drawn, left, width);
    NoItems(left, black, width);
    assert drawn.rows + [] == drawn.rows;
  }

  /** The first item of those that complete a picture is laid down without an error, and the others
      complete it from there. */
  lemma ItemPaints(items: seq<Item>, dyn: dynamic, drawn: Drawn, left: seq<Dot>, black: bool, width: nat, height: nat)
    returns (painted: Drawn, next: seq<Dot>)
    requires items != [] && Completes(items, dyn, drawn, black, width, height, left)
    ensures ItemsOK(items, dyn) && ItemsOK(items[1..], dyn)
    ensures Completes(items[1..], dyn, painted, !black, width, height, next)
    ensures Draws(drawn, items[0], black, width, height, painted)
    ensures painted.rows + Picture(next + Dots(items[1..], !black), width) == drawn.rows + Picture(left + Dots(items, black), width)
  {
    hide Matches, Picture, WellFormed, ItemsOK, Dots, Marked, Run, Count;
    var tail := Dots(items[1..], !black);
    var all := left + Marked(Run(black, items[0].run), Count(items[0].mark));
    FirstItem(items, black, left);
    ItemsFirst(items, dyn);
    MatchesBounds(drawn, left, width);
    painted, next := ItemPaintsOn(drawn, left, items[0], black, tail, width, height);
  }

  predicate Draws(drawn: Drawn, item: Item, black: bool, width: nat, height: nat, painted: Drawn) {
    && |drawn.partial| < width && |drawn.rows| < height
    && (Count(item.mark) > 0 ==> drawn.repeat == 0)
    && Paint(drawn.(repeat := drawn.repeat + Count(item.mark)), item.run, black, width, height) == Ok(painted)
  }

  lemma ItemPaintsOn(drawn: Drawn, left: seq<Dot>, item: Item, black: bool, tail: seq<Dot>, width: nat, height: nat)
    returns (painted: Drawn, next: seq<Dot>)
    requires |drawn.rows| <= height && Matches(drawn, left, width) && item.run > 0 && width > 0
    requires var all := left + Marked(Run(black, item.run), Count(item.mark));
      WellFormed(all + tail, width) && |drawn.rows| + |Picture(all + tail, width)| == height
    ensures Draws(drawn, item, black, width, height, painted)
    ensures |painted.rows| <= height && (|painted.rows| == height ==> next == [])
    ensures Matches(painted, next, width) && WellFormed(next + tail, width)
    ensures painted.rows + Picture(next + tail, width)
         == drawn.rows + Picture(left + Marked(Run(black, item.run), Count(item.mark)) + tail, width)
  {
    hide Repeat, OneRepeat, Paint, Matches, Picture, WellFormed, LeavesOff, Last;
    MatchesBounds(drawn, left, width);
    var all := left + Marked(Run(black, item.run), Count(item.mark));
    RowsOfPicture(all + tail, width);
    if Count(item.mark) > 0 {
      NotTwice(left, Count(item.mark), item.run, black, tail, width);
      RepeatOf(drawn, left, width);
    }
    hide Marked, Count;
    var marked := drawn.(repeat := drawn.repeat + Count(item.mark));
    RunAhead(drawn, left, Count(item.mark), item.run, black, width);
    PaintDraws(marked, item.run, black, width, height, all, tail);
    painted := Paint(marked, item.run, black, width, height).value;
    next := Last(all, |painted.partial|);
    Off(marked, painted, all, tail, width);
    MatchesBounds(painted, next, width);
  }

  lemma Off(drawn: Drawn, painted: Drawn, all: seq<Dot>, tail: seq<Dot>, width: nat)
    requires width > 0 && LeavesOff(drawn, painted, all, tail, width)
    ensures var next := Last(all, |painted.partial|);
      && Matches(painted, next, width)
      && painted.rows + Picture(next + tail, width) == drawn.rows + Picture(all + tail, width)
      && (WellFormed(next + tail, width) <==> WellFormed(all + tail, width))
  {
    hide Matches, Picture, WellFormed, Last;
  }

  /** The decoder takes one item of the raster at a time. */
  lemma ItemDecodes(items: seq<Item>, rest: seq<nybble>, dyn: dynamic, drawn: Drawn, black: bool, width: nat, height: nat, painted: Drawn, rows: seq<Row>)
    requires items != [] && ItemsOK(items, dyn) && ItemsOK(items[1..], dyn)
    requires Draws(drawn, items[0], black, width, height, painted)
    requires Gives(RasterCode(items[1..], dyn) + rest, dyn, painted, !black, width, height, rows)
    ensures Gives(RasterCode(items, dyn) + rest, dyn, drawn, black, width, height, rows)
  {
    hide CountedNumber, Paint, ItemOK, ItemsOK, RasterCode, ItemCode;
    ItemsFirst(items, dyn);
    var behind := RasterCode(items[1..], dyn) + rest;
    Assoc(ItemCode(items[0], dyn), RasterCode(items[1..], dyn), rest);
    DropFirst(ItemCode(items[0], dyn), behind);
    ItemIsNumber(items[0], dyn, drawn.repeat, behind);
  }

  lemma RepeatOf(drawn: Drawn, left: seq<Dot>, width: nat)
    requires Matches(drawn, left, width)
    ensures drawn.repeat == Repeat(left)
  {}

  lemma DropFirst<T>(a: seq<T>, b: seq<T>)
    ensures (a + b)[|a|..] == b
  {}

  lemma ItemsFirst(items: seq<Item>, dyn: dynamic)
    requires ItemsOK(items, dyn) && items != []
    ensures ItemOK(items[0], dyn) && items[0].run > 0 && ItemsOK(items[1..], dyn)
    ensures RasterCode(items, dyn) == ItemCode(items[0], dyn) + RasterCode(items[1..], dyn)
  {
    hide ItemCode;
  }

  lemma NoItems(left: seq<Dot>, black: bool, width: nat)
    requires |left| < width && WellFormed(left + Dots([], black), width)
    ensures left == left + Dots([], black) == [] && Picture([], width) == []
  {
    assert left + Dots([], black) == left;
  }

  /** pk_decode_runs gives a picture exactly where the raster begins with items that mean it. */
  lemma DecodesExactly(s: seq<nybble>, dyn: dynamic, black: bool, width: nat, height: nat, picture: seq<Row>)
    requires width > 0 && height > 0
    ensures Decode(s, dyn, black, width, height) == Ok(picture) <==>
      exists items :: Means(items, s, dyn, black, width, height, picture)
  {
    hide Means, Decode;
    if Decode(s, dyn, black, width, height) == Ok(picture) {
      var items := DecodedItems(s, dyn, black, width, height);
    }
    forall items | Means(items, s, dyn, black, width, height, picture)
      ensures Decode(s, dyn, black, width, height) == Ok(picture)
    {
      ItemsDecode(items, s, dyn, black, width, height, picture);
    }
  }

  lemma DecodedItems(s: seq<nybble>, dyn: dynamic, black: bool, width: nat, height: nat) returns (items: seq<Item>)
    requires width > 0 && height > 0 && Decode(s, dyn, black, width, height).Ok?
    ensures Means(items, s, dyn, black, width, height, Decode(s, dyn, black, width, height).value)
  {
    assert Matches(Drawn([], [], 0), [], width);
    hide Picture, WellFormed, DecodeFrom, ItemsOK, RasterCode, Dots, Matches;
    items := DecodedMeans(s, dyn, Drawn([], [], 0), black, width, height, []);
    NothingBefore(Dots(items, black));
    NothingBefore(Picture(Dots(items, black), width));
  }

  lemma ItemsDecode(items: seq<Item>, s: seq<nybble>, dyn: dynamic, black: bool, width: nat, height: nat, picture: seq<Row>)
    requires width > 0 && height > 0 && Means(items, s, dyn, black, width, height, picture)
    ensures Decode(s, dyn, black, width, height) == Ok(picture)
  {
    hide Picture, WellFormed, DecodeFrom, ItemsOK, RasterCode, Dots, Matches;
    Start(width);
    NothingBefore(Dots(items, black));
    NothingBefore(picture);
    var rest := RestOf(RasterCode(items, dyn), s);
    MeaningDecodes(items, rest, dyn, Drawn([], [], 0), black, width, height, []);
    assert Gives(s, dyn, Drawn([], [], 0), black, width, height, picture);
  }

  lemma Start(width: nat)
    requires width > 0
    ensures Matches(Drawn([], [], 0), [], width)
  {}

  lemma RestOf<T>(prefix: seq<T>, s: seq<T>) returns (rest: seq<T>)
    requires prefix <= s
    ensures s == prefix + rest
  {
    rest := s[|prefix|..];
  }

  lemma NothingBefore<T>(s: seq<T>)
    ensures [] + s == s
  {}

  predicate Means(items: seq<Item>, s: seq<nybble>, dyn: dynamic, black: bool, width: nat, height: nat, picture: seq<Row>)
    requires width > 0
  {
    && ItemsOK(items, dyn)
    && RasterCode(items, dyn) <= s
    && WellFormed(Dots(items, black), width)
    && Picture(Dots(items, black), width) == picture
    && |picture| == height
  }

  function Flat(rows: seq<Row>): Row {
    if rows == [] then [] else rows[0] + Flat(rows[1..])
  }
}
