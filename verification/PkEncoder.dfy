/** Which pictures have a raster: exactly those of which some collapse of repeated rows leaves every run and
    every repeat count small enough to be coded. */
module PkEncoder {
  import opened Bytes
  import opened PkNumber
  import opened PkBitmap
  import opened PkRaster

  // ----- runs along the pixels -----

  /** The run open after some pixels: its colour and how long it is so far. */
  datatype Open = Open(black: bool, length: nat)

  function Extended(open_: Open, pixel: bool): Open {
    Open(pixel, if pixel == open_.black then open_.length + 1 else 1)
  }

  /** The run open once a row of pixels has gone by. */
  function Feed(row: Row, open_: Open): Open {
    if row == [] then open_ else Feed(row[1..], Extended(open_, row[0]))
  }

  /** No run grows longer than the limit. */
  predicate Fits(row: Row, open_: Open, limit: nat) {
    row == [] || (Extended(open_, row[0]).length <= limit && Fits(row[1..], Extended(open_, row[0]), limit))
  }

  lemma {:induction false} FeedJoins(a: Row, b: Row, open_: Open, limit: nat)
    ensures Feed(a + b, open_) == Feed(b, Feed(a, open_))
    ensures Fits(a + b, open_, limit) <==> Fits(a, open_, limit) && Fits(b, Feed(a, open_), limit)
  {
    if a == [] {
      assert a + b == b;
    } else {
      FeedJoins(a[1..], b, Extended(open_, a[0]), limit);
      assert (a + b)[1..] == a[1..] + b;
    }
  }

  /** The shorter the run already open, the shorter every run. */
  lemma {:induction false} Shorter(row: Row, black: bool, less: nat, more: nat, limit: nat)
    requires less <= more
    ensures Feed(row, Open(black, less)).black == Feed(row, Open(black, more)).black
    ensures Feed(row, Open(black, less)).length <= Feed(row, Open(black, more)).length
    ensures Fits(row, Open(black, more), limit) ==> Fits(row, Open(black, less), limit)
  {
    if row != [] {
      var a, b := Extended(Open(black, less), row[0]), Extended(Open(black, more), row[0]);
      Shorter(row[1..], row[0], a.length, b.length, limit);
    }
  }

  lemma {:induction false} LastColour(row: Row, open_: Open)
    requires row != []
    ensures Feed(row, open_).black == row[|row| - 1]
  {
    if |row| > 1 { LastColour(row[1..], Extended(open_, row[0])); }
  }

  /** A run begins in the row, unless the run before it, of colour `before`, goes on to its end. */
  predicate Begins(row: Row, before: bool) {
    exists i :: 0 <= i < |row| && row[i] != before
  }

  lemma BeginsBehind(row: Row, before: bool)
    requires row != [] && Begins(row, before) && row[0] == before
    ensures Begins(row[1..], before)
  {
    var i :| 0 <= i < |row| && row[i] != before;
    assert row[1..][i - 1] == row[i];
  }

  /** A row a run begins in ends in the same run however long the one before it was. */
  lemma {:induction false} BeginsForgets(row: Row, black: bool, a: nat, b: nat)
    requires row != [] && Begins(row, black)
    ensures Feed(row, Open(black, a)) == Feed(row, Open(black, b))
  {
    if row[0] == black {
      BeginsBehind(row, black);
      BeginsForgets(row[1..], black, a + 1, b + 1);
    }
  }

  /** And in one no longer than after a run of the other colour. */
  lemma Shortest(row: Row, black: bool, length: nat)
    requires row != [] && Begins(row, black)
    ensures Feed(row, Open(black, 0)).length <= Feed(row, Open(!black, length)).length
  {
    if row[0] != black { Shorter(row[1..], row[0], 1, length + 1, 0); }
  }

  /** The row again behind itself ends in no shorter a run. */
  lemma AgainNoShorter(row: Row, open_: Open)
    requires row != [] && Begins(row, open_.black)
    ensures Feed(row, open_).black == Feed(row, Feed(row, open_)).black == row[|row| - 1]
    ensures Feed(row, open_).length <= Feed(row, Feed(row, open_)).length
  {
    LastColour(row, open_);
    LastColour(row, Feed(row, open_));
    var last := Feed(row, open_);
    if last.black == open_.black {
      BeginsForgets(row, open_.black, open_.length, last.length);
    } else {
      BeginsForgets(row, open_.black, open_.length, 0);
      Shortest(row, open_.black, last.length);
    }
  }

  // ----- collapses of repeated rows -----

  /** Rows each followed by so many copies of itself are the picture, and a row has copies only where a run
      begins in it: the count stands before that run. */
  predicate Collapse(distinct: seq<Row>, counts: seq<nat>, rows: seq<Row>, before: bool)
    decreases |distinct|
  {
    if distinct == [] then counts == [] && rows == []
    else
      && counts != [] && distinct[0] != [] && counts[0] + 1 <= |rows|
      && rows[..counts[0] + 1] == Times(distinct[0], counts[0] + 1)
      && (counts[0] > 0 ==> Begins(distinct[0], before))
      && Collapse(distinct[1..], counts[1..], rows[counts[0] + 1..], distinct[0][|distinct[0]| - 1])
  }

  predicate AllOf(width: nat, rows: seq<Row>) { forall r :: 0 <= r < |rows| ==> |rows[r]| == width }

  // ----- the pixels of a collapse -----

  /** The pixels of a row, its count on the first run that begins in it. */
  function MarkRow(row: Row, count: nat, before: bool): (dots: seq<Dot>)
    ensures |dots| == |row|
    ensures forall i :: 0 <= i < |row| ==> dots[i].black == row[i]
  {
    if row == [] then []
    else if row[0] != before then [Dot(row[0], count)] + MarkRow(row[1..], 0, row[0])
    else [Dot(row[0], 0)] + MarkRow(row[1..], count, row[0])
  }

  /** Counts stand only where a run begins. */
  predicate StartsOnly(dots: seq<Dot>, before: bool) {
    dots == [] || ((dots[0].repeat > 0 ==> dots[0].black != before) && StartsOnly(dots[1..], dots[0].black))
  }

  lemma {:induction false} MarkedRow(row: Row, count: nat, before: bool)
    requires count > 0 ==> Begins(row, before)
    ensures var dots := MarkRow(row, count, before);
      && Repeat(dots) == count && OneRepeat(dots) && StartsOnly(dots, before)
      && forall i :: 0 <= i < |dots| ==> dots[i].repeat <= count
  {
    if row != [] {
      if row[0] != before {
        MarkedRow(row[1..], 0, row[0]);
      } else {
        if count > 0 { BeginsBehind(row, before); }
        MarkedRow(row[1..], count, row[0]);
      }
      var dots := MarkRow(row, count, before);
      assert forall i :: 0 < i < |dots| ==> dots[i] == dots[1..][i - 1];
    }
  }

  function CollapsedDots(distinct: seq<Row>, counts: seq<nat>, before: bool): seq<Dot>
    decreases |distinct|
  {
    if distinct == [] || counts == [] || distinct[0] == [] then []
    else
      MarkRow(distinct[0], counts[0], before) + CollapsedDots(distinct[1..], counts[1..], distinct[0][|distinct[0]| - 1])
  }

  lemma {:induction false} StartsJoin(a: seq<Dot>, b: seq<Dot>, before: bool)
    ensures StartsOnly(a + b, before) <==>
      StartsOnly(a, before) && StartsOnly(b, if a == [] then before else a[|a| - 1].black)
  {
    if a == [] {
      assert a + b == b;
    } else {
      StartsJoin(a[1..], b, a[0].black);
      assert (a + b)[1..] == a[1..] + b;
    }
  }

  predicate Small(dots: seq<Dot>, limit: nat) {
    forall i :: 0 <= i < |dots| ==> dots[i].repeat <= limit
  }

  /** Pixels with their counts that stand for the rows. */
  predicate Shows(dots: seq<Dot>, pixels: Row, rows: seq<Row>, before: bool, width: nat, limit: nat)
    requires width > 0
  {
    && Colours(dots) == pixels && StartsOnly(dots, before) && Small(dots, limit)
    && WellFormed(dots, width) && Picture(dots, width) == rows
  }

  lemma ColoursJoin(a: seq<Dot>, b: seq<Dot>)
    ensures Colours(a + b) == Colours(a) + Colours(b)
  {}

  lemma SmallJoins(a: seq<Dot>, b: seq<Dot>, limit: nat)
    ensures Small(a + b, limit) <==> Small(a, limit) && Small(b, limit)
  {
    if Small(a + b, limit) {
      assert forall i :: 0 <= i < |a| ==> (a + b)[i] == a[i];
      assert forall i :: 0 <= i < |b| ==> (a + b)[|a| + i] == b[i];
    }
  }

  lemma {:induction false} WholeRow(first: seq<Dot>, others: seq<Dot>, width: nat)
    requires 0 < width == |first|
    ensures Picture(first + others, width) == Times(Colours(first), 1 + Repeat(first)) + Picture(others, width)
    ensures WellFormed(first + others, width) <==> OneRepeat(first) && WellFormed(others, width)
  {
    hide Repeat, OneRepeat, Picture, WellFormed;
    FirstRow(first, others, width);
    assert first[..width] == first && first[width..] + others == others;
  }

  lemma {:induction false} RowThen(row: Row, count: nat, before: bool, others: seq<Dot>, pixels: Row, rows: seq<Row>, width: nat, limit: nat)
    requires |row| == width > 0 && count <= limit && (count > 0 ==> Begins(row, before))
    requires Shows(others, pixels, rows, row[width - 1], width, limit)
    ensures Shows(MarkRow(row, count, before) + others, row + pixels, Times(row, count + 1) + rows, before, width, limit)
  {
    hide Repeat, OneRepeat, Picture, WellFormed, StartsOnly, MarkRow, Begins;
    var first := MarkRow(row, count, before);
    MarkedRow(row, count, before);
    WholeRow(first, others, width);
    StartsJoin(first, others, before);
    SmallJoins(first, others, limit);
    ColoursJoin(first, others);
    assert Colours(first) == row;
  }

  /** Every row of the collapse is as wide as the picture. */
  lemma {:induction false} FirstCollapsed(distinct: seq<Row>, counts: seq<nat>, rows: seq<Row>, before: bool, width: nat)
    requires Collapse(distinct, counts, rows, before) && AllOf(width, rows) && distinct != []
    ensures counts != [] && 0 < |distinct[0]| == width && counts[0] + 1 <= |rows| && rows[0] == distinct[0]
    ensures rows == Times(distinct[0], counts[0] + 1) + rows[counts[0] + 1..]
    ensures AllOf(width, rows[counts[0] + 1..])
    ensures counts[0] > 0 ==> Begins(distinct[0], before)
    ensures Collapse(distinct[1..], counts[1..], rows[counts[0] + 1..], distinct[0][|distinct[0]| - 1])
  {
    hide Begins;
    assert rows[0] == rows[..counts[0] + 1][0] == distinct[0];
    assert rows == rows[..counts[0] + 1] + rows[counts[0] + 1..];
  }

  predicate AtMost(counts: seq<nat>, limit: nat) {
    forall i :: 0 <= i < |counts| ==> counts[i] <= limit
  }

  /** A collapse stands for its picture. */
  lemma {:induction false} CollapseShows(distinct: seq<Row>, counts: seq<nat>, rows: seq<Row>, before: bool, width: nat, limit: nat)
    requires Collapse(distinct, counts, rows, before) && AllOf(width, rows) && width > 0
    requires AtMost(counts, limit)
    ensures Shows(CollapsedDots(distinct, counts, before), Flat(distinct), rows, before, width, limit)
    decreases |distinct|
  {
    hide Begins, Shows, MarkRow, AllOf, Collapse, CollapsedDots, Flat, AtMost;
    if distinct == [] {
      NothingShows(counts, rows, before, width, limit);
    } else {
      FirstCollapsed(distinct, counts, rows, before, width);
      FirstAtMost(counts, limit);
      var last := distinct[0][width - 1];
      CollapseShows(distinct[1..], counts[1..], rows[counts[0] + 1..], last, width, limit);
      RowThen(distinct[0], counts[0], before, CollapsedDots(distinct[1..], counts[1..], last), Flat(distinct[1..]),
              rows[counts[0] + 1..], width, limit);
      CollapsedFirst(distinct, counts, before);
    }
  }

  lemma {:induction false} CollapsedFirst(distinct: seq<Row>, counts: seq<nat>, before: bool)
    requires distinct != [] && counts != [] && distinct[0] != []
    ensures CollapsedDots(distinct, counts, before)
         == MarkRow(distinct[0], counts[0], before)
            + CollapsedDots(distinct[1..], counts[1..], distinct[0][|distinct[0]| - 1])
    ensures Flat(distinct) == distinct[0] + Flat(distinct[1..])
  {}

  lemma FirstAtMost(counts: seq<nat>, limit: nat)
    requires counts != [] && AtMost(counts, limit)
    ensures counts[0] <= limit && AtMost(counts[1..], limit)
  {}

  lemma {:induction false} NothingShows(counts: seq<nat>, rows: seq<Row>, before: bool, width: nat, limit: nat)
    requires Collapse([], counts, rows, before) && width > 0
    ensures Shows(CollapsedDots([], counts, before), Flat([]), rows, before, width, limit)
  {}

  lemma {:induction false} BeginsWhereMarked(dots: seq<Dot>, before: bool)
    requires StartsOnly(dots, before) && Repeat(dots) > 0
    ensures Begins(Colours(dots), before)
  {
    if dots[0].black != before {
      assert Colours(dots)[0] != before;
    } else {
      BeginsWhereMarked(dots[1..], before);
      var i :| 0 <= i < |dots[1..]| && Colours(dots[1..])[i] != before;
      assert Colours(dots)[i + 1] != before;
    }
  }

  lemma {:induction false} RepeatSmall(dots: seq<Dot>, limit: nat)
    requires OneRepeat(dots) && Small(dots, limit)
    ensures Repeat(dots) <= limit
  {
    if dots != [] {
      if dots[0].repeat > 0 {
        assert forall i :: 0 < i < |dots| ==> dots[i].repeat == 0;
        NoRepeat(dots[1..]);
      } else {
        RepeatSmall(dots[1..], limit);
      }
    }
  }

  /** Whatever stands for a picture is a collapse of it. */
  lemma {:induction false} ShownIsCollapse(dots: seq<Dot>, rows: seq<Row>, before: bool, width: nat, limit: nat)
    returns (distinct: seq<Row>, counts: seq<nat>)
    requires width > 0 && Shows(dots, Colours(dots), rows, before, width, limit)
    ensures Collapse(distinct, counts, rows, before) && Flat(distinct) == Colours(dots) && AtMost(counts, limit)
    decreases |dots|
  {
    if dots == [] {
      return [], [];
    }
    var first, others := FirstShown(dots, rows, before, width, limit);
    hide Shows, Begins, Repeat;
    var count, row := Repeat(first), Colours(first);
    var d, c := ShownIsCollapse(others, rows[count + 1..], row[width - 1], width, limit);
    distinct, counts := [row] + d, [count] + c;
    ColoursJoin(first, others);
    assert distinct[1..] == d && counts[1..] == c;
  }

  lemma {:induction false} FirstShown(dots: seq<Dot>, rows: seq<Row>, before: bool, width: nat, limit: nat)
    returns (first: seq<Dot>, others: seq<Dot>)
    requires width > 0 && dots != [] && Shows(dots, Colours(dots), rows, before, width, limit)
    ensures dots == first + others && |first| == width && |others| < |dots|
    ensures Repeat(first) <= limit && Repeat(first) + 1 <= |rows|
    ensures rows[..Repeat(first) + 1] == Times(Colours(first), Repeat(first) + 1)
    ensures Repeat(first) > 0 ==> Begins(Colours(first), before)
    ensures Shows(others, Colours(others), rows[Repeat(first) + 1..], Colours(first)[width - 1], width, limit)
  {
    hide Repeat, OneRepeat, Picture, StartsOnly, Begins, Small;
    first, others := dots[..width], dots[width..];
    assert dots == first + others;
    hide WellFormed;
    WholeRow(first, others, width);
    StartsJoin(first, others, before);
    SmallJoins(first, others, limit);
    RepeatSmall(first, limit);
    if Repeat(first) > 0 { BeginsWhereMarked(first, before); }
    TimesThen(Colours(first), Repeat(first) + 1, Picture(others, width));
  }

  lemma TimesThen(row: Row, n: nat, rows: seq<Row>)
    ensures (Times(row, n) + rows)[..n] == Times(row, n) && (Times(row, n) + rows)[n..] == rows
  {}

  // ----- the items of the pixels -----

  lemma {:induction false} SolidFeeds(black: bool, n: nat, length: nat, limit: nat)
    ensures Feed(Solid(black, n), Open(black, length)) == Open(black, length + n)
    ensures Fits(Solid(black, n), Open(black, length), limit) <==> n == 0 || length + n <= limit
  {
    if n > 0 {
      SolidFeeds(black, n - 1, length + 1, limit);
      assert Solid(black, n)[1..] == Solid(black, n - 1);
    }
  }

  /** A run behind one of the other colour. */
  lemma {:induction false} RunFeeds(black: bool, n: nat, length: nat, limit: nat)
    requires n > 0
    ensures Feed(Solid(black, n), Open(!black, length)) == Open(black, n)
    ensures Fits(Solid(black, n), Open(!black, length), limit) <==> n <= limit
  {
    SolidFeeds(black, n - 1, 1, limit);
    assert Solid(black, n)[1..] == Solid(black, n - 1);
  }

  lemma RunColours(black: bool, n: nat, count: nat)
    ensures Colours(Marked(Run(black, n), count)) == Solid(black, n)
  {}

  lemma {:induction false} PlainStarts(dots: seq<Dot>, before: bool)
    requires forall i :: 0 <= i < |dots| ==> dots[i].repeat == 0
    ensures StartsOnly(dots, before)
  {
    if dots != [] { PlainStarts(dots[1..], dots[0].black); }
  }

  lemma {:induction false} RunStarts(black: bool, n: nat, count: nat, limit: nat)
    requires n > 0 && count <= limit
    ensures StartsOnly(Marked(Run(black, n), count), !black) && Small(Marked(Run(black, n), count), limit)
  {
    PlainStarts(Marked(Run(black, n), count)[1..], black);
  }

  /** Items with codes stand for pixels whose runs and counts are no longer than the longest coded. */
  lemma {:induction false} ItemsFit(items: seq<Item>, dyn: dynamic, black: bool, length: nat)
    requires ItemsOK(items, dyn)
    ensures var dots := Dots(items, black);
      && Fits(Colours(dots), Open(!black, length), Largest(dyn))
      && StartsOnly(dots, !black) && Small(dots, Largest(dyn))
    decreases |items|
  {
    if items != [] {
      var item := items[0];
      assert ItemOK(item, dyn);
      ItemsFit(items[1..], dyn, !black, item.run);
      hide StartsOnly, Small, Fits, ItemsOK, Run, Marked;
      var first, others := Marked(Run(black, item.run), Count(item.mark)), Dots(items[1..], !black);
      RunColours(black, item.run, Count(item.mark));
      RunFeeds(black, item.run, length, Largest(dyn));
      RunStarts(black, item.run, Count(item.mark), Largest(dyn));
      ColoursJoin(first, others);
      FeedJoins(Colours(first), Colours(others), Open(!black, length), Largest(dyn));
      StartsJoin(first, others, !black);
      SmallJoins(first, others, Largest(dyn));
    }
  }

  /** How many of the pixels have the colour of the first. */
  function RunLength(dots: seq<Dot>): (n: nat)
    ensures n <= |dots| && (dots != [] ==> n > 0)
    ensures forall i :: 0 <= i < n ==> dots[i].black == dots[0].black
    ensures 0 < n < |dots| ==> dots[n].black != dots[0].black
  {
    if |dots| < 2 || dots[1].black != dots[0].black then (if dots == [] then 0 else 1)
    else
      assert dots[1..][0] == dots[1];
      1 + RunLength(dots[1..])
  }

  /** The longest runs, each with the count that stands before it. */
  function ItemsOf(dots: seq<Dot>): seq<Item>
    decreases |dots|
  {
    if dots == [] then []
    else
      var mark := if dots[0].repeat == 0 then NoMark else Copies(dots[0].repeat);
      [Item(mark, RunLength(dots))] + ItemsOf(dots[RunLength(dots)..])
  }

  lemma {:induction false} PlainBehind(dots: seq<Dot>, n: nat, before: bool)
    requires StartsOnly(dots, before) && n <= |dots| && forall i :: 0 <= i < n ==> dots[i].black == before
    ensures forall i :: 0 <= i < n ==> dots[i] == Dot(before, 0)
  {
    if n > 0 { PlainBehind(dots[1..], n - 1, before); }
  }

  /** The first run of the pixels. */
  lemma {:induction false} FirstRun(dots: seq<Dot>, before: bool)
    requires dots != [] && StartsOnly(dots, before)
    ensures var n, black := RunLength(dots), dots[0].black;
      dots == Marked(Run(black, n), dots[0].repeat) + dots[n..] && StartsOnly(dots[n..], black)
  {
    var n, black := RunLength(dots), dots[0].black;
    PlainBehind(dots[1..], n - 1, black);
    assert dots == dots[..n] + dots[n..];
    assert dots[..n] == Marked(Run(black, n), dots[0].repeat);
    hide StartsOnly;
    StartsJoin(dots[..n], dots[n..], before);
  }

  predicate NextIs(dots: seq<Dot>, black: bool) { dots == [] || dots[0].black == black }

  /** Pixels whose runs and counts are no longer than the longest coded have items with codes. */
  lemma {:induction false} ItemsOfFit(dots: seq<Dot>, dyn: dynamic, black: bool, length: nat)
    requires StartsOnly(dots, !black) && Small(dots, Largest(dyn)) && NextIs(dots, black)
    requires Fits(Colours(dots), Open(!black, length), Largest(dyn))
    ensures ItemsOK(ItemsOf(dots), dyn) && Dots(ItemsOf(dots), black) == dots
    decreases |dots|
  {
    if dots != [] {
      var n, count := RunLength(dots), dots[0].repeat;
      FirstRun(dots, !black);
      hide StartsOnly, Fits;
      var first, others := Marked(Run(black, n), count), dots[n..];
      ColoursJoin(first, others);
      RunColours(black, n, count);
      FeedJoins(Colours(first), Colours(others), Open(!black, length), Largest(dyn));
      RunFeeds(black, n, length, Largest(dyn));
      SmallJoins(first, others, Largest(dyn));
      assert NextIs(others, !black);
      ItemsOfFit(others, dyn, !black, n);
      hide Marked, Run, ItemsOf, Small;
      ItemsBehind(dots, dyn);
    }
  }

  lemma {:induction false} ItemsBehind(dots: seq<Dot>, dyn: dynamic)
    requires dots != [] && RunLength(dots) <= Largest(dyn) && dots[0].repeat <= Largest(dyn)
    requires ItemsOK(ItemsOf(dots[RunLength(dots)..]), dyn)
    ensures var mark := if dots[0].repeat == 0 then NoMark else Copies(dots[0].repeat);
      ItemsOf(dots) == [Item(mark, RunLength(dots))] + ItemsOf(dots[RunLength(dots)..]) && Count(mark) == dots[0].repeat
    ensures ItemsOK(ItemsOf(dots), dyn)
  {}

  // ----- which pictures have a raster -----

  /** Some raster, beginning in some colour, decodes to the picture. */
  ghost predicate HasRaster(rows: seq<Row>, dyn: dynamic, width: nat) {
    exists bytes: seq<byte>, black: bool :: Decode(Nybbles(bytes), dyn, black, width, |rows|) == Ok(rows)
  }

  /** The colour no run is open of as the raster begins. */
  function Before(rows: seq<Row>): bool
    requires rows != [] && rows[0] != []
  {
    !rows[0][0]
  }

  predicate IsPicture(rows: seq<Row>, width: nat) { width > 0 && rows != [] && AllOf(width, rows) }

  /** A collapse of the picture whose runs and counts all have codes. */
  predicate Encodes(distinct: seq<Row>, counts: seq<nat>, rows: seq<Row>, dyn: dynamic)
    requires rows != [] && rows[0] != []
  {
    && Collapse(distinct, counts, rows, Before(rows))
    && Fits(Flat(distinct), Open(Before(rows), 0), Largest(dyn)) && AtMost(counts, Largest(dyn))
  }

  /** The raster of a collapse, and its starting colour. */
  lemma EncodingDecodes(distinct: seq<Row>, counts: seq<nat>, rows: seq<Row>, dyn: dynamic, width: nat) returns (bytes: seq<byte>)
    requires IsPicture(rows, width) && Encodes(distinct, counts, rows, dyn)
    ensures Decode(Nybbles(bytes), dyn, rows[0][0], width, |rows|) == Ok(rows)
  {
    var dots := CollapsedDots(distinct, counts, Before(rows));
    CollapseShows(distinct, counts, rows, Before(rows), width, Largest(dyn));
    FirstDot(distinct, counts, rows, width);
    hide Collapse, Fits, AtMost, StartsOnly, Picture, WellFormed, Small, CollapsedDots, Flat, Decode;
    var items := ItemsOf(dots);
    ItemsOfFit(dots, dyn, rows[0][0], 0);
    bytes := Packed(RasterCode(items, dyn));
    PackedNybbles(RasterCode(items, dyn));
    assert Means(items, Nybbles(bytes), dyn, rows[0][0], width, |rows|, rows);
    DecodesExactly(Nybbles(bytes), dyn, rows[0][0], width, |rows|, rows);
  }

  lemma {:induction false} FirstDot(distinct: seq<Row>, counts: seq<nat>, rows: seq<Row>, width: nat)
    requires IsPicture(rows, width) && Collapse(distinct, counts, rows, Before(rows))
    ensures NextIs(CollapsedDots(distinct, counts, Before(rows)), rows[0][0])
  {
    FirstCollapsed(distinct, counts, rows, Before(rows), width);
    hide Collapse;
    CollapsedFirst(distinct, counts, Before(rows));
  }

  /** What a raster of the picture means is a collapse of it. */
  lemma DecodedEncodes(bytes: seq<byte>, black: bool, rows: seq<Row>, dyn: dynamic, width: nat)
    returns (distinct: seq<Row>, counts: seq<nat>)
    requires IsPicture(rows, width) && Decode(Nybbles(bytes), dyn, black, width, |rows|) == Ok(rows)
    ensures black == rows[0][0] && Encodes(distinct, counts, rows, dyn)
  {
    hide Decode, Collapse, Fits, StartsOnly, Picture, WellFormed, Small, Flat;
    var items := DecodedItems(Nybbles(bytes), dyn, black, width, |rows|);
    ItemsFit(items, dyn, black, 0);
    var dots := Dots(items, black);
    FirstColour(items, dyn, black, rows, width);
    distinct, counts := ShownIsCollapse(dots, rows, !black, width, Largest(dyn));
  }

  lemma {:induction false} FirstColour(items: seq<Item>, dyn: dynamic, black: bool, rows: seq<Row>, width: nat)
    requires ItemsOK(items, dyn) && IsPicture(rows, width) && Picture(Dots(items, black), width) == rows
    ensures rows[0][0] == black
  {
    var dots := Dots(items, black);
    assert items != [];
    assert ItemOK(items[0], dyn);
    assert dots[0].black == black;
    hide Dots, Repeat;
    assert rows[0] == Colours(dots[..width]);
  }

  /** A picture has a raster exactly where repeat counts for some of its equal rows leave no run and no count
      too long to be coded; the raster begins in the colour of its first pixel. */
  lemma RasterExactly(rows: seq<Row>, dyn: dynamic, width: nat)
    requires IsPicture(rows, width)
    ensures HasRaster(rows, dyn, width) <==> exists distinct, counts :: Encodes(distinct, counts, rows, dyn)
  {
    hide Decode, Encodes;
    if HasRaster(rows, dyn, width) {
      var bytes: seq<byte>, black :| Decode(Nybbles(bytes), dyn, black, width, |rows|) == Ok(rows);
      var distinct, counts := DecodedEncodes(bytes, black, rows, dyn, width);
    }
    if distinct, counts :| Encodes(distinct, counts, rows, dyn) {
      var bytes := EncodingDecodes(distinct, counts, rows, dyn, width);
    }
  }

  // ----- the collapse that does best -----

  /** How many rows are the first one again, with it. */
  function Leading(rows: seq<Row>): (n: nat)
    requires rows != []
    ensures 0 < n <= |rows|
    ensures forall i :: 0 <= i < n ==> rows[i] == rows[0]
    ensures n < |rows| ==> rows[n] != rows[0]
  {
    if |rows| == 1 || rows[1] != rows[0] then 1 else 1 + Leading(rows[1..])
  }

  /** How many rows the first one stands for: all its copies, unless no run begins in it. */
  function Taken(rows: seq<Row>, before: bool): (n: nat)
    requires rows != []
    ensures 0 < n <= |rows|
  {
    if Begins(rows[0], before) then Leading(rows) else 1
  }

  /** Every row with all its copies, where its run lets them be counted. */
  function TightRows(rows: seq<Row>, before: bool): seq<Row>
    decreases |rows|
  {
    if rows == [] || rows[0] == [] then []
    else [rows[0]] + TightRows(rows[Taken(rows, before)..], rows[0][|rows[0]| - 1])
  }

  function TightCounts(rows: seq<Row>, before: bool): seq<nat>
    decreases |rows|
  {
    if rows == [] || rows[0] == [] then []
    else [Taken(rows, before) - 1] + TightCounts(rows[Taken(rows, before)..], rows[0][|rows[0]| - 1])
  }

  lemma {:induction false} TightCollapses(rows: seq<Row>, before: bool, width: nat)
    requires width > 0 && AllOf(width, rows)
    ensures Collapse(TightRows(rows, before), TightCounts(rows, before), rows, before)
    ensures AtMost(TightCounts(rows, before), |rows|)
    decreases |rows|
  {
    hide Begins, Collapse, TightRows, TightCounts, Taken, AtMost;
    if rows == [] {
      NothingTight(before);
    } else {
      var n := Taken(rows, before);
      assert AllOf(width, rows[n..]);
      TightCollapses(rows[n..], rows[0][width - 1], width);
      hide AllOf;
      TakenAlike(rows, before);
      var d, c := TightRows(rows[n..], rows[0][width - 1]), TightCounts(rows[n..], rows[0][width - 1]);
      CollapseMore(rows, before, n, d, c);
      MoreTight(rows, before);
      AtMostMore(n - 1, c, |rows| - n, |rows|);
    }
  }

  lemma {:induction false} NothingTight(before: bool)
    ensures Collapse(TightRows([], before), TightCounts([], before), [], before) && AtMost(TightCounts([], before), 0)
  {}

  lemma {:induction false} MoreTight(rows: seq<Row>, before: bool)
    requires rows != [] && rows[0] != []
    ensures var n := Taken(rows, before);
      TightRows(rows, before) == [rows[0]] + TightRows(rows[n..], rows[0][|rows[0]| - 1])
    ensures var n := Taken(rows, before);
      TightCounts(rows, before) == [n - 1] + TightCounts(rows[n..], rows[0][|rows[0]| - 1])
  {}

  lemma TakenAlike(rows: seq<Row>, before: bool)
    requires rows != []
    ensures var n := Taken(rows, before);
      Alike(rows, rows[0], n) && (n > 1 ==> Begins(rows[0], before))
  {}

  lemma {:induction false} CollapseMore(rows: seq<Row>, before: bool, n: nat, d: seq<Row>, c: seq<nat>)
    requires 0 < n <= |rows| && rows[0] != [] && Alike(rows, rows[0], n)
    requires n > 1 ==> Begins(rows[0], before)
    requires Collapse(d, c, rows[n..], rows[0][|rows[0]| - 1])
    ensures Collapse([rows[0]] + d, [n - 1] + c, rows, before)
  {
    hide Begins;
    assert ([rows[0]] + d)[1..] == d && ([n - 1] + c)[1..] == c;
  }

  lemma AtMostMore(count: nat, counts: seq<nat>, less: nat, limit: nat)
    requires count <= limit && less <= limit && AtMost(counts, less)
    ensures AtMost([count] + counts, limit)
  {}

  /** The rows begin with so many copies of the row. */
  predicate Alike(rows: seq<Row>, row: Row, n: nat) { n <= |rows| && rows[..n] == Times(row, n) }

  /** A collapse of the rows behind an open run, all of whose runs are short enough. */
  predicate Goes(distinct: seq<Row>, counts: seq<nat>, rows: seq<Row>, open_: Open, limit: nat) {
    Collapse(distinct, counts, rows, open_.black) && Fits(Flat(distinct), open_, limit)
  }

  /** The run open is at least the one that stands behind the row. */
  predicate AsLong(row: Row, from: Open, open_: Open) {
    row != [] && open_.black == row[|row| - 1] && open_.length >= Feed(row, from).length
  }

  /** Copies of the row that stood last can be left off in front of a collapse: the run open there stays as
      long as the row leaves it. */
  lemma {:induction false} Skip(row: Row, from: Open, distinct: seq<Row>, counts: seq<nat>, rows: seq<Row>, open_: Open, n: nat, limit: nat)
    returns (d: seq<Row>, c: seq<nat>, o: Open)
    requires row != [] && Begins(row, from.black) && AsLong(row, from, open_)
    requires Goes(distinct, counts, rows, open_, limit) && Alike(rows, row, n)
    ensures Goes(d, c, rows[n..], o, limit) && AsLong(row, from, o)
    decreases |distinct|
  {
    hide Begins, Goes, Alike, AsLong;
    AlikeLength(rows, row, n);
    if n == 0 {
      assert rows[0..] == rows;
      return distinct, counts, open_;
    }
    FirstGroup(distinct, counts, rows, open_, limit);
    FirstAlike(rows, row, n);
    var k: nat := counts[0] + 1;
    if k <= n {
      StaysLong(row, from, open_);
      LaterAlike(rows, row, n, k);
      d, c, o := Skip(row, from, distinct[1..], counts[1..], rows[k..], Feed(row, open_), n - k, limit);
      Drops(rows, k, n);
    } else {
      d, c, o := distinct, [counts[0] - n] + counts[1..], open_;
      FewerCopies(distinct, counts, rows, open_, n, limit);
    }
  }

  lemma AlikeLength(rows: seq<Row>, row: Row, n: nat)
    requires Alike(rows, row, n)
    ensures n <= |rows|
  {}

  lemma FirstAlike(rows: seq<Row>, row: Row, n: nat)
    requires Alike(rows, row, n) && n > 0
    ensures rows != [] && rows[0] == row
  {
    assert rows[..n][0] == row;
  }

  lemma LaterAlike(rows: seq<Row>, row: Row, n: nat, k: nat)
    requires k <= n && Alike(rows, row, n)
    ensures k <= |rows| && Alike(rows[k..], row, n - k)
  {
    LaterTimes(rows, row, n, k);
  }

  lemma Drops<T>(s: seq<T>, k: nat, n: nat)
    requires k <= n <= |s|
    ensures s[k..][n - k..] == s[n..]
  {}

  lemma {:induction false} FirstGroup(distinct: seq<Row>, counts: seq<nat>, rows: seq<Row>, open_: Open, limit: nat)
    requires Goes(distinct, counts, rows, open_, limit) && rows != []
    ensures distinct != [] && counts != [] && rows[0] != [] && counts[0] + 1 <= |rows| && distinct[0] == rows[0]
    ensures Alike(rows, rows[0], counts[0] + 1)
    ensures counts[0] > 0 ==> Begins(rows[0], open_.black)
    ensures Fits(rows[0], open_, limit) && Feed(rows[0], open_).black == rows[0][|rows[0]| - 1]
    ensures Goes(distinct[1..], counts[1..], rows[counts[0] + 1..], Feed(rows[0], open_), limit)
  {
    hide Begins, Fits, Feed, Flat;
    assert rows[0] == rows[..counts[0] + 1][0] == distinct[0];
    hide Collapse;
    FlatFits(distinct, open_, limit);
    LastColour(rows[0], open_);
  }

  lemma LaterTimes(rows: seq<Row>, row: Row, n: nat, k: nat)
    requires k <= n <= |rows| && rows[..n] == Times(row, n)
    ensures rows[k..][..n - k] == Times(row, n - k)
  {
    var later := rows[k..][..n - k];
    forall i | 0 <= i < |later|
      ensures later[i] == row
    {
      assert rows[..n][k + i] == row;
    }
  }

  lemma {:induction false} FlatFits(distinct: seq<Row>, open_: Open, limit: nat)
    requires distinct != [] && Fits(Flat(distinct), open_, limit)
    ensures Fits(distinct[0], open_, limit) && Fits(Flat(distinct[1..]), Feed(distinct[0], open_), limit)
  {
    FeedJoins(distinct[0], Flat(distinct[1..]), open_, limit);
  }

  lemma StaysLong(row: Row, from: Open, open_: Open)
    requires row != [] && Begins(row, from.black) && AsLong(row, from, open_)
    ensures AsLong(row, from, Feed(row, open_))
  {
    hide Begins, Feed;
    AgainNoShorter(row, from);
    LastColour(row, from);
    LastColour(row, open_);
    Shorter(row, open_.black, Feed(row, from).length, open_.length, 0);
  }

  lemma {:induction false} FewerCopies(distinct: seq<Row>, counts: seq<nat>, rows: seq<Row>, open_: Open, n: nat, limit: nat)
    requires Goes(distinct, counts, rows, open_, limit) && distinct != [] && counts != [] && 0 < n <= counts[0] < |rows|
    ensures Goes(distinct, [counts[0] - n] + counts[1..], rows[n..], open_, limit)
  {
    hide Begins;
    var c := [counts[0] - n] + counts[1..];
    assert c[1..] == counts[1..];
    Drops(rows, n, counts[0] + 1);
    LaterTimes(rows, distinct[0], counts[0] + 1, n);
  }

  /** If any collapse of the rows has runs short enough, the tight one has. */
  lemma {:induction false} TightIsBest(distinct: seq<Row>, counts: seq<nat>, rows: seq<Row>, before: bool, less: nat, more: nat, limit: nat)
    requires less <= more && Goes(distinct, counts, rows, Open(before, more), limit)
    ensures Fits(Flat(TightRows(rows, before)), Open(before, less), limit)
    decreases |rows|
  {
    hide Begins, Feed, Fits, Flat, Goes, Taken, Alike, TightRows;
    if rows == [] {
      NothingFits(before, Open(before, less), limit);
      return;
    }
    FirstGroup(distinct, counts, rows, Open(before, more), limit);
    var row, n, k: nat := rows[0], Taken(rows, before), counts[0] + 1;
    var from := Open(before, less);
    TakenAlike(rows, before);
    TakenMost(rows, before, k);
    var d, c, o := SkipTaken(row, from, distinct[1..], counts[1..], rows, n, k, Open(before, more), limit);
    TightIsBest(d, c, rows[n..], row[|row| - 1], Feed(row, from).length, o.length, limit);
    TightFits(rows, before, less, limit);
  }

  lemma SkipTaken(row: Row, from: Open, distinct: seq<Row>, counts: seq<nat>, rows: seq<Row>, n: nat, k: nat, open_: Open, limit: nat)
    returns (d: seq<Row>, c: seq<nat>, o: Open)
    requires row != [] && 0 < k <= n && Alike(rows, row, n) && (n > 1 ==> Begins(row, from.black))
    requires from.black == open_.black && from.length <= open_.length && Fits(row, open_, limit)
    requires k <= |rows| && n <= |rows| && Goes(distinct, counts, rows[k..], Feed(row, open_), limit)
    ensures Goes(d, c, rows[n..], o, limit) && o.black == row[|row| - 1]
    ensures Fits(row, from, limit)
    ensures Feed(row, from).black == row[|row| - 1] && Feed(row, from).length <= o.length
  {
    hide Begins, Feed, Fits, Goes, Alike;
    Shorter(row, from.black, from.length, open_.length, limit);
    LastColour(row, from);
    LastColour(row, open_);
    d, c, o := distinct, counts, Feed(row, open_);
    if n > 1 {
      LaterAlike(rows, row, n, k);
      d, c, o := Skip(row, from, d, c, rows[k..], o, n - k, limit);
      Drops(rows, k, n);
    }
  }

  lemma NothingFits(before: bool, open_: Open, limit: nat)
    ensures Fits(Flat(TightRows([], before)), open_, limit)
  {}

  lemma TakenMost(rows: seq<Row>, before: bool, k: nat)
    requires rows != [] && k > 0 && Alike(rows, rows[0], k) && (k > 1 ==> Begins(rows[0], before))
    ensures k <= Taken(rows, before)
  {
    forall i | 0 <= i < k
      ensures rows[i] == rows[0]
    {
      assert rows[..k][i] == rows[0];
    }
  }

  lemma {:induction false} TightFits(rows: seq<Row>, before: bool, less: nat, limit: nat)
    requires rows != [] && rows[0] != [] && Fits(rows[0], Open(before, less), limit)
    requires var row := rows[0];
      Feed(row, Open(before, less)).black == row[|row| - 1]
      && Fits(Flat(TightRows(rows[Taken(rows, before)..], row[|row| - 1])), Feed(row, Open(before, less)), limit)
    ensures Fits(Flat(TightRows(rows, before)), Open(before, less), limit)
  {
    hide Begins, Feed, Fits, Taken, TightRows;
    MoreTight(rows, before);
    FeedJoins(rows[0], Flat(TightRows(rows[Taken(rows, before)..], rows[0][|rows[0]| - 1])), Open(before, less), limit);
  }

  /** So a picture has a raster exactly where its rows, every copy a count can stand for left off, have no run
      too long to be coded: a picture is never so high that a count of its rows has no code. */
  lemma RasterWhereTightFits(rows: seq<Row>, dyn: dynamic, width: nat)
    requires IsPicture(rows, width) && |rows| <= INT32_MAX
    ensures HasRaster(rows, dyn, width) <==>
      Fits(Flat(TightRows(rows, Before(rows))), Open(Before(rows), 0), Largest(dyn))
  {
    hide HasRaster, Begins, Fits, Flat, Collapse, TightRows, TightCounts;
    RasterExactly(rows, dyn, width);
    if distinct, counts :| Encodes(distinct, counts, rows, dyn) {
      TightIsBest(distinct, counts, rows, Before(rows), 0, 0, Largest(dyn));
    }
    TightCollapses(rows, Before(rows), width);
    if Fits(Flat(TightRows(rows, Before(rows))), Open(Before(rows), 0), Largest(dyn)) {
      assert Encodes(TightRows(rows, Before(rows)), TightCounts(rows, Before(rows)), rows, dyn);
    }
  }

  lemma {:induction false} FewPixelsFit(row: Row, open_: Open, limit: nat)
    requires open_.length + |row| <= limit
    ensures Fits(row, open_, limit)
  {
    if row != [] { FewPixelsFit(row[1..], Extended(open_, row[0]), limit); }
  }

  function NoCounts(n: nat): (s: seq<nat>)
    ensures |s| == n && forall i :: 0 <= i < n ==> s[i] == 0
  {
    seq(n, _ => 0)
  }

  lemma {:induction false} UncountedCollapses(rows: seq<Row>, before: bool, width: nat)
    requires width > 0 && AllOf(width, rows)
    ensures Collapse(rows, NoCounts(|rows|), rows, before)
  {
    if rows != [] {
      UncountedCollapses(rows[1..], rows[0][width - 1], width);
      assert NoCounts(|rows|)[1..] == NoCounts(|rows[1..]|);
      assert rows[..1] == Times(rows[0], 1);
    }
  }

  /** A picture of no more pixels than the longest run has a raster. */
  lemma FewPixelsHaveRaster(rows: seq<Row>, dyn: dynamic, width: nat)
    requires IsPicture(rows, width) && |Flat(rows)| <= Largest(dyn)
    ensures HasRaster(rows, dyn, width)
  {
    hide HasRaster, Collapse, Fits, Flat;
    UncountedCollapses(rows, Before(rows), width);
    FewPixelsFit(Flat(rows), Open(Before(rows), 0), Largest(dyn));
    assert Encodes(rows, NoCounts(|rows|), rows, dyn);
    RasterExactly(rows, dyn, width);
  }

  /** A row of one colour all the way down has a raster whatever the height: one run and one count. */
  lemma AllAlikeHasRaster(black: bool, dyn: dynamic, width: nat, height: nat)
    requires 0 < width <= Largest(dyn) && 0 < height <= INT32_MAX
    ensures HasRaster(Times(Solid(black, width), height), dyn, width)
  {
    hide HasRaster, Fits;
    var rows := Times(Solid(black, width), height);
    var row := rows[0];
    assert row[0] != Before(rows);
    assert Begins(row, Before(rows));
    MoreTight(rows, Before(rows));
    assert rows[height..] == [];
    assert Leading(rows) == height;
    assert TightRows(rows[height..], row[width - 1]) == [];
    OneRow(row);
    FewPixelsFit(row, Open(Before(rows), 0), Largest(dyn));
    RasterWhereTightFits(rows, dyn, width);
  }

  lemma OneRow(row: Row)
    ensures Flat([row] + []) == row
  {
    assert ([row] + [])[1..] == [];
  }
}
