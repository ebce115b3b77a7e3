/** The filename index as an image a format carries, and the index an image gives back. */
module FileDbImage {
  import opened Bytes
  import opened Words
  import opened OpenIndex
  import opened FileDb

  const TAG: nat := 0x3262_646c_6966_3a58
  const ENTRY_BYTES: nat := 16
  const HEAD: nat := 64

  /** The arrays an index is, nothing in them an address. */
  datatype Index = Index(slots: seq<nat>, entries: seq<Entry>, bytes: seq<byte>)

  function Fields(entries: seq<Entry>): (fields: seq<nat>)
    ensures |fields| == 4 * |entries|
  {
    if entries == [] then []
    else [entries[0].path, entries[0].name, entries[0].nameLength, entries[0].place] + Fields(entries[1..])
  }

  function FromFields(fields: seq<nat>): (entries: seq<Entry>) {
    if |fields| < 4 then [] else [Entry(fields[0], fields[1], fields[2], fields[3])] + FromFields(fields[4..])
  }

  lemma {:induction false} FieldsBack(entries: seq<Entry>)
    ensures FromFields(Fields(entries)) == entries
  {
    if entries != [] {
      FieldsBack(entries[1..]);
      assert Fields(entries)[4..] == Fields(entries[1..]);
    }
  }

  /** One zero-ended string after another. */
  function Strings(texts: seq<seq<byte>>): seq<byte> {
    if texts == [] then [] else texts[0] + [0] + Strings(texts[1..])
  }

  /** The loop that takes the search paths out again: one string for each kind, while any bytes are left. */
  function TakeStrings(bytes: seq<byte>, count: nat): seq<seq<byte>>
    decreases count
  {
    if count == 0 || bytes == [] then []
    else
      var text := CString(bytes);
      [text] + TakeStrings(if |text| < |bytes| then bytes[|text| + 1..] else [], count - 1)
  }

  lemma {:induction false} StringsBack(texts: seq<seq<byte>>)
    requires forall i :: 0 <= i < |texts| ==> NoZero(texts[i])
    ensures TakeStrings(Strings(texts), |texts|) == texts
    ensures texts != [] ==> Strings(texts) != [] && Strings(texts)[|Strings(texts)| - 1] == 0
  {
    if texts != [] {
      hide CString;
      StringsBack(texts[1..]);
      FirstString(texts[0], Strings(texts[1..]));
    }
  }

  lemma FirstString(text: seq<byte>, others: seq<byte>)
    requires NoZero(text)
    ensures var bytes := text + [0] + others;
      CString(bytes) == text && |bytes| > |text| && bytes[|text| + 1..] == others
  {
    hide CString;
    var bytes := text + [0] + others;
    assert text + [0] <= bytes;
    CStringIs(bytes, text);
  }

  // ----- the image -----

  const KINDS: nat := 8

  function Head(index: Index, stamp: nat, treesLength: nat, pathsLength: nat): seq<nat> {
    [TAG, ENTRY_BYTES, |index.slots|, |index.entries|, |index.bytes|, stamp, treesLength, pathsLength]
  }

  /** hstex_file_db_image: the pieces in order, each array at a multiple of eight. */
  function Pieces(index: Index, trees: seq<byte>, stamp: nat, paths: seq<seq<byte>>): seq<seq<byte>> {
    var pathBytes := Strings(paths);
    var slotBytes := Scalars(index.slots, 4);
    var atPaths := HEAD + |trees| + 1;
    var atSlots := Aligned(atPaths + |pathBytes|, 8);
    var atBytes := Aligned(atSlots + |slotBytes|, 8) + Size(4 * |index.entries|, 4);
    [Scalars(Head(index, stamp, |trees| + 1, |pathBytes|), 8), trees + [0], pathBytes,
     Padding(atPaths + |pathBytes|, 8), slotBytes, Padding(atSlots + |slotBytes|, 8),
     Scalars(Fields(index.entries), 4), index.bytes, Padding(atBytes + |index.bytes|, 8)]
  }

  function Image(index: Index, trees: seq<byte>, stamp: nat, paths: seq<seq<byte>>): seq<byte> {
    Joined(Pieces(index, trees, stamp, paths))
  }

  /** Every entry names its bytes. */
  predicate Named(entries: seq<Entry>, byteCount: nat) {
    forall i :: 0 <= i < |entries| ==>
      entries[i].path < byteCount && entries[i].name < byteCount && entries[i].nameLength <= byteCount - entries[i].name
  }

  datatype Adoption = Adoption(index: Index, trees: seq<byte>, paths: Option<seq<seq<byte>>>)

  predicate HeadOK(head: seq<nat>, length: nat)
    requires |head| == 8 && length >= HEAD
  {
    && head[0] == TAG && head[1] == ENTRY_BYTES
    && PowerOfTwo(head[2]) && head[3] != 0 && head[6] != 0
    && head[2] <= 0x1FFF_FFFF_FFFF_FFFF && head[3] <= 0x3FF_FFFF_FFFF_FFFF && head[4] <= 0x7FFF_FFFF_FFFF_FFFF
    && head[6] <= length - HEAD && head[7] <= length - HEAD - head[6]
  }

  /** hstex_file_db_adopt_image: what an image gives back, or None where it is not one or its stamp is
      not the trees'. */
  function Adopted(image: seq<byte>, stampOf: seq<byte> -> nat): Option<Adoption> {
    if |image| < HEAD then None
    else
      HeadSize();
      var head := ReadWords(image, 0, 8, 8);
      if !HeadOK(head, |image|) then None else AdoptedBehind(image, head, stampOf)
  }

  lemma HeadSize()
    ensures Size(8, 8) == HEAD
  {
    assert Size(3, 8) == 24;
    assert Size(6, 8) == 48;
  }

  /** Where a head says the arrays begin. */
  function SlotsAt(head: seq<nat>): nat
    requires |head| == 8
  {
    Aligned(HEAD + head[6] + head[7], 8)
  }

  function EntriesAt(head: seq<nat>): nat
    requires |head| == 8
  {
    Aligned(SlotsAt(head) + Size(head[2], 4), 8)
  }

  function BytesAt(head: seq<nat>): nat
    requires |head| == 8
  {
    EntriesAt(head) + Size(4 * head[3], 4)
  }

  /** The image holds what its head says. */
  predicate Whole(head: seq<nat>, length: nat)
    requires |head| == 8
  {
    BytesAt(head) + head[4] <= length
  }

  /** The test hstex_file_db_adopt_image makes of it, whose subtraction is of 64 bits. */
  predicate TakenForWhole(head: seq<nat>, length: nat)
    requires |head| == 8
  {
    head[4] <= (length - BytesAt(head)) % WORD
  }

  const WORD: nat := 0x1_0000_0000_0000_0000

  lemma {:induction false} SizeIs(count: nat, width: nat)
    ensures Size(count, width) == count * width
  {
    if count > 0 {
      SizeIs(count - 1, width);
      assert count * width == (count - 1) * width + width;
    }
  }

  /** The test is right except where the bytes would begin behind the end of the image and are not so many that
      64 bits tell: there the image is taken for a whole one. */
  lemma TakenForWholeExactly(head: seq<nat>, length: nat)
    requires |head| == 8 && HEAD <= length <= 0x4000_0000_0000_0000 && HeadOK(head, length)
    ensures BytesAt(head) < WORD
    ensures TakenForWhole(head, length) <==>
      Whole(head, length) || (length < BytesAt(head) && BytesAt(head) + head[4] <= length + WORD)
  {
    hide Size, Aligned, PowerOfTwo;
    SizeIs(head[2], 4);
    SizeIs(4 * head[3], 4);
    var left := length - BytesAt(head);
    if left < 0 {
      WrapsOnce(left, WORD);
    } else {
      NoWrap(left, WORD);
    }
  }

  lemma WrapsOnce(n: int, m: nat)
    requires n < 0 <= n + m
    ensures n % m == n + m
  {
    assert (n + m) % m == n + m;
    assert n == m * -1 + (n + m);
  }

  lemma NoWrap(n: nat, m: nat)
    requires n < m
    ensures n % m == n
  {}

  /** The least image so taken: one slot, one entry and one byte promised, and none of them there. */
  lemma ShortImageTaken()
    ensures var head := [TAG, ENTRY_BYTES, 1, 1, 1, 0, 1, 0];
      HeadOK(head, HEAD + 1) && !Whole(head, HEAD + 1) && TakenForWhole(head, HEAD + 1)
  {
    var head := [TAG, ENTRY_BYTES, 1, 1, 1, 0, 1, 0];
    SizeIs(1, 4);
    SizeIs(4, 4);
    assert BytesAt(head) == 96;
    assert PowerOfTwo(1);
    TakenForWholeExactly(head, HEAD + 1);
  }

  function AdoptedBehind(image: seq<byte>, head: seq<nat>, stampOf: seq<byte> -> nat): Option<Adoption>
    requires |image| >= HEAD && |head| == 8 && HeadOK(head, |image|)
  {
    var atPaths := HEAD + head[6];
    var trees := image[HEAD..atPaths];
    var (atSlots, atEntries, atBytes) := (SlotsAt(head), EntriesAt(head), BytesAt(head));
    if trees[|trees| - 1] != 0 || !Whole(head, |image|) then None
    else
      var entries := FromFields(ReadWords(image, atEntries, 4, 4 * head[3]));
      if !Named(entries, head[4]) || stampOf(CString(trees)) != head[5] then None
      else
        var pathBytes := image[atPaths..atPaths + head[7]];
        Some(Adoption(
          Index(ReadWords(image, atSlots, 4, head[2]), entries, image[atBytes..atBytes + head[4]]), CString(trees),
          if pathBytes != [] && pathBytes[|pathBytes| - 1] == 0 then Some(TakeStrings(pathBytes, KINDS)) else None))
  }

  // ----- the round trip -----

  /** What the image's own words can hold. */
  predicate Fits(index: Index, trees: seq<byte>, stamp: nat, paths: seq<seq<byte>>) {
    && PowerOfTwo(|index.slots|) && |index.slots| < 0x1_0000_0000
    && Narrow(index.slots, 4) && Narrow(Fields(index.entries), 4)
    && 0 < |index.entries| < 0x1_0000_0000 && |index.bytes| < 0x1_0000_0000
    && Named(index.entries, |index.bytes|)
    && stamp < 0x1_0000_0000_0000_0000
    && NoZero(trees) && |trees| < 0x1_0000_0000
    && |paths| == KINDS && (forall i :: 0 <= i < |paths| ==> NoZero(paths[i])) && |Strings(paths)| < 0x1_0000_0000
  }

  /** Where each piece of an image begins. */
  lemma PiecesAt(index: Index, trees: seq<byte>, stamp: nat, paths: seq<seq<byte>>)
    ensures var image, pieces := Image(index, trees, stamp, paths), Pieces(index, trees, stamp, paths);
      var atPaths := HEAD + |trees| + 1;
      var atSlots := Aligned(atPaths + |Strings(paths)|, 8);
      var atEntries := Aligned(atSlots + Size(|index.slots|, 4), 8);
      var atBytes := atEntries + Size(4 * |index.entries|, 4);
      && Stands(pieces[0], image, 0)
      && Stands(trees + [0], image, HEAD)
      && Stands(Strings(paths), image, atPaths)
      && Stands(Scalars(index.slots, 4), image, atSlots)
      && Stands(Scalars(Fields(index.entries), 4), image, atEntries)
      && Stands(index.bytes, image, atBytes)
  {
    hide Stands, Strings, Scalars, Fields, Size, Joined, Aligned;
    HeadSize();
    var pieces := Pieces(index, trees, stamp, paths);
    PieceStands(pieces, 0);
    PieceStands(pieces, 1);
    PieceStands(pieces, 2);
    PieceStands(pieces, 4);
    PieceStands(pieces, 6);
    PieceStands(pieces, 7);
    assert Offset(pieces, 2) == HEAD + |trees| + 1;
    assert Offset(pieces, 4) == Aligned(HEAD + |trees| + 1 + |Strings(paths)|, 8);
  }

  /** An image gives back the arrays, the trees and the paths it was made from, exactly while its stamp
      is still the trees'. */
  lemma ImageRoundTrip(index: Index, trees: seq<byte>, stamp: nat, paths: seq<seq<byte>>, stampOf: seq<byte> -> nat)
    requires Fits(index, trees, stamp, paths)
    ensures Adopted(Image(index, trees, stamp, paths), stampOf)
         == if stampOf(trees) == stamp then Some(Adoption(index, trees, Some(paths))) else None
  {
    hide Image, Strings, Fields, AdoptedBehind, Named, Narrow, PowerOfTwo, Stands, Scalars, ReadWords;
    var image := Image(index, trees, stamp, paths);
    var head := Head(index, stamp, |trees| + 1, |Strings(paths)|);
    PiecesAt(index, trees, stamp, paths);
    HeadSize();
    HeadReads(image, head);
    ImageHolds(image, index, trees, stamp, paths);
    BehindReads(image, index, trees, stamp, paths, stampOf);
  }

  lemma HeadReads(image: seq<byte>, head: seq<nat>)
    requires |head| == 8 && Stands(Scalars(head, 8), image, 0)
    requires forall i :: 0 <= i < 8 ==> head[i] < 0x1_0000_0000_0000_0000
    ensures |image| >= HEAD && Size(8, 8) == HEAD && ReadWords(image, 0, 8, 8) == head
  {
    hide Scalars, ReadWords;
    HeadSize();
    Range8();
    WordsRead(head, 8, image, 0);
  }

  lemma ImageHolds(image: seq<byte>, index: Index, trees: seq<byte>, stamp: nat, paths: seq<seq<byte>>)
    requires Fits(index, trees, stamp, paths)
    requires Stands(trees + [0], image, HEAD) && Stands(Strings(paths), image, HEAD + |trees| + 1)
    ensures |image| >= HEAD
    ensures HeadOK(Head(index, stamp, |trees| + 1, |Strings(paths)|), |image|)
  {
    hide Named, Narrow, PowerOfTwo, Strings;
  }

  lemma BehindReads(image: seq<byte>, index: Index, trees: seq<byte>, stamp: nat, paths: seq<seq<byte>>, stampOf: seq<byte> -> nat)
    requires Fits(index, trees, stamp, paths) && image == Image(index, trees, stamp, paths)
    requires |image| >= HEAD
    requires HeadOK(Head(index, stamp, |trees| + 1, |Strings(paths)|), |image|)
    ensures AdoptedBehind(image, Head(index, stamp, |trees| + 1, |Strings(paths)|), stampOf)
         == if stampOf(trees) == stamp then Some(Adoption(index, trees, Some(paths))) else None
  {
    hide Image, Strings, TakeStrings, Fields, FromFields, Named, Narrow, PowerOfTwo, Scalars, ReadWords, CString, HeadOK, Aligned, Size;
    PiecesAt(index, trees, stamp, paths);
    WordsRead(index.slots, 4, image, Aligned(HEAD + |trees| + 1 + |Strings(paths)|, 8));
    var atEntries := Aligned(Aligned(HEAD + |trees| + 1 + |Strings(paths)|, 8) + Size(|index.slots|, 4), 8);
    WordsRead(Fields(index.entries), 4, image, atEntries);
    FieldsBack(index.entries);
    StringsBack(paths);
    CStringIs(trees + [0], trees);
  }

  // ----- the index that writes it and the one that takes it -----

  ghost function IndexOf(db: FileDb): Index
    reads db, db.slots
  {
    Index(db.slots[..], db.entries, db.bytes)
  }

  /** The sizes an image has room for. */
  ghost predicate Small(db: FileDb, trees: seq<byte>, stamp: nat, paths: seq<seq<byte>>)
    reads db, db.slots
  {
    && db.slots.Length < 0x1_0000_0000 && |db.bytes| < 0x1_0000_0000
    && stamp < 0x1_0000_0000_0000_0000
    && NoZero(trees) && |trees| < 0x1_0000_0000
    && |paths| == KINDS && (forall i :: 0 <= i < |paths| ==> NoZero(paths[i])) && |Strings(paths)| < 0x1_0000_0000
  }

  /** hstex_file_db_image: None where nothing is held or the trees are not known. */
  method WriteImage(db: FileDb, trees: seq<byte>, stamp: nat, paths: seq<seq<byte>>) returns (image: Option<seq<byte>>)
    requires db.Valid()
    ensures image == if db.held == [] || trees == [] then None else Some(Image(IndexOf(db), trees, stamp, paths))
  {
    hide Image;
    if |db.entries| == 0 || trees == [] || db.slots.Length == 0 {
      return None;
    }
    image := Some(Image(Index(db.slots[..], db.entries, db.bytes), trees, stamp, paths));
  }

  lemma {:induction false} FieldsNarrow(entries: seq<Entry>, limit: nat)
    requires forall i :: 0 <= i < |entries| ==>
      entries[i].path < limit && entries[i].name < limit && entries[i].nameLength < limit && entries[i].place < limit
    ensures forall i :: 0 <= i < |Fields(entries)| ==> Fields(entries)[i] < limit
  {
    if entries != [] { FieldsNarrow(entries[1..], limit); }
  }

  lemma EntryNamed(entry: Entry, bytes: seq<byte>, file: Held)
    requires Holds(entry, bytes, file)
    ensures entry.path < |bytes| && entry.name < |bytes| && entry.nameLength <= |bytes| - entry.name && entry.place < 9
  {}

  lemma EntriesFit(entries: seq<Entry>, bytes: seq<byte>, held: seq<Held>)
    requires AllHeld(entries, bytes, held) && |bytes| < 0x1_0000_0000
    ensures Named(entries, |bytes|) && Narrow(Fields(entries), 4)
  {
    hide Holds, Fields;
    Range4();
    forall i | 0 <= i < |entries|
      ensures entries[i].path < |bytes| && entries[i].name < |bytes| && entries[i].nameLength <= |bytes| - entries[i].name && entries[i].place < 9
    {
      EntryNamed(entries[i], bytes, held[i]);
    }
    FieldsNarrow(entries, 0x1_0000_0000);
  }

  lemma SlotsFit(slots: seq<nat>, held: seq<Held>, steps: seq<nat>)
    requires Ring(slots, held, steps) && |held| < 0x1_0000_0000
    ensures Narrow(slots, 4)
  {
    Range4();
    hide Ring;
    forall s | 0 <= s < |slots|
      ensures slots[s] < Range(4)
    {
      if slots[s] != 0 { HeldAt(held, slots, steps, s); }
    }
  }

  /** Every index that is small enough fits its image. */
  lemma ValidFits(db: FileDb, trees: seq<byte>, stamp: nat, paths: seq<seq<byte>>)
    requires db.Valid() && db.held != [] && Small(db, trees, stamp, paths)
    ensures Fits(IndexOf(db), trees, stamp, paths)
  {
    hide Strings, AllHeld, Ring, Narrow, Named, PowerOfTwo;
    EntriesFit(db.entries, db.bytes, db.held);
    SlotsFit(db.slots[..], db.held, db.steps);
    HeldCount(db.entries, db.bytes, db.held);
  }

  lemma HeldCount(entries: seq<Entry>, bytes: seq<byte>, held: seq<Held>)
    requires AllHeld(entries, bytes, held)
    ensures |entries| == |held|
  {}

  /** hstex_file_db_adopt_image, of an image that holds what its head says or is refused for it: its arrays
      stand in the index, or nothing of the index is changed. What the arrays say the index holds is for the caller to say. */
  method AdoptImage(db: FileDb, image: seq<byte>, stampOf: seq<byte> -> nat, ghost held: seq<Held>, ghost steps: seq<nat>)
    returns (adopted: Option<Adoption>)
    modifies db
    ensures adopted == Adopted(image, stampOf)
    ensures adopted.Some? ==> IndexOf(db) == adopted.value.index && fresh(db.slots) && db.held == held && db.steps == steps
    ensures adopted.None? ==> unchanged(db)
  {
    hide Adopted;
    adopted := Adopted(image, stampOf);
    if adopted.Some? {
      var index := adopted.value.index;
      var slots := new nat[|index.slots|](i requires 0 <= i < |index.slots| => index.slots[i]);
      assert slots[..] == index.slots;
      db.slots := slots;
      db.entries := index.entries;
      db.bytes := index.bytes;
      db.held := held;
      db.steps := steps;
    }
  }

  /** An image another index wrote is taken exactly while the stamp is the trees', and then the index holds
      what the other one holds, so it answers every query as the other does. */
  method AdoptWritten(db: FileDb, image: seq<byte>, stampOf: seq<byte> -> nat, ghost source: FileDb, ghost trees: seq<byte>,
                      ghost stamp: nat, ghost paths: seq<seq<byte>>) returns (adopted: Option<Adoption>)
    requires db != source && source.Valid() && source.held != [] && Small(source, trees, stamp, paths)
    requires image == Image(IndexOf(source), trees, stamp, paths)
    modifies db
    ensures adopted == if stampOf(trees) == stamp then Some(Adoption(IndexOf(source), trees, Some(paths))) else None
    ensures adopted.Some? ==> db.Valid() && fresh(db.slots) && db.held == source.held
    ensures adopted.None? ==> unchanged(db)
  {
    hide Image, Strings, Adopted, Fits, AllHeld, Ring;
    ValidFits(source, trees, stamp, paths);
    ImageRoundTrip(IndexOf(source), trees, stamp, paths, stampOf);
    adopted := AdoptImage(db, image, stampOf, source.held, source.steps);
    assert adopted.Some? ==> db.slots.Length == |IndexOf(db).slots| == source.slots.Length;
  }
}
