# HSTeX input, storage and font codecs, modelled and proved

HSTeX is a TeX engine written in C. This project models the layers beneath its
expansion and page building in Dafny, and proves what those layers are for.

- **The format stream** (`FormatPieces`, `FormatRecords`, `FormatMacros`, `Format`, `FormatStream`): one
  routine writes and reads everything an engine's state is. Definition records are written with the
  addresses their bodies will have, register banks are cut at the last set register, records go out with
  their holes cleared. Three readers, of the file mapped at its base, mapped elsewhere and copied, get the
  same definitions.
- **The tokenizer and the input stack** (`Mouth`, `MouthReader`, `Source`, `SourceStack`, `Checkpoint`,
  `CheckpointFuture`): lines, `^^` notation and TeX's three states; frames, the store they share and what every
  push and pop keeps; a stack written to disk and read back, and exactly when it has the future it had.
- **The font codecs** (`Type1Numbers`, `Type1Charstring`, `Type1Cipher`, `Type1Private`, `Type1Section`,
  `Type1RoundTrip`, `Type1Sample`; `PkNumber`, `PkBitmap`, `PkRaster`, `PkDecoder`, `PkEncoder`): the Type 1
  assembler and disassembler with both cipher layers (Adobe Type 1 Font Format, sections 6.2, 6.3 and 7.1 to
  7.3), the packed numbers and rasters of PK fonts, and exactly which pictures have a raster.
- **The two name indexes** (`OpenIndex`, `Fnv`, `Symbol`, `FileDb`, `FileDbImage`): a map and a multimap over open
  addressing, each against the list it speeds up, and the image the second is carried in.
- **The incremental and parallel rebuild** (`Incremental`, `IncrementalRun`, `IncrementalReuse`, `ParallelPlan`):
  what a cold run records, which checkpoint an edit leaves usable, exactly when it is right to use it, and how
  the pages are dealt out.

Each module gives the meaning of its part as functions, proves what the part promises about those functions,
and, where the C changes things step by step, has classes and loops that are proved to compute them. Files
are byte sequences, hashes and the engine's own state are arbitrary, pointers are a frame's own slot, an
offset in the store or in the file, or an array elsewhere, each slot and offset with the allocation it
belongs to.

Ten promises hold only under a condition. The code is modelled as it is, and the condition is proved exact
or the failing input given:

- A charstring that ends with a number prints as text the assembler refuses, because its closing brace
  then shares a line with the number (`Type1Section.EntryTransforms`, `Type1RoundTrip.NumberAtEndRefused`).
- With a dynamic value of 13 the two largest 32-bit numbers have a PK code that the decoder refuses
  (`PkNumber.CodeDecodes`).
- A picture has a raster exactly where repeat counts for its equal rows leave no run too long to be coded
  (`PkEncoder.RasterExactly`, `PkEncoder.RasterWhereTightFits`).
- A name already interned is refused where the arena could not hold it a second time, because the room is
  asked for first (`Symbol.InternAgain`).
- A file cut short before its first line is restored whole, so a restored stack has the future of the one
  written exactly where no file above its innermost boundary was cut short (`CheckpointFuture.RestoredExactly`,
  `CheckpointFuture.CutShortToldFurther`).
- Of arguments held back below a list's reading a list given back whole may have none
  (`SourceStack.SourceStack.HoldArgumentsBelow`).
- A boundary pop that keeps a template leaves the stack sound unless it has a template to keep and finds no
  boundary (`SourceStack.SourceStack.PopBoundaryKeepingTemplate`), and a restored stack is popped so as the one
  written is exactly where the template is owned or empty (`Checkpoint.PoppedAlikeExactly`).
- A prefix left intact does not fix the last line read of a file where that line was not terminated, or
  was by a carriage return that a line feed now follows: a checkpoint that may be reused is reached by the same
  answers exactly where that line's end is safe (`IncrementalRun.SameAnswersExactly`,
  `IncrementalRun.LengthenedLineIsReused`).
- And it is right to reuse after every such edit exactly where the run had read no further in the file than the
  checkpoint stands, which a file opened twice may fail (`IncrementalReuse.AlwaysRightExactly`,
  `IncrementalReuse.TwiceOpenedIsReused`). That no more than 256 changes are kept costs nothing
  (`Incremental.KeptAreEnough`).
- An image of the index is known to hold what its head says except where the bytes it promises would begin
  behind its end (`FileDbImage.TakenForWholeExactly`).

## Model

| member | source | states |
|---|---|---|
| `Type1Numbers.ParseInteger` | src/type1.c:260-294 | The one pass over the digits gives the 32-bit value a decimal text stands for, and refuses exactly the texts that stand for none |
| `Type1Numbers.FormatInteger` | src/type1.c:449-468 | The digits taken last first and turned round are the decimal text of every 32-bit integer |
| `Type1Numbers.DecimalParses` | src/type1.c:260-294 | Every 32-bit integer, the least one included, is parsed back from its decimal text |
| `Type1Numbers.NumberCode` | src/type1.c:296-320 | The one-, two- and five-byte forms are used on exactly the ranges -107 to 107, -1131 to 1131 and beyond |
| `Type1Numbers.NameInjective` | src/type1.c:34-60 | No two operators of the table have one spelling |
| `Type1Charstring.OperatorByCode` | src/type1.c:419-433 | The walk of the table gives the operator whose code stands there, if there is one |
| `Type1Charstring.OperatorByName` | src/type1.c:322-343 | The walk of the table gives the operator of that spelling, if there is one |
| `Type1Charstring.ElementComesBack` | src/type1.c:505-571 | Number and operator codes, whatever follows them, are read back as what was coded and take the bytes it took |
| `Type1Charstring.PrefixFree` | src/type1.c:296-343 | No code of a number or an operator begins another, so decoding is unambiguous |
| `Type1Charstring.CodesDecode` | src/type1.c:470-582 | The codes of any sequence of numbers and operators decode to that sequence |
| `Type1Charstring.Disassemble` | src/type1.c:470-582 | The disassembler's loop prints exactly the decoded sequence, and refuses at the first byte that begins no element |
| `Type1Charstring.Assemble` | src/type1.c:1171-1220 | The assembler's loop gives the codes of the tokens of its text, or refuses |
| `Type1Charstring.PrintedAssembles` | src/type1.c:435-447 | A printed sequence assembles to its own codes, whatever blank-led text comes behind it |
| `Type1Charstring.DecipherUndoesEncipher` | src/type1.c:1171-1220 | A charstring stored under any prefix length comes back as the code that was stored |
| `Type1Charstring.CharstringRoundTrip` | src/type1.c:470-582 | For every sequence of 32-bit integers and table operators and every lenIV of at least -1, the printed text encoded and disassembled is the same text |
| `Type1Cipher.DecryptUndoesEncrypt` | src/type1.c:345-355 | Decryption inverts type1_encrypt for any key and any length |
| `Type1Cipher.EncryptUndoesDecrypt` | src/type1.c:345-355 | And encryption inverts decryption |
| `Type1Cipher.EncryptInPlace` | src/type1.c:345-355 | The running 16-bit state, over the bytes in place, gives the cipher of what the bytes held |
| `Type1Cipher.Find` | src/type1.c:147-161 | The first place a phrase stands, or none exactly where it stands nowhere |
| `Type1Cipher.SectionEndUnique` | src/type1.c:810-867 | A plaintext has one end of its section at most |
| `Type1Cipher.DecryptEexec` | src/type1.c:810-867 | The plaintext behind the four-byte prefix through the end of the first line holding the closing phrase, a CRLF taken whole, with the exact count of cipher bytes used; no end is reported only where there is none |
| `Type1Private.TransformEntries` | src/type1.c:1330-1360 | The loop over lines stores every entry and copies every other line, or refuses |
| `Type1Private.AppendEntry` | src/type1.c:1258-1328 | An entry is stored as its header, its length, its reading word, its enciphered charstring and the text behind it |
| `Type1Private.FindEntryFinish` | src/type1.c:1222-1256 | The first line from there on that is a closing brace alone |
| `Type1Private.DisassemblePrivate` | src/type1.c:730-802 | The loop over the section, its settings changing as lines are read, gives the disassembled section |
| `Type1Private.AssembleFont` | src/type1.c:1386-1486 | The public text through the eexec line, and the cipher of the transformed private section behind four zeros |
| `Type1Section.EntryTransforms` | src/type1.c:1258-1328 | A printed entry assembles to its stored form if and only if its charstring is empty or ends with an operator |
| `Type1Section.LinesTransform` | src/type1.c:1330-1360 | Printed lines assemble to the stored ones if and only if every entry's charstring is empty or ends with an operator |
| `Type1RoundTrip.ShapeLocal` | src/type1.c:606-665 | Whether a line is shaped like an entry shows on the line alone |
| `Type1RoundTrip.StoredEntryDisassembles` | src/type1.c:730-802 | A stored entry, whatever its header and charstring, is printed back |
| `Type1RoundTrip.SectionDisassembles` | src/type1.c:730-802 | A stored section disassembles to the text it is the stored form of |
| `Type1RoundTrip.SectionAssembles` | src/type1.c:1386-1486 | A section in printed form assembles to its stored form if and only if every entry's charstring is empty or ends with an operator |
| `Type1RoundTrip.PrivateRoundTrip` | src/type1.c:1386-1486 | Assembling, deciphering and disassembling a section in printed form returns its text |
| `Type1Sample.SampleRoundTrip` | src/type1.c:1386-1486 | A section of one glyph is in printed form and in its place, assembles to its stored form, which ends where the section does, and comes back as the text it was |
| `Type1RoundTrip.NumberAtEndRefused` | src/type1.c:1222-1256 | The least input that does not survive: an entry whose charstring is one number |
| `PkNumber.CodeDecodes` | src/pk.c:106-174 | Every positive number has a code that decodes to it, up to the 32-bit bound of the dynamic value and no further |
| `PkNumber.DecodedIsCoded` | src/pk.c:106-174 | Whatever decodes begins with the one code of its number, which is never zero: the three ranges meet without gap or overlap |
| `PkNumber.CodesPrefixFree` | src/pk.c:106-174 | No code of a dynamic value begins another |
| `PkNumber.Reader.Next` | src/pk.c:93-104 | The next nybble, the high half of each byte first, or none exactly at the end |
| `PkNumber.Reader.PackedNumber` | src/pk.c:106-174 | A number and the repeat count it may have before it, as their codes say; refused where they are cut short, too large, or a second count for one row |
| `PkBitmap.SetBit` | src/pk.c:176-181 | Exactly one pixel of a byte turns black |
| `PkBitmap.Bitmap.SetBlack` | src/pk.c:176-181 | Exactly one pixel of the whole bitmap turns black |
| `PkBitmap.Bitmap.CopyRow` | src/pk.c:264-268 | One row becomes a copy of another and no other row changes |
| `PkRaster.PaintDraws` | src/pk.c:250-281 | Laying a run down finishes the rows it completes, each with its own repeat count, and leaves the rest of it for the next; it fails exactly where the picture would be too tall |
| `PkRaster.DecodedMeans` | src/pk.c:216-287 | A raster that decodes begins with items whose pixels, cut into rows and each row repeated by its own count, are the picture |
| `PkRaster.MeaningDecodes` | src/pk.c:216-287 | Items that make a picture of the glyph's height decode to it, whatever follows |
| `PkRaster.DecodesExactly` | src/pk.c:216-287 | A raster decodes to a picture if and only if it begins with items that mean it |
| `PkEncoder.CollapseShows` | src/pk.c:216-287 | Rows each with a count of its copies, placed where a run begins in the row, stand for the picture with the copies written out |
| `PkEncoder.ShownIsCollapse` | src/pk.c:216-287 | And whatever pixels and counts stand for a picture are its rows so collapsed |
| `PkEncoder.RasterExactly` | src/pk.c:216-287 | A picture has a raster that decodes to it if and only if counts for some of its equal rows leave no run and no count too long to be coded |
| `PkEncoder.TightIsBest` | src/pk.c:216-287 | Leaving off every copy that a count can stand for leaves runs no longer than any other way |
| `PkEncoder.RasterWhereTightFits` | src/pk.c:332-358 | So every picture of a height a packet can have has a raster if and only if it has one with every such copy left off |
| `PkEncoder.AllAlikeHasRaster` | src/pk.c:332-358 | A picture of one colour has a raster however many pixels it has, if one row of it has |
| `PkEncoder.FewPixelsHaveRaster` | src/pk.c:216-287 | A picture of no more pixels than the longest run has a raster, whatever it shows |
| `PkRaster.DecodeFrom` | src/pk.c:216-287 | A decoded glyph has its height in rows, and the last error, an incomplete row, cannot occur |
| `PkDecoder.DecodeRuns` | src/pk.c:216-287 | The loops draw in the bitmap exactly the picture the raster means, white in the padding, every write within bounds, or fail with the decoder's error |
| `PkDecoder.DecodeRaw` | src/pk.c:183-214 | The bits of a plain raster are the picture's pixels row by row; refused exactly where there are too few |
| `PkDecoder.RawRoundTrip` | src/pk.c:183-214 | Every picture comes back from its plain raster |
| `Mouth.ReadingsAgree` | src/mouth.c:184-232 | Rewriting the line and stepping over it reduce a chain of ^^ notation to the same character and leave the same bytes unread |
| `Mouth.ReducedOnce` | src/mouth.c:184-232 | A reduced character is not reduced further |
| `Mouth.TerminatorReadAgain` | src/mouth.c:293-308 | A name's terminator, put back, is read again as the same character at the cost of one byte |
| `Mouth.NameIsAllLetters` | src/mouth.c:287-312 | A name of letters is all the letters there are: only letters are taken, and what is unread behind it begins with none |
| `Mouth.BlankLineIsParagraph` | src/mouth.c:434-452 | A line of nothing but spaces is the paragraph token |
| `Mouth.MouthNext` | src/mouth.c:397-510 | The reading of a token ends, by unread file, loaded line and unread line in that order, and never goes back in the file |
| `Mouth.SpaceAlone` | src/mouth.c:397-510 | A space token is given only in the middle of a line, and leaves it |
| `Mouth.NoTwoSpaces` | src/mouth.c:397-510 | In a whole run, whatever the catcodes are at each call, no two consecutive tokens are spaces |
| `Mouth.LinesTile` | src/mouth.c:117-173 | The lines of a file together are every byte of it, once, in order |
| `Mouth.LinesTaken` | src/mouth.c:117-173 | At every call the tokenizer stands among those lines, having taken as many as its line number says, and the file ends with the last of them |
| `Mouth.PositionRestores` | src/mouth.c:341-385 | The position taken out and put back is the whole state if and only if the file was not cut short |
| `MouthReader.MouthReader.TakeLine` | src/mouth.c:117-173 | A line is loaded without its trailing spaces and with its end-of-line character, or the file has ended, or it has too many lines |
| `MouthReader.MouthReader.CollapseLine` | src/mouth.c:82-103 | The line with the character where its notation was and the bytes behind it moved down, its shown length made again |
| `MouthReader.MouthReader.ReadCharacter` | src/mouth.c:184-232 | The loop over the buffer, either way of reading, gives the fully reduced character and the line that goes with it |
| `MouthReader.MouthReader.ScanControlSequence` | src/mouth.c:268-329 | The name is the letters up to the first character that is not one, or one other character, and is interned |
| `MouthReader.MouthReader.Next` | src/mouth.c:397-510 | The loop over lines and characters gives the next token, the state it leaves and the names it interned |
| `Source.RegionsAscend` | src/source.c:620-687 | The store regions of a stack ascend, are not empty and do not overlap |
| `Source.StoreEmpty` | src/source.c:620-655 | Nothing is used of the store if and only if no frame stands in it, so it moves only while nothing reads it |
| `Source.FileTopFound` | src/source.c:73-118 | The innermost file is the last one of the stack |
| `Source.ViewsOK` | src/source.c:922-956 | Every stack that keeps its invariants shows its reader frames that are read within their bounds |
| `SourceStack.SourceStack.ReserveFrames` | src/source.c:37-71 | The frames moved, each self-held token pointed at its own slot again, and nothing a reader sees changed |
| `SourceStack.SourceStack.PopFrame` | src/source.c:73-118 | One frame less, the store given back to where it stood, top and innermost file as a scan would find them |
| `SourceStack.SourceStack.Settle` | src/source.c:123-136 | Every spent list on top is gone, but for the half of a template after its entry |
| `SourceStack.SourceStack.PushFile` | src/source.c:393-483 | A file, or a pseudo-file, opened above what is not spent |
| `SourceStack.SourceStack.PushTokens` | src/source.c:490-518 | A list above everything, nothing cleared away |
| `SourceStack.SourceStack.PushOwned` | src/source.c:523-558 | The same, owned; nothing is pushed for nothing |
| `SourceStack.SourceStack.PushOne` | src/source.c:563-618 | One token the frame itself holds, put back or begun |
| `SourceStack.SourceStack.PushDefinition` | src/source.c:723-754 | A definition's tokens read where they stand |
| `SourceStack.SourceStack.PushBoundary` | src/source.c:770-786 | A boundary above what is not spent |
| `SourceStack.SourceStack.Reserve` | src/source.c:620-655 | Room behind all that stands in the store, or none only where the store would have to move under a frame |
| `SourceStack.SourceStack.PushReserved` | src/source.c:657-687 | A frame on the room just written, refused exactly where it does not fit |
| `SourceStack.SourceStack.PushRoom` | src/source.c:689-699 | Room with a frame already standing on it |
| `SourceStack.SourceStack.Fill` | include/hstex/source.h:187-204 | What a caller writes into room it was given changes no frame beneath |
| `SourceStack.SourceStack.HoldArgumentsBelow` | src/source.c:701-721 | The list, wherever it stands and however far it was read, reads on past what is held and still gives back its whole region; the stack is left unsound exactly where something is held of a list it owns |
| `SourceStack.SourceStack.NameTop` | src/source.c:756-768 | The list on top is named, and nothing else changes |
| `SourceStack.SourceStack.AtBoundary` | src/source.c:795-799 | Whether a boundary is on top |
| `SourceStack.SourceStack.PopBoundary` | src/source.c:808-825 | Everything down to the innermost boundary is gone, or nothing where there is none |
| `SourceStack.SourceStack.PopBoundaryKeepingTemplate` | src/source.c:832-876 | The same, an owned template after its entry left standing, spent, where the boundary was; the stack is left unsound exactly where there is such a template and no boundary, its frame then standing on tokens given back |
| `SourceStack.SourceStack.EndCurrentFile` | src/source.c:878-920 | The innermost file ends after its line in hand, or its first; everything above it stays |
| `SourceStack.SourceStack.Next` | src/source.c:922-956 | The loop over frames, wherever their tokens stand, gives what reading the views gives |
| `SourceStack.SourceStack.Take` | include/hstex/source.h:232-264 | What it returns hstex_source_next would return, leaving the same stack; where it declines, hstex_source_next gives the same before and after its pops |
| `SourceStack.SourceStack.CurrentFile` | src/source.c:958-968 | The innermost file, without a walk |
| `Checkpoint.SerializedBack` | src/source.c:173-391 | A stack written and read gives frame for frame the one written, its lists owned |
| `Checkpoint.BackReadsOn` | src/source.c:245-391 | Read back, wherever its frames and store stand, it shows its reader the same frames, the length of each file with them, if and only if no file was cut short before its first line |
| `Checkpoint.RestoredReadsOn` | src/source.c:173-391 | Every run of hstex_source_next on the restored stack is told the same tokens, locations, stops and file ends |
| `CheckpointFuture.SameFutureExactly` | src/source.c:173-391 | A stack restored is told the same by every run of calls as the one written if and only if no file that reading can come to was cut short |
| `CheckpointFuture.RestoredExactly` | src/source.c:173-391 | The same of what the stream holds: every run of calls is told the same if and only if no file above the innermost boundary was cut short |
| `CheckpointFuture.FuturesDiffer` | src/source.c:922-956 | Where such a file was cut short, so many calls reading every byte as a character tell the two apart |
| `CheckpointFuture.FutureAbove` | src/source.c:922-956 | What lies under a boundary changes nothing of what any run of calls is told |
| `CheckpointFuture.CutShortToldFurther` | src/source.c:895-914 | The least such stack written and restored: one call tells the one that the file has ended and the other a token of its second line |
| `Checkpoint.Serialize` | src/source.c:173-243 | The loop over frames writes the stack |
| `Checkpoint.Deserialize` | src/source.c:245-391 | The loop over any stream leaves standing what it could read, the top as it was noted when the frames last grew, and restores all of it exactly where the stream holds a whole stack, which is then sound exactly where its frames are |
| `Checkpoint.PoppedAlikeExactly` | src/source.c:832-876 | A boundary pop that keeps a template leaves a restored stack as the one written if and only if there is no boundary or the template on top is owned or empty |
| `Checkpoint.Restore` | src/source.c:173-391 | One stack written and read into another leaves the two reading alike |
| `Checkpoint.CutShortReadsFurther` | src/source.c:895-914 | The tokenizer of a file ended before its first line is restored over the whole file, and reads a line the other does not |
| `FormatPieces.PieceBack` | src/format.c:101-130 | Values, arrays, arrays in place and tables are read back, the reader standing where the writer stood |
| `FormatPieces.TableBack` | src/format.c:452-500 | A table is read back with its room, the unused part of it zero |
| `FormatRecords.ClearedAlike` | src/format.c:146-169 | Two records are written alike if and only if they differ only inside the holes |
| `FormatRecords.PrefixLeast` | src/format.c:181-201 | Cutting the banks any sooner loses a register that is set |
| `FormatRecords.BankBack` | src/format.c:229-282 | A bank comes back whole from its prefix |
| `FormatRecords.RegistersBack` | src/format.c:838-902 | Every bank comes back from one prefix, cut where the last set register of any is |
| `FormatMacros.RecordsForetell` | src/format.c:526-560 | The addresses given by the pass over the records are where the pass over the bodies puts them |
| `FormatMacros.Layout` | src/format.c:512-588 | For every definition the record written names, relative to the base, the place in the stream its body is written at later, at a token's alignment |
| `FormatMacros.BodyTake` | src/format.c:324-363 | Room for a body lies in the last block and behind everything cut before |
| `FormatMacros.StillThere` | src/format.c:324-363 | What was copied stays where it was put while more is cut |
| `FormatMacros.BodyTaken` | src/format.c:590-650 | Whichever of the three readers it is, a body is recovered and is said to be borrowed exactly where there is one |
| `FormatMacros.DefinitionsBack` | src/format.c:512-650 | The readers at the base, elsewhere and by copying recover both bodies of every definition and stand where the writer stood |
| `Format.SectionBack` | src/format.c:779-1045 | Each thing a format carries is read back, whichever reader reads it |
| `Format.FormatBack` | src/format.c:779-1045 | Everything a format carries is read back in order, reader and writer at the same place at every step |
| `Format.SameBytesExactly` | src/format.c:146-169 | Two states are written as the same bytes if and only if they differ only in holes and the unused room of tables |
| `Format.FormatRoundTrip` | src/format.c:779-1045 | A whole format in the order of transfer_format comes back through each of the three readers |
| `FormatStream.Stream.Transfer` | src/format.c:73-91 | So many bytes written, or read from where the stream stands, or too few |
| `FormatStream.Stream.Pad` | src/format.c:374-394 | The pad is written and skipped by position |
| `FormatStream.Stream.Array` | src/format.c:101-130 | The count and the rows, both ways |
| `FormatStream.Stream.InPlace` | src/format.c:405-445 | The count and, at a multiple of eight, the rows, both ways |
| `FormatStream.Stream.Table` | src/format.c:452-500 | The used rows and zeros for the room, both ways |
| `FormatStream.Stream.TransferMacros` | src/format.c:512-588 | The records with their predicted addresses written, and read |
| `FormatStream.Stream.TransferBody` | src/format.c:590-650 | One body, both ways and in each mode |
| `FormatStream.Stream.FindPrefix` | src/format.c:181-201 | The loop from the end finds the longest prefix that holds a set register |
| `FormatStream.Stream.TransferRegisters` | src/format.c:838-902 | The one length of all the banks and so much of each, both ways |
| `FormatStream.Stream.TransferCleared` | src/format.c:146-169 | Records go out with their holes cleared and come in whole |
| `FormatStream.Stream.TransferFormat` | src/format.c:779-1045 | One routine writes everything and reads everything |
| `FormatStream.WriteAndRead` | src/format.c:1137-1195 | A format written and read again, by whichever reader |
| `OpenIndex.SomeEmpty` | src/symbol.c:123-150 | Fewer entries than slots leave an empty slot, so every probe ends |
| `OpenIndex.Reached` | src/symbol.c:123-150 | An entry lies before the first empty slot behind its home |
| `OpenIndex.InOrder` | src/filedb.c:194-203 | Entries of one hash are met in the order they were made, through every growth |
| `OpenIndex.Entered` | src/symbol.c:231-289 | A new entry in the first empty slot behind its home disturbs no chain |
| `Symbol.IdentifiersStand` | src/symbol.c:231-289 | Whatever is interned afterwards, an identifier keeps its name, a name its identifier, and no two names share one |
| `Symbol.InternAgain` | src/symbol.c:231-289 | Interning is idempotent exactly while the arena could hold the name a second time |
| `Symbol.SymbolTable.FindSlot` | src/symbol.c:123-150 | The probe gives the name's identifier, or, where it has none, the first empty slot behind its home |
| `Symbol.SymbolTable.Rehash` | src/symbol.c:152-182 | A ring of the new capacity holds every entry |
| `Symbol.SymbolTable.Find` | src/symbol.c:215-229 | The identifier of the name in the list the table stands for, or zero |
| `Symbol.SymbolTable.Name` | src/symbol.c:291-305 | The name of an identifier, or none |
| `Symbol.SymbolTable.Intern` | src/symbol.c:231-289 | The list the table stands for, with the name added at its end where it was not in it, through every growth |
| `FileDb.WalkEnd` | src/filedb.c:682-719 | A walk that comes to an empty slot has met every answer |
| `FileDb.FileDb.Chain` | src/filedb.c:194-203 | A file joins the chain of its name |
| `FileDb.FileDb.ReserveSlots` | src/filedb.c:211-237 | Slots for twice the names, everything held chained again |
| `FileDb.FileDb.AddEntry` | src/filedb.c:260-299 | One file more in the list, with the path its list gives it and the place it stands in |
| `FileDb.FileDb.Lookup` | src/filedb.c:682-719 | A path exactly where one readable file has the name in the place searched for its kind |
| `FileDb.FileDb.HeldUnder` | src/filedb.c:1069-1093 | The exact count of files of the name under a directory, and the path of the one listed last |
| `FileDb.PathBegins` | src/filedb.c:1082-1087 | A stored path begins with a directory exactly where its bytes do |
| `FileDbImage.ImageRoundTrip` | src/filedb.c:785-949 | An image gives back the slots, entries, bytes, trees and search paths it was made from, exactly while the stamp is the trees' |
| `FileDbImage.ValidFits` | src/filedb.c:785-842 | Every index small enough for 32-bit fields fits its image |
| `FileDbImage.AdoptImage` | src/filedb.c:844-949 | The arrays of an image that holds what its head says stand in the index, or nothing of the index is changed where it gives none back |
| `FileDbImage.TakenForWholeExactly` | src/filedb.c:869-880 | The 64-bit test of the lengths takes exactly the images that hold what their head says, and those whose bytes would begin behind the end and are few enough |
| `FileDbImage.ShortImageTaken` | src/filedb.c:869-880 | The least image so taken |
| `FileDbImage.WriteImage` | src/filedb.c:785-842 | The image of what the index holds, or none where it holds nothing or the trees are not known |
| `FileDbImage.AdoptWritten` | src/filedb.c:844-949 | An index that adopts the image of another holds what it holds, and so answers every query as it does |
| `Incremental.RecordSources` | src/main.c:1127-1230 | One note for each file: its first reading and its earliest page |
| `Incremental.NotesHold` | src/main.c:1127-1230 | Every file opened has its note, at no later a page, with what it was when it was first read |
| `Incremental.ChangedFiles` | src/main.c:1296-1341 | The files that are not what the record says, in order, as far as there is room |
| `Incremental.KeptAreEnough` | src/main.c:1296-1418 | Of the changes of a run's record the first 256 decide on a checkpoint as all of them would |
| `Incremental.ReusePage` | src/main.c:1351-1418 | The largest recorded page at which every changed file opens later or is the file being read with its prefix intact, or none |
| `IncrementalRun.LineKeptExactly` | src/main.c:1235-1263 | With the prefix intact, the last line read of the file is the same if and only if it is terminated, and not by a carriage return now followed by a line feed, or still ends the file |
| `IncrementalRun.PrefixAloneDoesNotFixTheLine` | src/main.c:1235-1263 | A file that ended without a terminator, added to, keeps its prefix and not its last line |
| `IncrementalRun.OpenedKept` | src/main.c:1351-1418 | Where a checkpoint may be reused, every file opened by its page is what it was, or intact as far as it was read |
| `IncrementalRun.SameReading` | src/main.c:1351-1418 | A deterministic run comes by a reusable checkpoint to the same state, page and place in every file in the old sources and the new, where it had read no further in the file than the checkpoint and that file goes on safely |
| `IncrementalRun.ReusedReadsTheSame` | src/main.c:1351-1418 | The same of what the rebuild computes, however many files have changed |
| `IncrementalRun.OnceReadWithin` | src/main.c:1351-1418 | A run that opened each file once, and has not found the one it is reading run out, has read no further in it than it stands |
| `IncrementalRun.SameAnswersExactly` | src/main.c:1351-1418 | From a checkpoint that may be reused, where the run had read no further in the file, every request of the run is answered in the new sources as in the old if and only if the last line read of the file still ends safely |
| `IncrementalRun.UnsafeAnswer` | src/main.c:1351-1418 | Where it does not, some request of the run is answered otherwise: the one that took that line |
| `IncrementalRun.LengthenedLineIsReused` | src/main.c:1351-1418 | A run over a file of one unterminated line, a byte then added to it: its checkpoint's page is given for reuse, and the line would be another |
| `IncrementalReuse.AlwaysRightExactly` | src/main.c:1351-1418 | After every edit the rule lets pass and the last line ends safely in, the run is answered as before, if and only if it had read no further in the file than the checkpoint stands |
| `IncrementalReuse.SomeEditMisleads` | src/main.c:1351-1418 | Where it had, there is such an edit after which it is answered otherwise |
| `IncrementalReuse.TwiceOpenedIsReused` | src/main.c:1351-1418 | A run over a file read to its second line and opened again: its checkpoint's page is given for reuse after an edit of that line, and the line would be another |
| `ParallelPlan.OrderPages` | src/main.c:896-921 | The insertion sort puts the pages in their order |
| `ParallelPlan.OrderedKeeps` | src/main.c:896-921 | That order is ascending and is of the same pages |
| `ParallelPlan.ChunksTile` | src/main.c:1013-1080 | Each chunk begins where the one before stops, the last runs to the end, and exactly one typesets each page |
| `ParallelPlan.RunWindow` | src/main.c:1065-1108 | Chunks are launched once each in order, never more than the cap at once, and each is running, finished or was never made; where the waits suffice all are launched and none is left running; success is that nothing failed |

## Left out

- Allocation failure, sizes beyond the address space and their overflow checks: every list grows as far as it
  is asked to. Error texts are one value for each kind of failure.
- System calls, processes and the environment: whether a file is there, readable or unchanged is a function
  that the operations take, and forks and waits are given as sequences.
- `src/engine.c` is not part of this model; what it asks of these layers is their callers' arbitrary choice.
- Expansion, paragraph and page building, and output drivers.
- The readers of whole Type 1 files: joining the segments of a PFB file by their headers, taking the
  hexadecimal digits of a PFA file for bytes, and putting line ends and white space into one form around the
  private section. None of the three is modelled.
- `pk_character` and `hstex_pk_parse`: the fixed fields of a packet and the loop over packets.
- `hstex_file_db_resolve` and the walk of search paths on disk, and the reading of `ls-R` lists: directories
  and files outside the index.
- Frames hold their file's tokenizer as a value, so two frames never share one; `MouthReader` is the
  tokenizer with its buffer.
- What a popped frame gives back by hand, its definition and its owned block, is not counted; that it holds
  one is what makes the fast path decline.
- `CheckpointFuture.RestoredExactly`: supposes that the lines left in the files above the innermost boundary have
  32-bit numbers, which a file of that many lines would run out of.
- `Checkpoint.Deserialize`: the byte of a mode that none of the three has stands for the third.
- `Checkpoint.RestoredReadsOn`: pseudo-files are not restorable, their paths naming no file.
- `Format.FormatRoundTrip`: the widths and holes of the engine's records are arbitrary, and what an engine does
  with values it has read, the state of virtual fonts and a list of names given by the environment, is not
  modelled.
- `FormatRecords.RegistersBack`: the bank a reader fills is taken to be zero throughout, as a fresh engine's is.
- `FormatMacros.DefinitionsBack`: a body that cannot be cut from a block, and so is asked for on its own, is not
  modelled.
- `FileDb.FileDb.AddEntry`: offsets are not cut to 32 bits, so an arena beyond four gigabytes is not modelled.
- `FileDbImage.TakenForWholeExactly`: of images of at most a quarter of the address space, so that no sum wraps.
- `FileDbImage.AdoptImage`: an image that does not hold what its head says is refused; what the C reads behind the
  end of one it takes for whole is not modelled.
- `Incremental.RecordSources`: the names a record leaves out are left out before it begins.
- `IncrementalRun.SameReading`: supposes a hash without collisions and what the engine opens all recorded; so do
  `IncrementalRun.SameAnswersExactly` and `IncrementalReuse.AlwaysRightExactly`.
- `ParallelPlan.RunWindow`: stops where the sequence of waits given to it does, or where a wait is said to give
  a child when none runs.
- Counters of frames pushed, files run out and pages do not wrap.
- The hash of `symbol.c` is modelled as it is and any other would do: the probes are proved for every hash.
