# Verification of C library cores

A model, in Dafny 4.11, of twelve cores of the C library layer in
`SylixOS_Base/libcextern`, with proofs of what each is for. `dafny verify
dfyconfig.toml` checks the whole project.

| files | component |
|---|---|
| `CitrusDbFormat`, `CitrusDbPlacement`, `CitrusDbFactory`, `CitrusDb`, `CitrusDbRoundTrip` | the Citrus hash database on disk: the writer that places and dumps entries, and the reader that follows the bytes back |
| `LookupText`, `Lookup` | lookup tables as text and compiled into such a database |
| `FtsWalk`, `FtsReports`, `Fts` | the file tree walk, and what it reports told without walking |
| `MemCluster` | the clustered memory allocator |
| `Md5Spec`, `Md5Words`, `Md5Count`, `Md5Sample`, `Md5`, `Hmac` | MD5 streaming against RFC 1321, and HMAC-MD5 keys, signing and verifying against section 2 of RFC 2104 |
| `EvTime`, `TimerHeap`, `EvTimers` | the timer heap of the event library and the scheduling of timers |
| `EvFiles` | registration of file descriptors in the event library |
| `CapText`, `GetCap` | capability records and the expansion of their references |
| `IconvCache` | the cache of shared converters |
| `Vis` | the visual encoder |
| `WideNumbers` | the templates for reading numbers from wide strings |
| `Basics` | optional values and facts about sequences and sets |

Code that changes objects in place is modelled by classes with the same fields,
links and loops; each method is tied to a function of values (a list of entries, a
message so far, the events still to come), and the main results are theorems about
those functions over all inputs or all runs. A ghost parameter or field names the
value; the method's contract is the connection.

Where a method and the function that specifies it rest on the same helper, a law that does
not use the helper says what it is (`LineReadsBack`, `WalkReportsIff`, `FindIsFirst`,
`EventBits`, `ItselfIff`, `NumeralReads`), or a whole sample is worked out (`SampleFile`,
`SampleWalk`, `Requests`, `LetterDigest`, `CodesOfC`).

Where the code does not meet what it promises, or only under a condition, the code is
kept and the condition is stated:

- A database without entries does not open (`EmptyDoesNotOpen`). A found entry is
  refused exactly when its datum and those of all later slots are empty (`ReadableIff`,
  `EmptyDatumRefused`). After adding to a database that has been serialized, a lookup gives
  the first entry that meets the condition of `FoundAfterAddIff`, which may be none or a later
  one (`AddAfterSerializeLoses`, `LaterDatumAnswers`).
- The compiler of text tables cuts keys and data at its buffers of `LINE_MAX` bytes, which
  is 512 here (`SylixOS_Base/libsylixos/SylixOS/include/limits.h:61`,
  `SylixOS_Base/libsylixos/SylixOS/config/shell/shell_cfg.h:48`); the database answers as
  the text exactly when nothing that can be asked for has been cut
  (`DatabaseAnswersAsText`, `CutLine`). A line that begins with a NUL has no key for the
  compiler and the empty one for the reader of text (`PlainIsCompiled`, `NulLine`). Text
  tables are always searched without regard to case, databases only on demand
  (`DatabaseUnfoldedAnswersAsText`, `CapitalLost`).
- An empty root directory given with a trailing slash, and nothing else, loses it in its
  last report (`Fts.FtsStream.Read`, `LosingSlash`). The link count shortcut misses a
  directory exactly when the count of one that is read is too small (`LinkCountIff`,
  `KidsPlainIff`, `CountOneShort`).
- Size classes fit their basic blocks exactly under `Fits` (`FitsIff`, `ClassTooLarge`); a
  block of a larger class overlaps the basic block behind (`PieceApartIff`, `ClassOverlaps`);
  blocks are aligned exactly when the target size is (`AlignedIff`, `TargetMisaligned`), and
  the two tests for large blocks part where rounding wraps around (`TestsAgreeIff`,
  `WrappedMisjudged`).
- The heap's array suffices exactly when it grows by at least two (`TimerHeap.Fill`). An
  idle timer in rate mode is rescheduled to its deadline exactly when its event was
  delivered at its due time (`DispatchIdle`, `LateIdleTimer`).
- The visual encoder is undone by the decoder exactly under `Reversible` (`DecodedIff`); it
  is injective without extra characters exactly under the condition of `InjectiveIff`, with
  them under that of `InjectiveWithExtraIff` (`ExtraCollides`). The comment that the
  destination must be four times the size of the source leaves out the closing NUL: that
  much has room for it exactly when some byte is encoded in less than four
  (`FourTimesIff`, `OctalFillsFour`).
- References of capability records that lead nowhere are reported exactly when one is
  reached that does not stand behind a `tc@` (`UnresolvedIff`, `MissingBehindCancel`).
- After a bare `0x` the end pointer is that of the whole string (`EndIsRightIff`,
  `BarePrefixEnd`).
- Keys that end in zero bytes come back shorter from a key file, with the same pads
  (`StoredIsKeyIff`, `ZeroKeyVanishes`, `KeyFileRoundTrip`).

Inputs from outside are parameters: the file system and its links, modes of descriptors,
the time, the answers of the system's allocator, the outcome of opening a converter, base
64, and the predicate for wide space characters. Hash functions are arbitrary.

## Model

| member | source | states |
|---|---|---|
| `CitrusDbFormat.CeilTo` | SylixOS_Base/libcextern/libcextern/citrus/citrus_db_factory.c:111-115 | the least multiple of 16 not below a size: at most 15 more, and equal when already aligned |
| `CitrusDbFormat.PadsMeet` | SylixOS_Base/libcextern/libcextern/citrus/citrus_db_factory.c:253-259 | padding the running offsets at the end of the dump closes exactly the two gaps between the areas |
| `CitrusDbFormat.HeaderAt` | SylixOS_Base/libcextern/libcextern/citrus/citrus_db_factory.c:261-269 | the written file starts with the magic, the number of entries and the offset 16 of the directory, readable as such |
| `CitrusDbFormat.RecordAt` | SylixOS_Base/libcextern/libcextern/citrus/citrus_db_factory.c:326-339 | the record of every slot can be read back from the file at 16 + 24 times the slot |
| `CitrusDbFormat.KeyAt` | SylixOS_Base/libcextern/libcextern/citrus/citrus_db_factory.c:340-342 | following the key offset and size of a record leads to the key itself |
| `CitrusDbFormat.DataAt` | SylixOS_Base/libcextern/libcextern/citrus/citrus_db_factory.c:343-346 | following the data offset and size of a record leads to the datum itself |
| `CitrusDbFormat.AreasDisjoint` | SylixOS_Base/libcextern/libcextern/citrus/citrus_db_factory.c:317-349 | for every pair of slots, header, directory, keys and data lie one behind the other without overlap, inside the file |
| `CitrusDbPlacement.NoSlotLeftMeansNoEntryLeft` | SylixOS_Base/libcextern/libcextern/citrus/citrus_db_factory.c:310-313 | while an entry has no slot there is a free slot, so the scan for one never runs past the table |
| `CitrusDbPlacement.AllEntriesPlacedMeansFull` | SylixOS_Base/libcextern/libcextern/citrus/citrus_db_factory.c:302-315 | once all entries have slots every slot holds an entry: the table is a permutation |
| `CitrusDbPlacement.PlacementUnique` | SylixOS_Base/libcextern/libcextern/citrus/citrus_db_factory.c:291-315 | the specification of the placement admits one table only: own slots for the first of each hash, then free slots in order |
| `CitrusDbPlacement.OneLinkInto` | SylixOS_Base/libcextern/libcextern/citrus/citrus_db_factory.c:306-309 | no two entries are linked to the same successor, so chains do not merge and have no cycles |
| `CitrusDbPlacement.SizeBeforePlacing` | SylixOS_Base/libcextern/libcextern/citrus/citrus_db_factory.c:217-227 | the size computed from the running totals equals the size of the file for every placement of the entries |
| `CitrusDbFactory.Factory.Add` | SylixOS_Base/libcextern/libcextern/citrus/citrus_db_factory.c:117-142 | appends an item with its hash, keeps the totals of key sizes and padded data sizes |
| `CitrusDbFactory.Factory.Serialize` | SylixOS_Base/libcextern/libcextern/citrus/citrus_db_factory.c:271-353 | writes exactly the image of the entries in a correct placement, ends at the computed size and touches nothing behind it; entries stay, hashes are reduced |
| `CitrusDbFactory.TakeOwnSlots` | SylixOS_Base/libcextern/libcextern/citrus/citrus_db_factory.c:291-300 | step 1: exactly the first entry of every hash value takes its own slot |
| `CitrusDbFactory.ResolveConflicts` | SylixOS_Base/libcextern/libcextern/citrus/citrus_db_factory.c:302-315 | step 2: the others are appended to the chain of their hash and take the free slots in order; the result is a full placement with linked chains |
| `CitrusDbFactory.AppendToChain` | SylixOS_Base/libcextern/libcextern/citrus/citrus_db_factory.c:306-309 | the walk reaches the end of the chain and links the new entry there, whatever its length |
| `CitrusDbFactory.Dump` | SylixOS_Base/libcextern/libcextern/citrus/citrus_db_factory.c:317-349 | directory, keys and data are written slot by slot into an image of the table |
| `CitrusDbFactory.Put32` | SylixOS_Base/libcextern/libcextern/citrus/citrus_db_factory.c:245-251 | the low 32 bits, big-endian, at the offset, which moves on by four |
| `CitrusBytes.BigEndian` | SylixOS_Base/libcextern/libcextern/citrus/citrus_db_factory.c:245-251 | four bytes make a word with the most significant first, and of a larger number the low 32 bits are written |
| `CitrusDbRoundTrip.SampleFile` | SylixOS_Base/libcextern/libcextern/citrus/citrus_db_factory.c:275-348 | the whole file of two entries with one hash, byte by byte: header, records in slot order with their chain, keys, data and paddings |
| `CitrusMemStream.MemStream.SeekSet` | SylixOS_Base/libcextern/libcextern/citrus/citrus_memstream.h:95-104 | a seek to the very end of the region is refused and moves nothing |
| `CitrusMemStream.MemStream.GetRegion` | SylixOS_Base/libcextern/libcextern/citrus/citrus_memstream.h:143-158 | the next bytes, or nothing and no move when fewer are left |
| `CitrusDb.Db.Open` | SylixOS_Base/libcextern/libcextern/citrus/citrus_db.c:59-91 | opens exactly the files with the magic, a directory offset inside the file and room for the directory, with the 32-bit product of the source |
| `CitrusDb.SameMagicIff` | SylixOS_Base/libcextern/libcextern/citrus/citrus_db.c:73 | the comparison of names succeeds exactly on eight equal bytes, or fewer that end in a NUL in both |
| `CitrusDb.TruncatedOpensIff` | SylixOS_Base/libcextern/libcextern/citrus/citrus_db.c:73-83 | a stored file that has been cut short opens exactly when its directory is whole |
| `CitrusDb.Db.Chase` | SylixOS_Base/libcextern/libcextern/citrus/citrus_db.c:132-182 | the chain walk over file bytes finds what walking the abstract chain finds, and leaves the locator where that walk leaves its cursor |
| `CitrusDb.Db.Lookup` | SylixOS_Base/libcextern/libcextern/citrus/citrus_db.c:99-183 | one lookup, fresh or through a locator, gives the outcome and the new cursor of the abstract step on the list of entries |
| `CitrusDb.Db.GetEntry` | SylixOS_Base/libcextern/libcextern/citrus/citrus_db.c:300-340 | slot numbers give the entry in that slot, out-of-range numbers EINVAL, unreachable data EFTYPE |
| `CitrusDb.RecordOf` | SylixOS_Base/libcextern/libcextern/citrus/citrus_db.c:132-176 | the words of a record found at its offset describe the entry placed there: hash, successor, key and datum |
| `CitrusDb.WrittenOpens` | SylixOS_Base/libcextern/libcextern/citrus/citrus_db.c:69-80 | every file written with at least one entry opens |
| `CitrusDb.EmptyDoesNotOpen` | SylixOS_Base/libcextern/libcextern/citrus/citrus_db.c:75-76 | a database without entries does not open, because its directory would begin at its end |
| `CitrusDb.SlotsListEntries` | SylixOS_Base/libcextern/libcextern/citrus/citrus_db.c:300-340 | what there is to read slot by slot is a permutation of what there is to read of the entries |
| `CitrusDb.Db.ListAll` | SylixOS_Base/libcextern/libcextern/citrus/citrus_db.c:300-340 | reading by all slot numbers in turn returns every entry exactly once |
| `CitrusDbSpec.StepTakesFirst` | SylixOS_Base/libcextern/libcextern/citrus/citrus_db.c:118-182 | a lookup takes the first element off the entries of the key that are still to come, for every hash function |
| `CitrusDbSpec.RunEnumerates` | SylixOS_Base/libcextern/libcextern/citrus/citrus_db.c:118-182 | repeated lookups through one locator give all remaining entries of the key in insertion order and then nothing for ever |
| `CitrusDbSpec.LookupsListAllMatches` | SylixOS_Base/libcextern/libcextern/citrus/citrus_db.c:118-182 | from a fresh locator: all entries of the key in insertion order, then ENOENT each time |
| `CitrusDbSpec.ReadableIff` | SylixOS_Base/libcextern/libcextern/citrus/citrus_db.c:166-176 | a found entry is answered with EFTYPE exactly when its datum and all data of later slots are empty |
| `CitrusDbRoundTrip.SerializedIsStored` | SylixOS_Base/libcextern/libcextern/citrus/citrus_db_factory.c:271-353 | what a factory wrote is, for the reader, a table of its entries under the same hash function |
| `CitrusDbRoundTrip.LookupGivesFirst` | SylixOS_Base/libcextern/libcextern/citrus/citrus_db.c:99-183 | for every table: a key gives the datum of the first entry added with it, ENOENT when there is none, EFTYPE when its datum and all in later slots are empty |
| `CitrusDbRoundTrip.EmptyDatumRefused` | SylixOS_Base/libcextern/libcextern/citrus/citrus_db.c:166-176 | a written file with one entry and an empty datum: the entry is looked up and refused |
| `CitrusDbRoundTrip.FoundIff` | SylixOS_Base/libcextern/libcextern/citrus/citrus_db_factory.c:293 | whatever hashes were stored, a lookup finds the first entry with the key that stores the hash that the reader computes, and none exactly when there is none |
| `CitrusDbRoundTrip.WriteInRounds` | SylixOS_Base/libcextern/libcextern/citrus/citrus_db_factory.c:271-353 | entries added in batches with a serialize after each: the last file is a table of all entries in order, whose hashes have been reduced once for every serialize they were there for |
| `CitrusDbRoundTrip.FoundAfterRoundsIff` | SylixOS_Base/libcextern/libcextern/citrus/citrus_db_factory.c:291-293 | after any number of serializes a lookup finds the first entry with the key that keeps its hash through all the reductions, and none exactly when none does |
| `CitrusDbRoundTrip.FoundAfterAddIff` | SylixOS_Base/libcextern/libcextern/citrus/citrus_db_factory.c:291-293 | written with n entries, added to and written again: a lookup finds the first entry with the key that came later or whose hash modulo n and then the new number is its hash modulo the new number, and none exactly when there is none |
| `CitrusDbRoundTrip.AddAfterSerializeLoses` | SylixOS_Base/libcextern/libcextern/citrus/citrus_db_factory.c:293 | a run: an entry added and written, another added and all written again; the first is lost exactly when its hash is odd |
| `CitrusDbRoundTrip.LaterDatumAnswers` | SylixOS_Base/libcextern/libcextern/citrus/citrus_db_factory.c:293 | a run: one key added and written, added again and all written again; the answer is the later datum exactly when the hash is odd |
| `LookupText.PlainIsCompiled` | SylixOS_Base/libcextern/libcextern/citrus/citrus_memstream.c:88-113 | the reader of text and the compiler, which trim in different order, take the same key and datum from a line exactly if its first word does not begin with a NUL |
| `LookupText.NulLine` | SylixOS_Base/libcextern/libcextern/citrus/citrus_lookup_factory.c:67-72 | a line of one NUL has no field for the compiler, and one with an empty key for the reader of text |
| `LookupText.SameFields` | SylixOS_Base/libcextern/libcextern/citrus/citrus_memstream.c:45-68 | without NULs, lines that end at carriage returns and lines that end at newlines give the same fields when carriage returns stand only in front of newlines or at the end |
| `LookupText.LineReadsBack` | SylixOS_Base/libcextern/libcextern/citrus/citrus_memstream.c:83-122 | a line of blanks of any kind, a key, blanks, a datum, blanks and a comment gives exactly key and datum, to the reader of text and to the compiler; the blanks are the six of the C locale |
| `LookupText.NoField` | SylixOS_Base/libcextern/libcextern/citrus/citrus_memstream.c:96-104 | a line of blanks and a comment gives nothing |
| `LookupText.LineLengthIff` | SylixOS_Base/libcextern/libcextern/citrus/citrus_memstream.c:45-68 | a line ends behind its first newline, for the reader of text also behind a carriage return, or with the text |
| `LookupText.TableReadsBack` | SylixOS_Base/libcextern/libcextern/citrus/citrus_lookup_factory.c:99-127 | a table written one entry to a line, with a space, tab, vertical tab or form feed between key and datum, reads back as it was, either way |
| `LookupText.PrintedTwice` | SylixOS_Base/libcextern/libcextern/citrus/citrus_lookup_factory.c:73-79 | a string cut to one buffer and printed into another is what is printed of the whole exactly when nothing was missing |
| `LookupText.StoredIff` | SylixOS_Base/libcextern/libcextern/citrus/citrus_lookup_factory.c:58-79 | the compiler keeps a field whole exactly when key and datum have at most 511 bytes |
| `Lookup.Getln` | SylixOS_Base/libcextern/libcextern/citrus/citrus_memstream.c:45-68 | the next line up to and including its end, or nothing at the end |
| `Lookup.Matchline` | SylixOS_Base/libcextern/libcextern/citrus/citrus_memstream.c:72-116 | the datum of the next line whose key is equal but for case |
| `Lookup.CaseCompare` | SylixOS_Base/libcextern/libcextern/citrus/citrus_bcs.c:67-80 | zero exactly for strings that are equal in any case up to the length or their ends; otherwise the sign of the first difference |
| `Lookup.SkipWs` | SylixOS_Base/libcextern/libcextern/citrus/citrus_bcs.c:111-121 | the first position that is no space |
| `Lookup.TruncRws` | SylixOS_Base/libcextern/libcextern/citrus/citrus_bcs.c:141-147 | the end of the text without the spaces in front of it |
| `Lookup.ToLower` | SylixOS_Base/libcextern/libcextern/citrus/citrus_bcs.c:152-159 | every letter in lower case, the rest unchanged |
| `LookupText.LoweredLetters` | SylixOS_Base/libcextern/libcextern/citrus/citrus_bcs.c:152-159 | only the 26 capital letters are changed, each to its small one |
| `Lookup.ConvertLine` | SylixOS_Base/libcextern/libcextern/citrus/citrus_lookup_factory.c:55-82 | for a line that has a key, which ends at a space or a NUL, adds an entry with the lower-cased key and the datum as a string, both cut to the size of their buffers; nothing otherwise |
| `Lookup.Convert` | SylixOS_Base/libcextern/libcextern/citrus/citrus_lookup_factory.c:99-127 | the result is a database of exactly the fields of the text as far as they fit the buffers, in order, under the given hash function, and begins with the name `LOOKUP` and two NULs; the header alone when there are none |
| `Lookup.LookupPlain` | SylixOS_Base/libcextern/libcextern/citrus/citrus_lookup.c:222-243 | the first field of the text with the key, whatever the case; what the fields of a text are is pinned by `LineReadsBack`, `LineLengthIff` and `TableReadsBack` |
| `Lookup.WrittenTableAnswers` | SylixOS_Base/libcextern/libcextern/citrus/citrus_lookup.c:222-243 | a table written one entry to a line, with any of the four separators, answers with the datum of the first entry of the key, and with nothing when there is none |
| `Lookup.LookupDb` | SylixOS_Base/libcextern/libcextern/citrus/citrus_lookup.c:117-129 | the first entry of the compiled text with the folded key; without folding, nothing for keys not in lower case |
| `Lookup.LookupSimple` | SylixOS_Base/libcextern/libcextern/citrus/citrus_lookup.c:332-356 | the string printed for the answer of the database if there is one, else of the text, else nothing; a database without entries gives nothing; the fields of either text are those of `TableReadsBack` |
| `Lookup.Opens` | SylixOS_Base/libcextern/libcextern/citrus/citrus_lookup.c:138-155 | a compiled database opens exactly when the text had a field |
| `Lookup.DatabaseAnswersAsText` | SylixOS_Base/libcextern/libcextern/citrus/citrus_lookup.c:332-356 | ignoring case, the compiled database gives every caller the strings of the text exactly when every first field of its key has key and datum shorter than LINE_MAX |
| `Lookup.AgreeForKeyIff` | SylixOS_Base/libcextern/libcextern/citrus/citrus_lookup_factory.c:59-79 | for any one key: agreement depends on the first field whose key as stored is the one asked for: there is none and the text has none, or its key is whole and its datum fits, or it has been cut and prints the same as the answer of the text |
| `Lookup.CutLine` | SylixOS_Base/libcextern/libcextern/citrus/citrus_lookup_factory.c:78-79 | a line with a datum of 512 bytes is cut by the compiler, and the two answers differ |
| `Lookup.UncutLine` | SylixOS_Base/libcextern/libcextern/citrus/citrus_lookup_factory.c:78-79 | a line with a datum of 511 bytes is not cut, and the answers agree |
| `Lookup.CaseMatters` | SylixOS_Base/libcextern/libcextern/citrus/citrus_lookup.c:222-238 | without ignoring case, where the fields fit, database and text agree exactly on keys in lower case and on keys that are in neither |
| `Lookup.DatabaseUnfoldedAnswersAsText` | SylixOS_Base/libcextern/libcextern/citrus/citrus_lookup.c:117-129 | without ignoring case, the compiled database gives every caller the strings of the text exactly when every first field of its key fits the buffers and no key has a letter |
| `Lookup.CapitalLost` | SylixOS_Base/libcextern/libcextern/citrus/citrus_lookup.c:117-129 | the text `A b` has the key `A`, its database only when case is ignored |
| `FtsWalk.WalkNested` | SylixOS_Base/libcextern/libcextern/gen/fts.c:322-515 | the events of every walk are well nested: each directory entered is left again, last entered first, and everything lies at the depth of what is open |
| `FtsWalk.WalkOnce` | SylixOS_Base/libcextern/libcextern/gen/fts.c:322-515 | if no root lies within another, every path is reported for the first time exactly once, provided that names within each directory differ |
| `FtsWalk.WalkDepth` | SylixOS_Base/libcextern/libcextern/gen/fts.c:964-976 | over any directory graph, cycles included, a walk is finite and no deeper than there are directories |
| `FtsWalk.KidsEnterable` | SylixOS_Base/libcextern/libcextern/gen/fts.c:964-976 | a directory among those above is never entered again |
| `FtsReports.StatInfoIff` | SylixOS_Base/libcextern/libcextern/gen/fts.c:903-983 | each kind is reported for exactly the files it stands for: of directories, those named `.` and `..` as such, those that are above as cycles, and the others to be entered |
| `FtsReports.RootsAre` | SylixOS_Base/libcextern/libcextern/gen/fts.c:140-172 | a root is entered exactly when it is a directory, whatever its name, after following a symbolic link on demand |
| `FtsReports.KidsAreVisible` | SylixOS_Base/libcextern/libcextern/gen/fts.c:746-859 | with or without the shortcut, the entries read from a directory are all of its entries in order, except those named exactly `.` and `..` when these are not wanted |
| `FtsReports.KidsLookedAt` | SylixOS_Base/libcextern/libcextern/gen/fts.c:819-843 | an entry is not looked at exactly when the shortcut is on and its type says that it is no directory, or as many directories have been seen before it as the count has links; every other one is reported as it is |
| `FtsReports.EnteredIsComplete` | SylixOS_Base/libcextern/libcextern/gen/fts.c:746-859 | of every directory that a walk enters, every entry is reported with its path, except those two |
| `FtsReports.WalkReportsIff` | SylixOS_Base/libcextern/libcextern/gen/fts.c:322-515 | a walk that looks at every entry reports an event if and only if names lead to its file from a root down, through directories that can be entered, with the kind of the file, its path and its depth; a directory that was entered once more, by whether it could be read |
| `FtsReports.ShortcutReports` | SylixOS_Base/libcextern/libcextern/gen/fts.c:819-850 | with the shortcut the same paths are reported where every directory read has had enough links |
| `FtsReports.SampleWalk` | SylixOS_Base/libcextern/libcextern/gen/fts.c:322-515 | a whole walk, event by event, over a hidden file, a special file, a link back to the root and a symbolic link |
| `FtsReports.SampleShortcut` | SylixOS_Base/libcextern/libcextern/gen/fts.c:665-679 | one directory with the shortcut, with and without the entries for the directories themselves: of three links, two are for these |
| `FtsWalk.LinkCountIff` | SylixOS_Base/libcextern/libcextern/gen/fts.c:666-680 | for every file system and walk: saving calls to stat by counting links changes nothing but how other files are reported exactly when every directory read in the full walk has had enough links |
| `FtsWalk.LinkCountIsSound` | SylixOS_Base/libcextern/libcextern/gen/fts.c:666-680 | where the link counts of all directories suffice, every such walk is right |
| `FtsWalk.UsualLinkCounts` | SylixOS_Base/libcextern/libcextern/gen/fts.c:666-680 | link counts of two more than the subdirectories suffice, with or without the entries . and .. |
| `FtsWalk.KidsPlainIff` | SylixOS_Base/libcextern/libcextern/gen/fts.c:811-842 | in one directory the shortcut recognises every subdirectory exactly when the count is negative or not less than their number |
| `FtsWalk.CountOneShort` | SylixOS_Base/libcextern/libcextern/gen/fts.c:811-842 | with a count one short of two subdirectories the second is taken for another file |
| `Fts.FtsStream.Stat` | SylixOS_Base/libcextern/libcextern/gen/fts.c:902-983 | the kind of a file; a directory that is open already closes a cycle, found by walking the parent pointers |
| `Fts.FtsStream.Build` | SylixOS_Base/libcextern/libcextern/gen/fts.c:624-900 | links all entries of the current directory but the two unwanted ones (`KidsAreVisible`) in order, stops looking at them when the count says so, restores the path buffer, and marks unreadable and empty directories |
| `Fts.FtsStream.Load` | SylixOS_Base/libcextern/libcextern/gen/fts.c:222-247 | the path of a root in the buffer, and its last component as its name |
| `Fts.FtsStream.Open` | SylixOS_Base/libcextern/libcextern/gen/fts.c:104-220 | the stream has the whole walk before it; null exactly when a root is empty; without roots there is a stream with no entry to go to |
| `Fts.FtsStream.Read` | SylixOS_Base/libcextern/libcextern/gen/fts.c:322-515 | each call returns exactly the next event of the walk, which is complete (`WalkReportsIff`, `EnteredIsComplete`), null exactly at the end, with its path in the buffer except exactly that an empty root directory loses a trailing slash when it is left |
| `Fts.LosingSlash` | SylixOS_Base/libcextern/libcextern/gen/fts.c:867-871 | a run over an empty root directory given as `a/`: entered with that path, left with `a` |
| `MemBlocks.TestsAgreeIff` | SylixOS_Base/libcextern/libcextern/isc/memcluster.c:426 | the tests for large blocks in memget and memput agree exactly up to the size at which rounding wraps around, or up to the limit |
| `MemBlocks.QuantizeIff` | SylixOS_Base/libcextern/libcextern/isc/memcluster.c:559-590 | below the wrap a size is rounded up to the least multiple of 8; a request is small exactly when some multiple of 8 below the limit has room for it |
| `MemBlocks.WrappedMisjudged` | SylixOS_Base/libcextern/libcextern/isc/memcluster.c:426 | a request of the largest size is large for memget and small for memput |
| `MemBlocks.FitsIff` | SylixOS_Base/libcextern/libcextern/isc/memcluster.c:276-310 | every size class fits into a basic block exactly when the largest one does |
| `MemBlocks.ClassTooLarge` | SylixOS_Base/libcextern/libcextern/isc/memcluster.c:276-310 | limits of 1100 and 1024 leave a class that no basic block can serve |
| `MemBlocks.PieceApartIff` | SylixOS_Base/libcextern/libcextern/isc/memcluster.c:291-310 | the piece taken off a basic block stays apart from the basic block behind exactly when the class is no larger than the target |
| `MemBlocks.ClassOverlaps` | SylixOS_Base/libcextern/libcextern/isc/memcluster.c:291-310 | with limits of 1100 and 1024 a block for 1096 bytes overlaps the basic block behind |
| `MemBlocks.AlignedIff` | SylixOS_Base/libcextern/libcextern/isc/memcluster.c:254-274 | basic blocks are aligned exactly when the target size is a multiple of the word size |
| `MemBlocks.TargetMisaligned` | SylixOS_Base/libcextern/libcextern/isc/memcluster.c:254-274 | a target of 12 bytes gives blocks off the words |
| `MemBlocks.CarvedLaid` | SylixOS_Base/libcextern/libcextern/isc/memcluster.c:276-310 | pieces cut from a vacant area are aligned and disjoint from each other and from everything else, and nothing else changes |
| `MemCluster.Cluster.Init` | SylixOS_Base/libcextern/libcextern/isc/memcluster.c:135-179 | sets the limits or their defaults once, with empty lists and counts; EEXIST and no change afterwards |
| `MemCluster.Cluster.LinkUp` | SylixOS_Base/libcextern/libcextern/isc/memcluster.c:294-304 | links pieces of an area one after the other in memory |
| `MemCluster.Cluster.NewBasics` | SylixOS_Base/libcextern/libcextern/isc/memcluster.c:254-275 | 64 basic blocks, one behind the other from the new area on, linked, none overlapping anything |
| `MemCluster.Cluster.Carve` | SylixOS_Base/libcextern/libcextern/isc/memcluster.c:276-311 | the first basic block is cut into as many pieces of the class as fit, so that one more would not, one behind the other; one block more is counted for the class and for no other; blocks in use stay |
| `MemCluster.Cluster.Get` | SylixOS_Base/libcextern/libcextern/isc/memcluster.c:186-358 | a non-null, aligned block at least as large as asked for that no one else has; the first free block of its class, else the first piece of the first basic block, else of the new area, with the number of pieces left behind in order and the counts of requests and blocks; a large one from the system; all other blocks in use stay; lists, layout and counts remain right |
| `MemCluster.Cluster.Put` | SylixOS_Base/libcextern/libcextern/isc/memcluster.c:369-476 | the block is no longer in use, all others are, and it heads the list of its class unless it was large; counts never drop below zero; lists, layout and counts remain right |
| `MemCluster.Requests` | SylixOS_Base/libcextern/libcextern/isc/memcluster.c:186-358 | two requests for 16 bytes of a new allocator get the first two of the 256 pieces of one basic block, with 254 left, and a block given back is the next to be got |
| `MemCluster.Cluster.Write` | SylixOS_Base/libcextern/libcextern/isc/memcluster.c:462-463 | a caller that writes a word inside its own block changes that word and disturbs no list |
| `MemCluster.Cluster.Active` | SylixOS_Base/libcextern/libcextern/isc/memcluster.c:540-550 | true exactly when some block is in use |
| `Md5Words.RLow` | SylixOS_Base/libcextern/libcextern/dst/md5_locl.h:175-193 | each round macro on 64-bit words is, in the low 32 bits, one operation of section 3.4 of RFC 1321 |
| `Md5Words.SelectLow` | SylixOS_Base/libcextern/libcextern/dst/md5_locl.h:163-166 | the shortened auxiliary functions agree with those of the RFC in the low half |
| `Md5Words.RotateLow` | SylixOS_Base/libcextern/libcextern/dst/md5_locl.h:171 | the rotation, which leaves garbage above, agrees in the low half for all amounts that occur |
| `Md5Count.CountsMore` | SylixOS_Base/libcextern/libcextern/dst/md5_dgst.c:109-115 | the two counter words hold the bit length modulo 2^64 after every update, carry included |
| `Md5Spec.AbsorbAppend` | SylixOS_Base/libcextern/libcextern/dst/md5_dgst.c:98-215 | absorbing a message in two pieces is absorbing it at once, wherever it is cut |
| `Md5.PC2l` | SylixOS_Base/libcextern/libcextern/dst/md5_locl.h:80-89 | completes a partial word with the next bytes, low-order first, from any fill |
| `Md5.PC2lP` | SylixOS_Base/libcextern/libcextern/dst/md5_locl.h:102-112 | adds bytes to a partial word without filling it |
| `Md5.C2lP` | SylixOS_Base/libcextern/libcextern/dst/md5_locl.h:91-100 | a partial word from the last bytes |
| `Md5.Md5Ctx.Block` | SylixOS_Base/libcextern/libcextern/dst/md5_dgst.c:217-301 | the unrolled 64 steps are the block function of the RFC on the low halves |
| `Md5.Md5Ctx.Update` | SylixOS_Base/libcextern/libcextern/dst/md5_dgst.c:98-215 | after any update the context represents the message so far: state, little-endian unprocessed tail, and length |
| `Md5.Md5Ctx.Final` | SylixOS_Base/libcextern/libcextern/dst/md5_dgst.c:303-353 | the digest of the whole message as section 3 of RFC 1321 defines it, for every residue |
| `Md5Sample.LetterDigest` | SylixOS_Base/libcextern/libcextern/dst/md5_dgst.c:303-353 | the digest of the 26 small letters is the one given in section A.5 of RFC 1321 |
| `Md5.Md5Ctx.Restart` | SylixOS_Base/libcextern/libcextern/dst/md5_dgst.c:86-96 | the context represents the empty message |
| `Hmac.BufferToKey` | SylixOS_Base/libcextern/libcextern/dst/hmac_link.c:221-260 | both pads of section 2 of RFC 2104, from the digest for keys over 64 bytes; negative lengths fail and change nothing |
| `Hmac.Sign` | SylixOS_Base/libcextern/libcextern/dst/hmac_link.c:89-137 | return value, session and signature for every combination of modes: HMAC-MD5 of what was fed since INIT, or the source's error |
| `Hmac.Verify` | SylixOS_Base/libcextern/libcextern/dst/hmac_link.c:158-206 | accepts exactly the HMAC-MD5 of what was fed; otherwise the source's error, with the session as it is left |
| `HmacSpec.SessionsAgree` | SylixOS_Base/libcextern/libcextern/dst/hmac_link.c:89-206 | INIT, any calls, FINAL: the text signed is the data in order however it is cut, even after FINALs that lacked room, and verifying accepts exactly that signature |
| `Hmac.ToDnsKey` | SylixOS_Base/libcextern/libcextern/dst/hmac_link.c:390-406 | writes exactly the key, or the digest of a long one, and nothing else; fails exactly without key or room |
| `HmacSpec.DnsFormKeepsPads` | SylixOS_Base/libcextern/libcextern/dst/hmac_link.c:390-406 | a key and its DNS form have the same pads, and are the same exactly for keys up to 64 bytes |
| `Hmac.ToFileFormat` | SylixOS_Base/libcextern/libcextern/dst/hmac_link.c:276-324 | the text of the key file, exactly when it fits with its NUL |
| `Hmac.FromFileFormat` | SylixOS_Base/libcextern/libcextern/dst/hmac_link.c:339-377 | the key of the text, or the error number of its first defect with no change |
| `HmacSpec.KeyFileRoundTrip` | SylixOS_Base/libcextern/libcextern/dst/hmac_link.c:276-377 | writing and reading back gives the same signatures for every key, if base 64 inverts |
| `HmacSpec.PadsOf` | SylixOS_Base/libcextern/libcextern/dst/hmac_link.c:249-256 | the inner pad is the key, filled up with zeros, over bytes 0x36, the outer one over 0x5c |
| `HmacSpec.KeyFileText` | SylixOS_Base/libcextern/libcextern/dst/dst_api.c:67 | the text of a key file: version 1.2, algorithm 157, its name, and the key |
| `HmacSpec.Defects` | SylixOS_Base/libcextern/libcextern/dst/hmac_link.c:352-374 | the numbers of the defects of a key file, on files that have one each |
| `HmacSpec.StoredIsKeyIff` | SylixOS_Base/libcextern/libcextern/dst/hmac_link.c:301-307 | of keys up to 64 bytes, exactly those not ending in a zero byte come back unchanged |
| `HmacSpec.ZeroKeyVanishes` | SylixOS_Base/libcextern/libcextern/dst/hmac_link.c:301-307 | a key of one zero byte comes back empty from a key file |
| `TimerHeap.Heap.FloatUp` | SylixOS_Base/libcextern/libcextern/isc/heap.c:107-121 | keeps heap order, the elements and the reported indices, from any hole |
| `TimerHeap.Heap.SinkDown` | SylixOS_Base/libcextern/libcextern/isc/heap.c:123-145 | keeps heap order, the elements and the reported indices, from any hole |
| `TimerHeap.Heap.Insert` | SylixOS_Base/libcextern/libcextern/isc/heap.c:147-163 | one element more, in heap order, within the array, which grows by one increment when its slot does not fit; wherever that makes room |
| `TimerHeap.Heap.Delete` | SylixOS_Base/libcextern/libcextern/isc/heap.c:165-188 | one element less at any position; out-of-range positions fail and change nothing |
| `TimerHeap.Heap.Increased` | SylixOS_Base/libcextern/libcextern/isc/heap.c:190-200 | restores the order after an element moved ahead |
| `TimerHeap.Heap.Decreased` | SylixOS_Base/libcextern/libcextern/isc/heap.c:202-212 | restores the order after an element moved back |
| `TimerHeap.Heap.RootIsFirst` | SylixOS_Base/libcextern/libcextern/isc/heap.c:214-222 | nothing is ahead of the element in slot 1, for every strict weak order |
| `TimerHeap.GrowthSuffices` | SylixOS_Base/libcextern/libcextern/isc/heap.c:92-163 | the slot of the n-th insertion lies inside an array that grows so, for every n, exactly when the increment is at least 2 |
| `TimerHeap.Fill` | SylixOS_Base/libcextern/libcextern/isc/heap.c:60-163 | insertions into a new heap, as long as the slot of the next one lies inside the array, reach the end of any sequence of elements exactly when the increment is not 1; the size of the array is that of the growth |
| `EvTime.AddTime` | SylixOS_Base/libcextern/libcextern/isc/ev_timers.c:82-93 | the sum in nanoseconds, normalized |
| `EvTime.SubTime` | SylixOS_Base/libcextern/libcextern/isc/ev_timers.c:95-107 | the difference in nanoseconds, normalized |
| `EvTime.CmpTime` | SylixOS_Base/libcextern/libcextern/isc/ev_timers.c:109-116 | the sign of the comparison in nanoseconds |
| `EvTime.Carried` | SylixOS_Base/libcextern/libcextern/isc/ev_timers.c:83-107 | a second has a thousand million nanoseconds, and sums and differences carry over it |
| `EvTimers.EvContext.SetTimer` | SylixOS_Base/libcextern/libcextern/isc/ev_timers.c:180-238 | queues a timer with the given or the current time; invalid times are refused without effect |
| `EvTimers.ValidArgsIff` | SylixOS_Base/libcextern/libcextern/isc/ev_timers.c:207-211 | a timer is accepted exactly with two times that are normalized and not negative |
| `EvTimers.EvContext.ClearTimer` | SylixOS_Base/libcextern/libcextern/isc/ev_timers.c:240-270 | removes exactly the timer; one being executed is only stopped from repeating |
| `EvTimers.EvContext.ResetTimer` | SylixOS_Base/libcextern/libcextern/isc/ev_timers.c:297-355 | new times for a queued timer, with heap and indices kept; otherwise refused without effect |
| `EvTimers.EvContext.NextTimer` | SylixOS_Base/libcextern/libcextern/isc/eventlib.c:267-272 | the timer chosen is due and no timer is due earlier; none is chosen exactly when none is due |
| `EvTimers.EvContext.Drop` | SylixOS_Base/libcextern/libcextern/isc/eventlib.c:612-640 | an expired timer goes, any other is due again by its mode |
| `EvTimers.EvContext.Deliver` | SylixOS_Base/libcextern/libcextern/isc/eventlib.c:612-640 | any number of deliveries in a row of a timer left alone; a rate timer is due at its first due time plus as many intervals, however late they were |
| `EvTimers.EvContext.DispatchIdle` | SylixOS_Base/libcextern/libcextern/isc/ev_timers.c:484-511 | an idle timer stays exactly when it has been touched in time, and is then due at last touch plus maximum, a rate timer exactly when it was delivered on time |
| `EvTimers.LateIdleTimer` | SylixOS_Base/libcextern/libcextern/isc/ev_timers.c:484-511 | a run: an idle timer touched at 5 and delivered at 11 is due at 15, in rate mode at 14 |
| `EvTimers.IdleInterval` | SylixOS_Base/libcextern/libcextern/isc/ev_timers.c:484-511 | now plus the interval asked for is last touch plus maximum |
| `EvTimers.RateTimerKeepsStep` | SylixOS_Base/libcextern/libcextern/isc/eventlib.c:612-640 | the due times of a rate timer are never refused and advance by exactly one interval for each delivery |
| `EvTimers.IntervalTimerFollowsDelivery` | SylixOS_Base/libcextern/libcextern/isc/eventlib.c:612-640 | an interval timer is due one interval after its last delivery |
| `EvFiles.EvContext.SelectFD` | SylixOS_Base/libcextern/libcextern/isc/ev_files.c:46-155 | the outcome by the source's tests in their order; on success the registration heads both lists, the descriptor enters the set for reading exactly with mask 1, 3, 5 or 7, for writing with 2, 3, 6 or 7, for exceptions with 4 to 7, and was in none of these; it is refused exactly when it is in one already; the maximum follows, and the mode is remembered at the first registration |
| `EvFiles.EvContext.DeselectFD` | SylixOS_Base/libcextern/libcextern/isc/ev_files.c:157-267 | removes exactly the registration from both lists; the descriptor leaves exactly the sets of events that no other registration of it wants, and the number of results still waiting follows; so do maximum and next file; the mode is restored with the last registration |
| `EvFiles.EvContext.FindFD` | SylixOS_Base/libcextern/libcextern/isc/ev_files.c:269-277 | the first registration of the descriptor for one of the events, none exactly when no such event is wanted |
| `EvFiles.EvContext.StillWanted` | SylixOS_Base/libcextern/libcextern/isc/ev_files.c:215-227 | the walk from the first registration of the descriptor, which may end early, collects all events still wanted |
| `EvFiles.EvContext.LargestFD` | SylixOS_Base/libcextern/libcextern/isc/ev_files.c:251-257 | the largest registered descriptor, or -1 |
| `EvFiles.EvContext.Thread` | SylixOS_Base/libcextern/libcextern/isc/ev_files.c:125-136 | both threadings follow the list with the new registration in front |
| `EvFiles.EvContext.Unthread` | SylixOS_Base/libcextern/libcextern/isc/ev_files.c:178-192 | both threadings follow the list without the registration |
| `EvFilesSpec.WantedFromFirst` | SylixOS_Base/libcextern/libcextern/isc/ev_files.c:215-227 | nothing wanted is missed by starting at the first registration in list order |
| `EvFilesSpec.MaxFdIs` | SylixOS_Base/libcextern/libcextern/isc/ev_files.c:251-257 | the maximum is that of a registration and not below any |
| `EvFilesSpec.EventBits` | SylixOS_Base/libcextern/libcextern/isc/ev_files.c:139-144 | the bits 1, 2 and 4 of a mask stand for reading, writing and exceptions |
| `EvFilesSpec.WantedIs` | SylixOS_Base/libcextern/libcextern/isc/ev_files.c:220-227 | an event of a descriptor is wanted exactly when some registration of the descriptor has its bit, and the chain of a descriptor is empty exactly when it has no registration |
| `EvFiles.WithoutKeepsCount` | SylixOS_Base/libcextern/libcextern/isc/ev_files.c:229-249 | the number of results still waiting and the sizes of the three sets change together |
| `CapText.CGetCap` | SylixOS_Base/libcextern/libcextern/gen/getcap.c:147-192 | for any text and name the value where the scan stops, null when it is cancelled or ends; for a name without colons the value behind the first field that decides |
| `CapText.JudgeIff` | SylixOS_Base/libcextern/libcextern/gen/getcap.c:147-192 | a field cancels exactly when an at sign stands behind the name or behind the type, and gives a value exactly when it is the name, the type and the value |
| `CapText.ScanIsFound` | SylixOS_Base/libcextern/libcextern/gen/getcap.c:147-192 | for a name without colons, scanning the text from failure to failure is searching field by field |
| `CapText.JoinSplit` | SylixOS_Base/libcextern/libcextern/gen/getcap.c:147-192 | splitting a record at colons loses nothing |
| `GetCap.CGetMatch` | SylixOS_Base/libcextern/libcextern/gen/getcap.c:689-728 | zero or -1 by the source's comparison on any text and name |
| `GetCap.MatchesIsMembership` | SylixOS_Base/libcextern/libcextern/gen/getcap.c:689-728 | for ordinary names, success exactly when the name is one of those of the record |
| `GetCap.NamesJoined` | SylixOS_Base/libcextern/libcextern/gen/getcap.c:689-728 | the names of a record are its name field cut at every bar |
| `GetCap.FindIsFirst` | SylixOS_Base/libcextern/libcextern/gen/getcap.c:302-496 | a place is the one found if and only if it is that of the first record that matches: no record of the files before it, and none before it in its file; nothing is found exactly when no record of the file or of one behind matches |
| `GetCap.FoundByName` | SylixOS_Base/libcextern/libcextern/gen/getcap.c:302-496 | for ordinary names a record is found exactly when one of the file or of one behind has the name, and the one found has it |
| `GetCap.GetEnt` | SylixOS_Base/libcextern/libcextern/gen/getcap.c:241-647 | code and text of a record looked up from a file of the database on, through all files behind (`FindIsFirst`): -1 without it, -3 when too deep, 1 when a reference is left, else 0 with all references expanded in place, each looked up from the file of the referring record on |
| `GetCap.ExpandReferences` | SylixOS_Base/libcextern/libcextern/gen/getcap.c:502-625 | the scan, the recursive calls and the splices produce exactly the flattened field list |
| `GetCap.UnresolvedIff` | SylixOS_Base/libcextern/libcextern/gen/getcap.c:540-560 | the code for unresolved references is given exactly when some reference not behind a `tc@`, reached through references that resolve, leads to no record |
| `GetCap.RecordBuf.Splice` | SylixOS_Base/libcextern/libcextern/gen/getcap.c:580-616 | replaces a part of the buffer by text of any length, enlarging it as needed, and moves the rest unharmed |
| `GetCap.ExpansionPreservesSearch` | SylixOS_Base/libcextern/libcextern/gen/getcap.c:502-625 | looking up in the expanded fields gives what searching own and inherited fields in order gives, cancellation included |
| `GetCap.CapabilityOfExpanded` | SylixOS_Base/libcextern/libcextern/gen/getcap.c:147-192 | what cgetcap finds in the text of an expanded record is what that search finds |
| `GetCap.UnresolvedMeansReferenceLeft` | SylixOS_Base/libcextern/libcextern/gen/getcap.c:540-560 | with that code a reference that leads to no record is left in the fields; without it none that a search would find |
| `GetCap.MissingBehindCancel` | SylixOS_Base/libcextern/libcextern/gen/getcap.c:502-560 | a missing reference behind a `tc@` stays and is not reported |
| `GetCap.TooDeepIffChain` | SylixOS_Base/libcextern/libcextern/gen/getcap.c:268-273 | expansion is given up exactly when references nest deeper than 32 |
| `GetCap.CirclesAreTooDeep` | SylixOS_Base/libcextern/libcextern/gen/getcap.c:268-273 | records that refer to each other in a circle are never expanded |
| `IconvCache.Cache.Search` | SylixOS_Base/libcextern/libcextern/citrus/citrus_iconv.c:267-269 | the entry of the name, none exactly when there is none |
| `IconvCache.Cache.Get` | SylixOS_Base/libcextern/libcextern/citrus/citrus_iconv.c:253-294 | the one converter of the name, opened only if there was none, with one more handle; off the queue if it was on it; unchanged on failure |
| `IconvCache.WithoutKeepsOrder` | SylixOS_Base/libcextern/libcextern/citrus/citrus_iconv.c:253-294 | a converter taken off the queue of unused ones leaves the others in their order |
| `IconvCache.Cache.Release` | SylixOS_Base/libcextern/libcextern/citrus/citrus_iconv.c:296-318 | one handle less; the unused queue grows at its end and loses what exceeds the limit from its front; nothing in use is closed |
| `VisCode.DecodedEncoded` | SylixOS_Base/libcextern/libcextern/gen/vis.c:141-212 | decoding undoes encoding for every byte sequence under that condition |
| `VisCode.DecodedIff` | SylixOS_Base/libcextern/libcextern/gen/vis.c:141-212 | for all flags and extra characters: decoding undoes encoding for every byte sequence exactly in the style for URLs, or when backslashes are encoded, nothing needs a code without one, and C escapes have no extra character that reads as another code |
| `VisCode.ItselfIff` | SylixOS_Base/libcextern/libcextern/gen/vis.c:145-149 | exactly these bytes stand for themselves: graphic ones, backslashes only on demand, blanks as far as they are not asked for, and the three safe ones on demand, none of the extra characters |
| `VisCode.HttpItselfIff` | SylixOS_Base/libcextern/libcextern/gen/vis.c:119-130 | in the style for URLs exactly letters and digits stand for themselves |
| `VisCode.CStyleIff` | SylixOS_Base/libcextern/libcextern/gen/vis.c:151-190 | codes of C change exactly the codes of control characters 7 to 13, of spaces, graphic characters and NULs that do not stand for themselves, but for a NUL in front of an octal digit |
| `VisCode.OctalIff` | SylixOS_Base/libcextern/libcextern/gen/vis.c:191-195 | without codes of C, a byte is written in octal exactly when it does not stand for itself and either all such bytes are or it is an extra character, a NUL or one of the two spaces |
| `VisCode.CodesOfC` | SylixOS_Base/libcextern/libcextern/gen/vis.c:151-190 | the codes of C, one by one |
| `VisCode.OtherCodes` | SylixOS_Base/libcextern/libcextern/gen/vis.c:191-211 | codes of control characters by name, of NULs and backslashes in octal |
| `VisCode.HighCodes` | SylixOS_Base/libcextern/libcextern/gen/vis.c:191-211 | codes of bytes above 127 by name, of the space among them in octal |
| `VisCode.FlaggedCodes` | SylixOS_Base/libcextern/libcextern/gen/vis.c:119-211 | codes in octal on demand, by name without backslashes, and in the style for URLs, one by one |
| `VisCode.InjectiveIff` | SylixOS_Base/libcextern/libcextern/gen/vis.c:285-318 | without extra characters, encodings differ for different bytes exactly when the style for URLs is asked for or backslashes are written |
| `VisCode.InjectiveWithExtraIff` | SylixOS_Base/libcextern/libcextern/gen/vis.c:151-210 | where backslashes are encoded, whatever the extra characters: different bytes are encoded differently exactly when no escape goes on like an extra character followed by bytes that stand for themselves |
| `VisCode.OctalAhead` | SylixOS_Base/libcextern/libcextern/gen/vis.c:177-183 | what follows can begin with an octal digit only if the next byte is one, so that a short NUL is not misread |
| `VisCode.ExtraCollides` | SylixOS_Base/libcextern/libcextern/gen/vis.c:151-188 | with C escapes an extra n collides with an encoded newline exactly when newlines are encoded, and is misread in either case |
| `VisCode.EncodedLength` | SylixOS_Base/libcextern/libcextern/gen/vis.c:249-251 | at least the size and at most four times the size of the input |
| `VisCode.FourTimesIff` | SylixOS_Base/libcextern/libcextern/gen/vis.c:249-251 | four times the size of the source has room for the encoding and its NUL exactly when some byte is encoded in less than four |
| `VisCode.OctalFillsFour` | SylixOS_Base/libcextern/libcextern/gen/vis.c:249-251 | one control byte in octal needs four bytes and a fifth for the NUL |
| `Vis.DoSvis` | SylixOS_Base/libcextern/libcextern/gen/vis.c:141-212 | writes the code of the byte at the pointer, which moves on by its length |
| `Vis.Strsvisx` | SylixOS_Base/libcextern/libcextern/gen/vis.c:285-318 | given just the room for it: the encoding of the block with a NUL behind it, reversible by the decoder where the caller's choice allows |
| `Vis.Strsvis` | SylixOS_Base/libcextern/libcextern/gen/vis.c:256-282 | the same for a string up to its NUL |
| `Vis.Strvisx` | SylixOS_Base/libcextern/libcextern/gen/vis.c:375-389 | without extra characters reversible whenever backslashes are written or the style is that for URLs |
| `WideNumbers.ToSigned` | SylixOS_Base/libcextern/libcextern/locale/_wcstol.h:47-143 | the value clamped to the type's range with ERANGE exactly outside it, all digits consumed, no intermediate overflow; EINVAL for bad bases |
| `WideNumbers.ToUnsigned` | SylixOS_Base/libcextern/libcextern/locale/_wcstoul.h:46-119 | the value modulo one more than the maximum, or the maximum with ERANGE, all digits consumed, no intermediate overflow |
| `NumberSyntax.WrappedIs` | SylixOS_Base/libcextern/libcextern/locale/_wcstoul.h:76-119 | an unsigned number with a minus is counted down from one more than the maximum; too large a one is the maximum |
| `WideNumbers.AddSigned` | SylixOS_Base/libcextern/libcextern/locale/_wcstol.h:118-138 | one digit more, or saturation exactly when the number leaves the range |
| `WideNumbers.Cut` | SylixOS_Base/libcextern/libcextern/locale/_wcstol.h:101-110 | the cutoff and its last digit by truncating division, for either sign |
| `NumberSyntax.BareIsZero` | SylixOS_Base/libcextern/libcextern/locale/_wcstol.h:89-94 | after a bare 0x a zero is to be read |
| `NumberSyntax.NumeralReads` | SylixOS_Base/libcextern/libcextern/locale/_wcstol.h:75-147 | every number, written in any base from 2 to 36 after spaces, a sign and a prefix that suits the base asked for, and with anything but a digit behind it, is read with its sign, its value and its end |
| `NumberSyntax.DigitIff` | SylixOS_Base/libcextern/libcextern/locale/__wctoint.h:33-79 | the characters of a digit are the decimal digit, or the small and the capital letter |
| `WideNumbers.EndIsRightIff` | SylixOS_Base/libcextern/libcextern/locale/_wcstol.h:89-142 | the end is reported as the standard has it exactly when there is no bare 0x |
| `WideNumbers.BarePrefixEnd` | SylixOS_Base/libcextern/libcextern/locale/_wcstol.h:89-142 | for `0x` the end reported is 0 where it should be 1 |

## Left out

- Allocation failures and memory that is freed: every allocation succeeds, and reuse of freed nodes is excluded by garbage collection. A failed resize of the heap and a failed large request leave wrong counts in the source.
- Locks, debugging builds, error codes in `errno` beyond those returned, and messages.
- Databases not written by the factory; the reader may run in circles on arbitrary bytes.
- The integer accessors of the database (`add8` to `add32`, `lookup8` to `lookup32`), which only fix sizes.
- `seq_next_plain` and `seq_next_db`: the iteration over a lookup table; the former compares keys by case even after a lookup that does not.
- Lookup.Convert: requires a database below 4 GB, which the source does not test, and does not model the conversion to `int` of the lengths of keys and data above 2 GB.
- fts: changing directories, `fts_set`, `fts_children`, comparison functions, crossing of file systems, whiteouts, the depth limit of `SHRT_MAX`, growth of the path buffer by powers of two, and errors while a walk is under way. Nothing is said about reading from a stream without roots, where the source reads an uninitialised parent.
- Fts.FtsStream.Stat: files are looked at by identity rather than by path; that the buffer holds the path of the file at that moment is proved beside it.
- MemCluster.Cluster.Write: words at arbitrary offsets of a block are modelled, bytes within a word are not.
- MD5: the paths for machines declared little- or big-endian, and `l2cn`. Words are of 64 bits.
- HMAC: freed contexts are not used again without INIT; null buffers for data and keys; comparison and release of keys. Base 64 is assumed to invert and to produce no newline.
- Timers: callbacks of users do nothing, except that of idle timers; `evConfigTimer`; overflow of the seconds. `evSetTimer` does not set the mode, which is a parameter.
- EvTime.CmpTime: does not model overflow of a 32-bit `long` in the subtraction.
- EvFiles: the variant for `poll`, streams, connections, the dispatch of file events, and failures of `fcntl` other than a bad descriptor.
- EvFiles.EvContext.DeselectFD: the mode a descriptor had is restored on the understanding that no one else has changed it meanwhile.
- getcap: reading records from files (comments, continuation lines, empty fields), the compiled form of databases, `cgetset`, `cgetnext`, and `tc@` beyond stopping the expansion. Records are well formed, ending in a colon, without NULs.
- IconvCache: module loading; opening a converter gives a fresh entry or an error. The links of hash chains and queue are sequences. Names are not cut to the size of a path.
- IconvCache.Cache.Get: names are compared after source and destination have been joined by a slash, as in the source, so that two pairs may share a converter.
- Vis: other locales than C; `svis` and `vis` for single characters.
- VisCode.InjectiveWithExtraIff: stated where backslashes are encoded; where they are not, injectivity is decided without extra characters only, and reversal by the decoder for all.
- WideNumbers: wide characters above the range of the base, and classification of spaces in locales, are parameters or characters of any kind.
- Loops written out several times in the source (rounds of MD5, the arms for read, write and exception) are shared methods; some long C functions are split into several methods in the same order of steps.
