# Verified models of the tooling's parsers, compilers, protocols and canonicalisers

This project models the parts of the repository whose correctness is a statement about every input or every run:
the strict JSON budget scanner, the inspectors of the native build (linker scripts, ELF notes, version
requirements, the runtime closure), the font compiler with its readers, the two-party codec, the release archive
core (path admission, extraction, the wheel's RECORD, publication), the game kernel with three of its data-defined
games, and the schema generators that rewrite their own output. Code that advances a cursor, drains a queue, fills
a buffer or edits a directory is a method with loops, a class or an array; code made of expressions is functions.
Every inductive step is written out; no lemma leans on automatic induction.
`dafny verify dfyconfig.toml` checks everything.

- **JSON** (`JsonGrammar`, `JsonScan`, `JsonScanner`, `JsonExact`). The grammar of RFC 8259, sections 2 to 7, is a
  tree with a printer. The scanner is a class with a cursor and a node counter; it accepts exactly the printed
  trees within the depth, node and number-token budgets.
- **Linker scripts** (`LinkerGrammar`, `LinkerScript`, `LinkerExact`). Comments, tokens and directives have an
  independent grammar with arbitrary layout; reading and laying out are inverse.
- **ELF** (`ElfNotes`, `VersionNeed`, `VersionNeedExact`, `RuntimeClosure`). Notes and version requirements print and
  parse inversely, and the closure reports exactly the dependency edges of the files that are reached, each file's
  needs being those found in it.
- **Fonts** (`Sfnt`, `SfntExact`, `SfntReader`, `Glyph`, `GlyphInk`, `FontTables`, `CmapMeaning`, `FontRoundTrip`,
  `FontHeaders`, `FontBinding`). Bitmaps are compiled through delta-coded contours, `loca`, `cmap` format 4 and the
  checksummed directory, for any 5x7 grids, any run of code points and any other tables, and read back to the same
  bitmaps; the headers no reader of the repository opens hold what the format asks of them.
- **Codec** (`CodecLayout`, `CodecWire`, `CodecErrors`, `CodecEncoder`, `CodecDecoder`, `CodecProtocol`, `CodecRuns`,
  `CodecHonest`). The encoders are stores into a zeroed buffer; the decoders accept exactly what the encoders write, and
  name the first check of the record's bytes that fails. The two programs are step machines over two channels: one
  against any peer at all, and both against each other. SHA-256 is any function to 32 bytes.
- **Release** (`ArchiveTree`, `Extraction`, `Csv`, `WheelIdentity`, `Wheel`, `WheelCanonical`, `PublicationRun`,
  `PublicationExact`, `PublicationSuccess`, `PublicationSafety`, `Publication`). The portable key is any function of one
  path component. The publisher is a class whose every call steps a run that is a function of the directory and of the
  world; other processes act between any two calls.
- **Games** (`GameKernel`, `GameEffects`, `EffectOrder`, `GameRuns`, `FactionGame`, `RogueliteGame`, `SportsGame`).
  Conditions, effects and rejection follow the runtime kernel; the three games are its data.
- **Schemas** (`JsonTree`, `EnumProjection`, `DefinitionMerge`, `ProductionRewrites`, `ProductionOutputs`,
  `ProductionVariants`, `ProductionBuild`, `ProductionFiles`, `ProductionStale`).

Six properties do not hold of the code without a condition. Each is stated with the exact condition.

- The assembled font has the magic checksum exactly when the adjustment replaces a zero word
  (`SfntExact.AssembledChecksum`), and its own reader accepts it exactly when the caller's `head` table was at least
  twelve bytes long with a zero adjustment word (`SfntReader.ReadsExactly`).
- A failed publication restores the directory exactly when no first look at a freshly opened stage, among those the
  staging reaches, fails: the look comes before the stage's cleanup is armed. `PublicationExact.Leaks` finds the look
  from the names in use, the random tokens and the failing calls alone (`PublicationExact.AllOrNothing`); in a world
  where only first looks fail the stage stays (`PublicationExact.UnguardedLookLeaks`).
- The owned-file unlink goes by inode number. A run removes somebody else's file exactly when one of its unlinks that
  does not fail finds the recorded number on a file the publisher did not make (`PublicationSafety.UnsafeExactly`),
  never while numbers are not given out again (`PublicationSafety.SafeWithoutReuse`), and does so when a link fails and
  another process takes the stage's name and number (`PublicationSafety.ReuseRobs`).
- Effects see what earlier effects of the rule wrote, so writing pairwise different variables is not enough for sorting
  by id to be harmless. A rule is accepted and keeps its outcome, whatever the ids, exactly when in the state it starts
  from each effect is accepted and no two others' outcomes, once installed, change it
  (`EffectOrder.SortingKeepsExactly`); otherwise the orders agree only by all rejecting
  (`EffectOrder.OrdersAgreeExactly`). Effects that read nothing another writes meet the condition
  (`EffectOrder.IndependentAreUndisturbed`), a copy and an overwrite of one variable do not
  (`EffectOrder.SortingChangesTheStep`).
- Merging a definition walks references again even when they are merged already, so it ends only when no walk is
  longer than the interpreter's stack (`DefinitionMerge.MergeExactly`). With a stack deeper than the source is large it
  succeeds exactly when everything reachable is there and agrees and no reference cycle is reachable
  (`DefinitionMerge.MergesExactlyWithoutCycles`).
- Building the production schemas from their own output rewrites the five schemas read back to themselves, but the
  processing receipt, the quality report and the manifest take their output variants from the production receipt as it
  was read, before the rewrite. A second build leaves every file alone exactly when that receipt had one item for each
  role and medium and each item agrees with the variant that replaces it, off the keys the generator overwrites
  (`ProductionBuild.SecondBuildExactly`); a receipt with one item for each of the seven media is stale after its first
  build (`ProductionStale.OneForEachMediumIsStale`), and a third build never differs from the second.

## Model

| member | source | states |
|---|---|---|
| JsonScanner.BudgetScanner.ScanText | scripts/studio_runtime_sources.py:379-397 | the scan accepts exactly the texts of the grammar within the budgets; on acceptance `nodes` is the number of values of every tree of the text; never more than one value beyond the node budget is opened |
| JsonExact.AcceptsExactly | scripts/studio_runtime_sources.py:396-490 | acceptance is membership in the RFC 8259 grammar intersected with depth, node and 128-character number budgets, both directions |
| JsonExact.GrammarTextsAreDecidedByTheBudget | scripts/studio_runtime_sources.py:396-463 | on any printed tree the scan stops at its end, counts its values, and accepts exactly when the tree fits the budget |
| JsonExact.AcceptedTextIsInTheGrammar | scripts/studio_runtime_sources.py:389-490 | every accepted text is the printed form of a valid document |
| JsonExact.MeasuresAreOfTheText | scripts/studio_runtime_sources.py:396-463 | two trees of one text whose number tokens are short have the same number of values and the same nesting |
| JsonExact.NumberOver | scripts/studio_runtime_sources.py:42 | the longest match of the number pattern before a delimiter is the whole number token |
| JsonExact.OpensAtMostOneValueTooMany | scripts/studio_runtime_sources.py:396-412 | on every input, accepted or not, at most maxNodes + 1 values are opened |
| LinkerExact.ReadsExactly | scripts/build_ollama_v2_native.py:1379-1488 | a script is accepted with given references exactly when it is some layout, with blanks and comments, of a valid script that flattens to them |
| LinkerExact.ReadsWhatIsLaidOut | scripts/build_ollama_v2_native.py:1379-1488 | any layout of a valid script reads back as its flattened references with their as-needed flags, in order |
| LinkerExact.WhatIsReadIsLaidOut | scripts/build_ollama_v2_native.py:1379-1488 | every accepted text is a layout of a valid script: one GROUP or INPUT, at most one OUTPUT_FORMAT, non-empty unnested AS_NEEDED |
| LinkerExact.ParserIsExact | scripts/build_ollama_v2_native.py:1416-1488 | the token parser accepts exactly the token sequences of valid scripts |
| LinkerGrammar.ReferenceForms | scripts/build_ollama_v2_native.py:1437-1447 | a reference is -l and a name, an absolute path of plain parts with one slash between any two, or a name that does not start with -l |
| LinkerScript.ParseGnuLinkerScript | scripts/build_ollama_v2_native.py:1379-1488 | the comment, token and parser loops compute the reading that the exactness lemmas are about |
| ElfNotes.NotesAreExact | scripts/build_ollama_v2_native.py:1890-1933 | a segment yields given notes exactly when they are valid and the segment is their printed form with zero padding |
| ElfNotes.NotesStayAligned | scripts/build_ollama_v2_native.py:1903-1933 | every accepted prefix of notes is a multiple of four bytes, so the cursor stays aligned |
| ElfNotes.CollectBuildId | scripts/build_ollama_v2_native.py:1890-1933 | the build id is returned exactly when every note segment is well formed and one note in all of them is a build id |
| ElfNotes.CensusIsExact | scripts/build_ollama_v2_native.py:1890-1933 | the census reads every segment exactly when each one of type 4 is readable, word-aligned, all in the file and the printed form of some notes; it has given one build id exactly when one of all their notes is named GNU and has type 3, and that is its description |
| VersionNeed.AcceptedLayout | scripts/build_ollama_v2_native.py:1956-2011 | on acceptance the 16-byte windows are disjoint and inside the section, blocks abut from its start to its end, indices are fresh and pairwise different |
| VersionNeed.InspectVersions | scripts/build_ollama_v2_native.py:1935-2029 | acceptance, the returned requirements and the version of every undefined symbol |
| VersionNeed.SymbolVersionsAreListed | scripts/build_ollama_v2_native.py:2012-2029 | a symbol's version is empty exactly for the reserved indices, otherwise it is one of the returned requirements |
| VersionNeedExact.StringIsExact | scripts/build_ollama_v2_native.py:1984-1999 | a string is read at an offset exactly when it stands there, has no NUL and is followed by one |
| VersionNeedExact.SectionIsExact | scripts/build_ollama_v2_native.py:1956-2011 | the walk yields given blocks exactly when the section is their printed form: hash, flags, index, name offset and next of every entry, version, count, file and entry offsets of every header, each offset holding its NUL-ended name, indices fresh |
| VersionNeedExact.InspectionIsExact | scripts/build_ollama_v2_native.py:1935-2029 | the whole inspection succeeds exactly when the section is the printed form of some blocks and every symbol index is reserved or one of theirs; it returns their files and names, and for each symbol the version its index stands for |
| VersionNeedExact.ReportedVersionStands | scripts/build_ollama_v2_native.py:2012-2029 | a version reported for a symbol is that of an entry whose bytes 6 and 7 are the symbol's index and whose bytes 8 to 11 are the offset of its name, in a block whose bytes 4 to 7 are the offset of its file |
| RuntimeClosure.VerifyRuntimeClosure | scripts/build_ollama_v2_native.py:1700-1793 | terminates on any graph and succeeds exactly when every declaration is allowed, every need found in a reached file is declared and the providers used are the declared ones; the edges are then those from a reached file to the provider of a name in that file's own needs or of its loader, each once |
| RuntimeClosure.Drain | scripts/build_ollama_v2_native.py:1747-1778 | the breadth-first loop visits exactly the reachable files and collects exactly their edges |
| RuntimeClosure.FileFound | scripts/build_ollama_v2_native.py:1725-1746 | a path's requirements are those of the last tool with that path, or of the provider there when no tool has it |
| RuntimeClosure.EdgesAreTheFiles | scripts/build_ollama_v2_native.py:1747-1778 | the edges of the declared graph are exactly those read off the files: from a reached file to the provider of a name it needs |
| RuntimeClosure.UsedAreReached | scripts/build_ollama_v2_native.py:1747-1793 | the providers on the edges are exactly the files some reachable file depends on |
| Sorting.SortIgnoresOrder | scripts/generate_generic_asset_fixtures.py:1557-1570 | with distinct keys every permutation sorts to the same sequence |
| Sorting.LexLeMeans | scripts/generate_generic_asset_fixtures.py:1557-1558 | the order is that of the first difference, a prefix coming first |
| SfntExact.AssembleSfnt | scripts/generate_generic_asset_fixtures.py:1557-1597 | the loops that place, list and append the tables and patch the adjustment build the specified file |
| SfntExact.AssembledChecksum | scripts/generate_generic_asset_fixtures.py:1590-1597 | the whole file sums to 0xB1B0AFBA modulo 2^32 exactly when the word the adjustment replaces was zero, which is the head table's own word when that table is long enough |
| SfntReader.ReadsExactly | scripts/generate_generic_asset_fixtures.py:637-657 | the reader accepts an assembled file exactly when its head table has at least twelve bytes and a zero word |
| SfntReader.DirectoryReadsBack | scripts/generate_generic_asset_fixtures.py:637-657 | for a head table of at least twelve bytes: the reader accepts exactly when its word was zero, and then returns the input tags with aligned, disjoint, in-bounds slices equal to the input tables |
| SfntReader.SfntTableRecords | scripts/generate_generic_asset_fixtures.py:637-657 | the reading loop computes the directory that DirectoryReadsBack is about |
| Glyph.BitmapOutlineGlyph | scripts/generate_generic_asset_fixtures.py:1473-1521 | the point and contour loops and the delta writer build the specified glyph, and refuse exactly the invalid grids and overflowing sizes |
| Glyph.BitmapRoundTrip | scripts/generate_generic_asset_fixtures.py:1473-1521 | undoing the delta-coded contours of a bitmap's glyph gives back exactly the bitmap |
| Glyph.GlyphsAreDistinct | scripts/generate_generic_asset_fixtures.py:1473-1521 | distinct bitmaps have distinct glyph bytes |
| GlyphInk.HeaderIsTheBox | scripts/generate_generic_asset_fixtures.py:1496-1521 | the four box words of a glyph are the least and greatest coordinates of its decoded contours, zero without any; the counts returned are those of its contours and points |
| GlyphInk.InkIsBitmap | scripts/generate_generic_asset_fixtures.py:1477-1495 | contours run clockwise, and a unit of the sheet is inside one exactly when it lies in the square of a set cell, columns from the left and rows from the top |
| FontTables.NarrativeFormat4Mapping | scripts/generate_generic_asset_fixtures.py:660-706 | the segment loops compute the mapping the round trip reads through |
| CmapMeaning.MappingIsPointwise | scripts/generate_generic_asset_fixtures.py:681-706 | for any font file: a map is returned exactly when every kept glyph is inside the file; it has exactly the code points of the segments, and the last segment around one decides its glyph, by its delta or by the word its range offset leads to |
| CmapMeaning.SubtableIsFirst | scripts/generate_generic_asset_fixtures.py:665-682 | for any font file the subtable is that of the first record for the Windows BMP whose subtable has format 4, every record before it being readable |
| FontRoundTrip.CmapMaps | scripts/generate_generic_asset_fixtures.py:1627-1660 | the compiled format 4 table maps exactly the run of code points, to consecutive glyphs |
| FontRoundTrip.LocaReads | scripts/generate_generic_asset_fixtures.py:709-722 | the compiled offsets read back as the glyphs' own offsets |
| FontRoundTrip.CharacterRoundTrip | scripts/generate_generic_asset_fixtures.py:1600-1753 | reading a code point through directory, cmap, loca and glyf gives back exactly its source bitmap, for any 5x7 grids and any other tables |
| FontRoundTrip.FontsAreDistinct | scripts/generate_generic_asset_fixtures.py:1600-1753 | equal fonts have the same run of code points and the same bitmaps, whatever other tables they carry |
| FontRoundTrip.NarrativeFontCompiles | scripts/generate_generic_asset_fixtures.py:1600-1753 | every run of valid bitmaps compiles, with any other tables of at most 64 MiB |
| FontHeaders.HeaderAndOrder | scripts/generate_generic_asset_fixtures.py:1557-1589 | every assembled file has version 1.0, sixteen times the largest power of two not above its table count, that power's exponent and the rest, and a directory in strictly ascending order of tags |
| FontHeaders.MaxpIsLargest | scripts/generate_generic_asset_fixtures.py:1615-1626 | `maxp` holds the glyph count and the largest numbers of points and contours of a decoded glyph |
| FontHeaders.CmapIsSearched | scripts/generate_generic_asset_fixtures.py:1627-1636 | the compiled map's search fields follow from its segment count |
| FontHeaders.HeadBoxHolds | scripts/generate_generic_asset_fixtures.py:1676-1695 | the box in `head` holds every point of every glyph |
| FontBinding.ValidateBinding | scripts/generate_generic_asset_fixtures.py:725-779 | the validator accepts exactly the generated font |
| FontBinding.EveryCheckPasses | scripts/generate_generic_asset_fixtures.py:725-779 | the generated font passes every one of its checks: checksum, tables, mapping, offsets, metrics, glyphs |
| CodecLayout.TiledByteHasOneField | scripts/build_ollama_v2_native.py:508-543 | in a tiled table every byte of the record belongs to exactly one field |
| CodecWire.TablesTile | scripts/build_ollama_v2_native.py:508-543 | the header and both bodies tile their 120, 24 and 48 bytes |
| CodecLayout.NumberIsItsBytes | native/ollama_v2_control/wf_ov2_protocol.c:48-84 | bytes read as a number exactly when they are that number written out, for any width |
| CodecEncoder.StoreU64 | native/ollama_v2_control/wf_ov2_protocol.c:78-84 | the shifting loop writes the eight bytes, most significant first, and nothing else |
| CodecEncoder.EncodeNegotiate | native/ollama_v2_control/wf_ov2_protocol.c:297-351 | the stores produce exactly the request record; a zero nonce or a deadline outside the window leaves the buffer untouched |
| CodecEncoder.EncodeUnavailable | native/ollama_v2_control/wf_ov2_protocol.c:384-408 | the stores produce exactly the response record, or the buffer is untouched |
| CodecDecoder.LoadU64 | native/ollama_v2_control/wf_ov2_protocol.c:57-64 | the accumulating loop reads the number the eight bytes write out |
| CodecDecoder.DecodeNegotiate | native/ollama_v2_control/wf_ov2_protocol.c:353-382 | the checks in order give the exact decoder's verdict; nonce and deadline are written exactly on success |
| CodecDecoder.DecodeUnavailable | native/ollama_v2_control/wf_ov2_protocol.c:410-437 | the checks in order give the exact decoder's verdict |
| CodecWire.NegotiateIsExact | native/ollama_v2_control/wf_ov2_protocol.c:265-382 | a request is accepted exactly when it is, byte for byte, the encoding of the nonce and deadline read from it, nonce nonzero and deadline in the window |
| CodecWire.UnavailableIsExact | native/ollama_v2_control/wf_ov2_protocol.c:410-441 | a response is accepted exactly when it is, byte for byte, the encoding for this nonce, deadline and request hash |
| CodecErrors.RequestVerdict | native/ollama_v2_control/wf_ov2_protocol.c:265-382 | a request's verdict is the error of the first of six checks of its bytes that fails: the fixed header bytes, a nonzero nonce, the body's hash, the deadline, first in the run, the fixed body bytes |
| CodecErrors.ResponseVerdict | native/ollama_v2_control/wf_ov2_protocol.c:265-437 | a response's verdict likewise: fixed header bytes, nonce, hash, deadline, an answer to this request, the fixed body bytes |
| CodecErrors.MessageVerdict | native/ollama_v2_control/wf_ov2_protocol.c:613-705 | a received message's verdict: at most 168 bytes, no descriptors, not empty, at least a header, in that order |
| CodecWire.DeadlineFrom | native/ollama_v2_control/codec_initiator.c:24-29 | a computed deadline never wraps, and is refused exactly when it would |
| CodecRuns.InitiatorIsSafe | native/ollama_v2_control/codec_initiator.c:16-48 | against any peer at most one record is sent, and success means the peer sent one response with this nonce, deadline and request hash, then closed |
| CodecRuns.ResponderIsSafe | native/ollama_v2_control/codec_responder.c:17-45 | against any peer the responder answers only a single well-formed request followed by end of file, with that request's nonce, deadline and hash |
| CodecRuns.StepKeepsLocal | native/ollama_v2_control/wf_ov2_protocol.c:509-757 | every library call of either program keeps what the programs know about their channels |
| CodecHonest.AtMostTwoRecords | scripts/build_ollama_v2_native.py:549-562 | in every interleaving at most two records are sent, and two successes agree on nonce and deadline |
| CodecHonest.NeverStuck | native/ollama_v2_control/codec_initiator.c:36-48 | until both are done, one of the two programs can always take its next call |
| CodecHonest.TimelyRunsSucceed | native/ollama_v2_control/codec_responder.c:17-45 | a timely run takes fourteen calls, can always go on until then, and ends with both programs succeeding |
| CodecHonest.HalfCloseIsNeeded | native/ollama_v2_control/codec_initiator.c:39-41 | without the half-close the same state would leave both programs waiting |
| ArchiveTree.AdmitTar | scripts/build_release.py:262-308 | the two-phase tar check accepts exactly the admissible member lists: no duplicates, one path for each portable key, no path both file and directory |
| ArchiveTree.AdmitWheel | scripts/build_release.py:1216-1243 | the one-pass prefix and kind table accepts exactly the same member lists |
| ArchiveTree.AdmissionIgnoresOrder | scripts/build_release.py:262-308 | admission and the set of places do not depend on the member order |
| Extraction.ExtractTree | scripts/build_release.py:310-343 | extracting an admitted archive never finds anything in its way and leaves exactly the members' tree |
| Extraction.TreeIgnoresOrder | scripts/build_release.py:310-343 | every member order and every creation order leaves the same tree |
| Csv.ReadsBack | scripts/build_release.py:1163-1167 | reading written rows gives the rows back, for every rows without a carriage return |
| Csv.FieldsAsWritten | scripts/build_release.py:1163-1167 | plain fields are written as they are with commas between them, the others in quotes with their quotes doubled, and a row of one empty field as two quotes |
| Csv.ReadRows | scripts/build_release.py:1440-1443 | the reader's state machine computes the reading that ReadsBack is about |
| WheelIdentity.IdentityStays | scripts/build_release.py:1209-1376 | dropping directory entries and rewriting RECORD keeps the identity check |
| WheelIdentity.FilesImplyDirectories | scripts/build_release.py:689-778 | the public directories of a wheel without directory entries are exactly those its public files expect |
| Wheel.VerifyRecord | scripts/build_release.py:1425-1461 | the verifier accepts exactly when RECORD parses into one row for each file and no other, each describing it: its path joined by slashes, sha256= and its digest, and the digits that write its size, RECORD's own row empty |
| Wheel.DecimalWrites | scripts/build_release.py:1158-1160 | the decimal of a size is digits only, without a leading zero, and its value is the size |
| Wheel.OneWayToWrite | scripts/build_release.py:1158-1160 | no other digits write the same number |
| Wheel.NamesAreDistinct | scripts/build_release.py:661-679 | distinct portable paths have distinct names |
| WheelCanonical.Canonicalize | scripts/build_release.py:1379-1422 | the rewriting loops produce the canonical wheel, and the final verification never refuses it |
| WheelCanonical.CanonicalVerifies | scripts/build_release.py:1408-1461 | the canonical wheel passes the identity check and the RECORD verifier, quoting included |
| WheelCanonical.CanonicalIsTheFiles | scripts/build_release.py:1379-1422 | the canonical wheel has the files in name order, no directories, each file but RECORD exactly as it was, executable bit included, and RECORD a plain file |
| WheelCanonical.OnlyContentMatters | scripts/build_release.py:1379-1422 | only names, bytes and executable bits matter, not order, directory entries or the old RECORD |
| WheelCanonical.CanonicalIsStable | scripts/build_release.py:1379-1422 | making a canonical wheel canonical changes nothing |
| PublicationExact.AllOrNothing | scripts/build_release.py:1554-1597 | in a quiet directory with succeeding unlinks: success adds exactly the targets with their bytes; a failure restores the directory exactly when no first look the staging reaches fails, and otherwise leaves that one stage |
| PublicationExact.FailureRestores | scripts/build_release.py:1554-1597 | while first looks succeed, every failure restores the directory |
| PublicationExact.LookIsBlamed | scripts/build_release.py:1507-1537 | with others running too, the run ends with a failed first look only after a call at which one failed |
| PublicationExact.UnguardedLookLeaks | scripts/build_release.py:1534-1535 | when only first looks fail, publishing an artifact with free names leaves its stage behind |
| PublicationExact.QuietStage | scripts/build_release.py:1507-1551 | staging ends as its first opening, its first look and its copy do: a stage with the artifact under a name that was free, nothing left, or the unguarded look's file |
| PublicationSuccess.PublishedExactly | scripts/build_release.py:1554-1597 | in a quiet directory a run publishes exactly when every artifact finds a free stage name within a hundred tries and its look and copy work, and every target name is free when its stage is linked and looked at |
| PublicationSuccess.OpensWithinAHundred | scripts/build_release.py:1507-1533 | a stage opens exactly when some of the first hundred names is free and its opening does not fail, all before it being taken |
| PublicationSuccess.HealthyPublishes | scripts/build_release.py:1554-1597 | when no call fails, the target names are pairwise different and free, and stage names are free and no target, the run publishes |
| PublicationSafety.UnsafeExactly | scripts/build_release.py:1495-1504 | whatever other processes do, the run touches an entry that is not its own exactly when an unlink that does not fail finds the recorded number on a file that is not the publisher's |
| PublicationSafety.SafeWithoutReuse | scripts/build_release.py:1495-1597 | while no created number is given out again, no entry that is not the publisher's is removed or changed |
| PublicationSafety.ReuseRobs | scripts/build_release.py:1495-1504 | a failing link and a stage replaced under its own number: publishing into any directory with the two names free removes the other process's file |
| Publication.Publisher.Publish | scripts/build_release.py:1554-1597 | the staging, linking and unlinking loops perform exactly the run the theorems are about; in a quiet world they publish exactly when every call reached goes through |
| Publication.Publisher.Stage | scripts/build_release.py:1507-1551 | the hundred tries, the first look and the guarded copy perform exactly the run's staging |
| Publication.Publisher.UnlinkOwned | scripts/build_release.py:1495-1504 | of the directory it finds it removes the name exactly when that carries the recorded number and the unlink does not fail; the step is unsafe exactly when that file is not the publisher's |
| GameKernel.Transition | src/gamepack_runtime/semantics_v1.py:850-994 | the candidate-state loops accept exactly the states the step accepts, raise exactly for a state outside its schema or unclassifiable, and otherwise reject; anything but acceptance gives the state back unchanged |
| GameKernel.IndependentEffects | src/gamepack_runtime/semantics_v1.py:568-675 | effects that keep out of each other's way all see the state the rule started from, and are accepted exactly when each is |
| GameKernel.OrderDoesNotMatter | src/gamepack_runtime/semantics_v1.py:568-675 | every permutation of effects that read nothing another writes accepts the same states and reaches the same next state |
| GameKernel.SortingKeepsTheStep | scripts/generate_creation_workflow_fixtures.py:1869-1893 | sorting by id preserves the step of a rule whose effects read nothing another writes, accepted or rejected |
| GameEffects.SwapExchanges | src/gamepack_runtime/semantics_v1.py:621-647 | a swap succeeds exactly on a list and two places in it, exchanges the two items, leaves the others in place and keeps the multiset |
| GameEffects.SwapUndoesItself | src/gamepack_runtime/semantics_v1.py:621-647 | the same swap again restores the list |
| GameEffects.PartsDecide | src/gamepack_runtime/semantics_v1.py:488-502 | every part of a conjunction or disjunction is evaluated; it fails exactly when one does, and holds exactly when all, or one, of them hold |
| EffectOrder.TwoEffects | src/gamepack_runtime/semantics_v1.py:568-675 | the two orders of two effects with different targets agree exactly when both reject or neither outcome changes after the other's write |
| EffectOrder.NeighboursExactly | src/gamepack_runtime/semantics_v1.py:568-675 | the same for two neighbours inside any rule, whatever comes before and after |
| EffectOrder.OrdersAgreeExactly | src/gamepack_runtime/semantics_v1.py:568-675 | for pairwise different targets, the rule is accepted with the same result in every order exactly when, in its starting state, each effect is accepted and no two others' outcomes change it; otherwise the orders agree only by all rejecting |
| EffectOrder.SortingKeepsExactly | scripts/generate_creation_workflow_fixtures.py:1869-1893 | the rule is accepted and sorting by id keeps its outcome, whatever the ids, exactly under the same condition on the starting state |
| EffectOrder.IndependentAreUndisturbed | scripts/generate_creation_workflow_fixtures.py:1869-1893 | accepted effects that read nothing another writes meet that condition |
| EffectOrder.ReadersNoticeInside | src/gamepack_runtime/semantics_v1.py:408-436 | inside any rule that reaches it with another value, copying a variable before or after overwriting it differs |
| EffectOrder.SortingChangesTheStep | scripts/generate_creation_workflow_fixtures.py:1869-1893 | in every schema and state that admit the values, a rule that copies and then overwrites a variable, under ids that sort the other way, steps elsewhere after sorting |
| GameRuns.OneRuleStep | src/gamepack_runtime/semantics_v1.py:850-994 | an accepted step satisfies its conditions, updates exactly the targets and stays in every domain |
| FactionGame.FourPointsAlways | scripts/generate_creation_workflow_fixtures.py:717-985 | over every run north + south + command is 4, and at most two points are spent a turn |
| FactionGame.RestartUntilVictory | scripts/generate_creation_workflow_fixtures.py:925-985 | a restart is accepted exactly until north holds three points, and gives the initial state |
| FactionGame.DirectsExactly | scripts/generate_creation_workflow_fixtures.py:717-985 | over every run one or two points are directed exactly while they are left, turns are left and north has not won, and the next state is exactly the one with the points on the named side |
| RogueliteGame.ActiveMeansHealthy | scripts/generate_creation_workflow_fixtures.py:987-1360 | over every run the run is active exactly while health is positive |
| RogueliteGame.Accepted | scripts/generate_creation_workflow_fixtures.py:1186-1252 | for every action, exactly the reachable states in which it is accepted |
| RogueliteGame.FailedRunsRecover | scripts/generate_creation_workflow_fixtures.py:1354-1360 | a failed run is recoverable exactly while fewer than 99 deaths are recorded; recovering gives the initial state with one more death; otherwise some action is open until victory |
| SportsGame.PointsAreAccounted | scripts/generate_creation_workflow_fixtures.py:1362-1842 | over every run career points are all points recorded, standings are the points since the last restart and at most three a round |
| SportsGame.Accepted | scripts/generate_creation_workflow_fixtures.py:1362-1842 | over every run each action is accepted in exactly the stated states: a plan between matches, any result of the match at hand while the career total stays at most 999, a restart until the season is won |
| SportsGame.PendingResultsAreRecorded | scripts/generate_creation_workflow_fixtures.py:1578-1700 | a pending result always has an accepted action |
| EnumProjection.ReplaceTwice | scripts/generate_creation_content_modes.py:89-101 | replacing twice is replacing once with the last modes, and the count does not change |
| EnumProjection.OutsideIsUntouched | scripts/generate_creation_content_modes.py:89-101 | outside the projected enums every place keeps its node |
| EnumProjection.EnumsAreReplaced | scripts/generate_creation_content_modes.py:89-101 | every projected enum holds exactly the modes |
| EnumProjection.EnumsStandThere | scripts/generate_creation_content_modes.py:89-101 | a projected enum is the first enum member of the first asset_content_mode object on the way to it |
| EnumProjection.CountIsTheEnums | scripts/generate_creation_content_modes.py:89-101 | the replacement count is the number of places at which a projected enum stands |
| EnumProjection.BuildsExactly | scripts/generate_creation_content_modes.py:104-149 | a schema is built exactly when it has two projected enums and its reviewed form has the recorded hash |
| EnumProjection.ProjectionIsInvisible | scripts/generate_creation_content_modes.py:104-115 | the reviewed form is the same before and after projection |
| EnumProjection.BuiltSchemaPasses | scripts/generate_creation_content_modes.py:128-149 | a built schema passes its own check again, for the same or any other modes |
| DefinitionMerge.DefinitionReferences | scripts/generate_generic_assetpack_schema.py:56-68 | the stack loop terminates and collects exactly the references of the tree |
| DefinitionMerge.ReferencesStandSomewhere | scripts/generate_generic_assetpack_schema.py:56-68 | a name is among the references exactly when some path of the tree reaches an object whose $ref is a text starting with #/$defs/ and ending, after its last slash, in that name |
| DefinitionMerge.MergedIsClosed | scripts/generate_generic_assetpack_schema.py:39-53 | a table in which no such reference dangles still has none dangling after a merge |
| DefinitionMerge.MergeExactly | scripts/generate_generic_assetpack_schema.py:39-53 | a merge succeeds exactly when everything reachable is in the source and agrees with the table and no walk outgrows the stack; it then adds exactly the reachable definitions, equal to their source |
| DefinitionMerge.MergesExactlyWithoutCycles | scripts/generate_generic_assetpack_schema.py:39-53 | on a stack deeper than the source is large, a merge succeeds exactly when everything reachable is there and agrees and nothing reachable lies on a reference cycle |
| DefinitionMerge.CyclesNeverMerge | scripts/generate_generic_assetpack_schema.py:39-53 | a name that reaches a reference cycle never merges, however deep the stack |
| DefinitionMerge.RankedMerges | scripts/generate_generic_assetpack_schema.py:39-53 | when references go down a ranking, a name whose definitions are there and agree merges on any stack deeper than its rank |
| ProductionRewrites.RoleMediaStable | scripts/generate_generic_asset_production_schemas.py:92-105 | rewriting the role and media variants again changes nothing |
| ProductionRewrites.ReceiptOutputsStable | scripts/generate_generic_asset_production_schemas.py:108-138 | rewriting the receipt's output variants again changes nothing |
| ProductionVariants.RoleVariantIs | scripts/generate_generic_asset_production_schemas.py:92-105 | in each variant the role and the medium stand at their own keys, and all else is the base's |
| ProductionVariants.OutputVariantIs | scripts/generate_generic_asset_production_schemas.py:108-138 | a receipt variant has its role, its medium, its metadata with stage and metrics at their paths, and all else of the item it replaces |
| ProductionVariants.SeedRuleIsBehindTheFixed | scripts/generate_generic_asset_production_schemas.py:191-243 | the recorded-seed rule stands behind the first fixed-seed rule, and without it the rules are as they were |
| ProductionVariants.RecordedRules | scripts/generate_generic_asset_production_schemas.py:191-243 | the rules taken out are those whose condition names the procedural class and a recorded seed; the rule put in is one and asks for an integer seed |
| ProductionVariants.LineageIsBehindTheReceipt | scripts/generate_generic_asset_production_schemas.py:185-188 | the lineage is required right behind the first mention of the receipt, unless it was required already |
| ProductionBuild.LineageStable | scripts/generate_generic_asset_production_schemas.py:145-188 | adding the receipt lineage to the whole selection schema again changes nothing |
| ProductionBuild.SelectionStable | scripts/generate_generic_asset_production_schemas.py:1397-1407 | the role variants and the lineage together: rewriting a rewritten selection changes nothing |
| ProductionBuild.RewrittenTwice | scripts/generate_generic_asset_production_schemas.py:1392-1410 | rewriting the five schemas read back, once rewritten, changes nothing |
| ProductionFiles.RewrittenFiles | scripts/generate_generic_asset_production_schemas.py:1392-1410 | in each of the five files the rewritten places hold exactly what the generator makes of what stood there, and every place on another branch keeps its value |
| ProductionFiles.AlikeIsSame | scripts/generate_generic_asset_production_schemas.py:1413-1426 | two files are alike exactly when the same keys and indices lead to the same scalars, to arrays of one length and to objects |
| ProductionOutputs.DerivedAgree | scripts/generate_generic_asset_production_schemas.py:440-538 | two lists of items make the same processed, quality and manifest variants exactly when they are as long and agree item by item off the overwritten keys |
| ProductionVariants.ProcessedIs | scripts/generate_generic_asset_production_schemas.py:440-470 | what stands at each overwritten key of a processed output |
| ProductionVariants.QaOutputIs | scripts/generate_generic_asset_production_schemas.py:471-510 | what stands at each overwritten key of a quality output |
| ProductionVariants.ManifestOutputIs | scripts/generate_generic_asset_production_schemas.py:513-538 | a manifest output lacks exactly the four keys of processing and requires exactly six keys; all else is the processed output's |
| ProductionBuild.SecondBuildExactly | scripts/generate_generic_asset_production_schemas.py:1385-1433 | a second build succeeds, and leaves every file alone exactly when the receipt first read had one item for each role and medium, each agreeing with the variant that replaces it; a third build equals the second |
| ProductionBuild.WrittenIsSettled | scripts/generate_generic_asset_production_schemas.py:1385-1433 | a receipt the generator wrote meets that condition |
| ProductionStale.OneForEachMediumIsStale | scripts/generate_generic_asset_production_schemas.py:108-138 | with the program's roles and media, the receipt with one item for each medium builds, and a second build changes what the first wrote |
| ProductionRewrites.RecordedSeedStable | scripts/generate_generic_asset_production_schemas.py:191-243 | requiring the recorded seed again changes nothing |

## Left out

- Files, archives and processes: opening, stat, gzip, zip and tar containers, git, subprocesses and argument parsing are foreign calls; their results are inputs.
- SHA-256: any function to 32 bytes; no lemma assumes it is injective.
- The rest of `load_strict_json_bytes`: decoding, duplicate keys and number conversion after the scan.
- The interpreter's recursion limit in the JSON scanner, which a large depth budget could reach before the budget does.
- The order of the returned closure edges, requirements and symbol versions where the program sorts them for its report.
- ELF headers, sections and dynamic tables before the note and version walks: long but settled field by field.
- The loader cache, the tar writer and the transcript normaliser of the native build.
- Sfnt.ValidTables: tags are four bytes, as the format requires; a longer tag in the program would fail inside `struct`.
- Font names, panose and the other unread tables: arbitrary bytes.
- Codec sockets: the wait before each call is one clock reading at the time the call is made; a socket buffer is always ready for one record; truncated ancillary data is an error either way.
- CodecEncoder.EncodeNegotiate: null arguments are not modelled, the buffers being given.
- Unicode normalisation and case folding: any function of one path component; the portable-name rules are part of an arbitrary per-member predicate.
- Wheel.VerifyRecord: requires the identity check it begins with, and portable names, which that check establishes.
- Csv.ReadsBack: a field with a carriage return is excluded, because interpreter versions differ in quoting it; portable names have no control characters.
- The byte comparison of two independent release builds before publication: equality of the two builds' files.
- Zip timestamps, compression and attribute bits other than the executable ones: members carry only what the canonical wheel keeps.
- The source distribution's canonicalisation, which has the same shape as the wheel's with fewer checks.
- Publication.Publisher.Publish: the output directory it may create is not removed by a failure and is not part of the directory modelled; the check and unlink of an owned file are one step.
- Narrative cursors, goals, events and parameter domains of the game kernel; actions of the modelled games have no parameters.
- The action framing game: one counter going up while another goes down.
- The schema rewrites edit their trees in place; the models return the new tree. A key chain that runs into a value that is not an object counts as absent.
- ProductionBuild.Build: of the schemas made afresh, what comes from the files rewritten by the same run; the rest of them is constant or comes from the asset specification, which no build writes.
- Pinned constants, hash tables, literal schemas, PNG, WAV, GLSL and GLB fixtures.
