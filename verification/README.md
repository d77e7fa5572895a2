# Release, acceptance and CI models

This project models the release and CI scripts of the repository and proves what they promise
over every input, every run and every failing step. Verify it with `dafny verify dfyconfig.toml`.

**Canonical archives.** One script writes ZIP, ustar with extended headers, and stored-block
gzip byte by byte; it and the release verifier parse those formats by hand. The writers are
methods proved against image functions, the parsers are methods proved against recursive
readers, and lemmas in both directions join the two: what is accepted is exactly what is
written. On top stand the canonicalizers: which archives they accept, and with which contents, is
spelled out byte by byte, what they keep of the contents is stated of the members before and after,
and their outputs are fixed points that depend only on contents.

- `Bytes`, `Crc`, `Sorting`, `Text`, `Unicode`, `Struct`, `ReleaseContract`: byte strings, CRC-32 as a
  fold, sorting, UTF-8 and portable names, packed records, limits.
- `Gzip`, `GzipStream`: stored gzip read whole and as a stream with short reads.
- `Pax`, `TarHeader`, `Tar`, `TarWriter`, `TarSource`: extended headers, headers, the verifier's
  layout check, the writer, the check of build output.
- `SourceContents`, `Normalize`, `Sdist`, `SdistVerified`: the source distribution end to end;
  `SourceGrammar`, `SourceExact`: the archives of build tools that it accepts.
- `Wheel`, `WheelRecords`, `WheelCanonical`, `WheelForm`, `WheelSignature`, `WheelExact`: the wheel
  container end to end, which containers are wheels, which wheels have a canonical form, and one
  within every budget that has none.

**Scheduling.** `Shards` holds the greedy longest-first partition with Graham's bound, and
`ShardPromises` what a partition owes to the files and weights it was given.

**Acceptance gate.** `Markdown` is the line scanner, `Spacing` and `MarkdownPatterns` say what its
patterns match, `TableText` and `AcceptanceTable` are the strict table reader, `Dates`, `VerdictLines`,
`VerdictDates` and `VerdictWriter` the in-place writer, `VerdictAgreement`, `VerdictRecord` and
`VerdictLaws` their agreement, `VerdictTwice` and `VerdictRepeat` writing twice, `VerdictWitness`
files on which writer and reader disagree, `VerifierAnswer` the step from an answer to a row.
`Criteria`, `DoneGate` and `DoneGateLaws` are the gate on done issues, `DoneGatePromises` what it
asks of rows, records and issues, `DoneGateExact` and `DoneGateSound` that it asks exactly this, and
`DoneGateWitness` is a documentation set with a wrong digest that it accepts.

**Other protocols.** `Graphs`, `RosterGraph`: cycle searches. `Publication`: publishing a bundle
under failing calls. `BlobBatch`, `PortableAliases`: Git batch answers and path aliases.
`RuntimeReceipts`: the CI runtime under failures and crashes. `Sums`, `TimingJson`, `PytestTiming`,
`TimingReports`, `TimingArtifact`: the timing pipeline. `ContextStatus`: the backward reader.

Some promises hold only under a condition. Each is stated as an equivalence over the whole
failing family, beside a concrete input that fails:

- A recorded verdict reads back exactly when no cell of its row opens an HTML comment
  (`WrittenRowExact`; `CommentRowIsLost`), and on every body exactly when the front matter is
  neutral for the scanner (`AgreementExactly`): the writer scans the whole file and the gate only
  the body, so a block left open, a Verification heading or a table header in the front matter
  misleads it (`HeadingFrontMisleads`, `CommentFrontMisleads`).
- Writing the same verdict twice is writing it once, on every body, exactly when the front matter
  with its new dates is still neutral or holds the very row that is written (`RepeatsExactly`).
  That is so when no cutoff or updated line holds a comment marker (`UnmarkedRepeats`); a comment
  that the old date closes makes the second writing fail (`WrittenOnlyOnce`).
- A verdict is bound to its evidence exactly when the candidate commit is a text in the front
  matter (`BoundExactlyWhenText`): a number of forty digits prints like a commit, so it passes
  the schema, but it is not looked up and no digest is compared (`WrongDigestPasses`).
- A crashed runtime preparation is repaired by a faultless run in the same isolation mode exactly
  when it did not stop between making the directory and writing its owner receipt
  (`RunsThenRepair`); later runs then refuse it (`CrashBeforeReceipt`).

Three more conditions are the code's own limits: the wheel's end record must not contain its own
signature (`DirectoryReads`, `CanonicalExactly`; `EndSignatureRecurs`), lines newer than the newest
token count must be readable (`ReadContextStatus`; `ReadSpoilt`), and the JSON text of a timing
report must not exceed one mebibyte (`ErrorFreeAccepted`).

Digests, letter folding, inflation, commit lookup, the CSV row of a wheel member, the sets of
generated files and rounding are parameters, and every theorem holds for all of them unless it
says otherwise.

## Model

| member | source | states |
|---|---|---|
| Crc.UpdateConcat | scripts/verify_distribution.py:1634-1668 | Checksumming block by block, as the streaming reader does, gives the checksum of the whole payload |
| Crc.ShiftBits | scripts/verify_distribution.py:1634-1668 | One step of the checksum divides by two, and takes the polynomial from an odd register |
| Crc.StepShifts | scripts/verify_distribution.py:1634-1668 | A byte is added to the register, which is then shifted eight times |
| Crc.CheckValues | scripts/verify_distribution.py:1634-1668 | The checksum of one byte 0x7f is 0x12b88320, and of one byte 0xff it is 0xff000000 |
| Gzip.CanonicalStoredGzip | scripts/canonicalize_distributions.py:893-914 | The segmentation loop writes header, canonical stored blocks of 65,535 bytes and the trailer |
| Gzip.StoredBlocksExact | scripts/canonicalize_distributions.py:795-833 | Stored segmentation is a bijection: block bytes parse to a payload exactly when they are its canonical segmentation |
| Gzip.StoredGzipPayload | scripts/canonicalize_distributions.py:795-833 | The reader returns p exactly when the body is the stored encoding of p within the bound |
| GzipStream.BoundedGzipReader.ReadExact | scripts/verify_distribution.py:1592-1613 | Exact reads survive short reads of the stream and count every byte observed |
| GzipStream.ReadStoredGzipPayload | scripts/verify_distribution.py:1634-1668 | The streaming reader with its running checksum accepts exactly the stored encodings and returns their payload |
| GzipStream.ReadStoredGzipHeader | scripts/verify_distribution.py:1623-1631 | The header is read up to its terminator or the length limit |
| GzipStream.HeaderVerdict | scripts/verify_distribution.py:1710-1748 | On a header as read the check passes exactly when it is the canonical header of an accepted filename and time |
| GzipStream.HeaderUnique | scripts/verify_distribution.py:1710-1748 | At most one filename and time head a file |
| GzipStream.TarSuffix | scripts/verify_distribution.py:1734-1736 | An accepted name is a stem and `.tar` |
| GzipStream.DecompressSingleGzip | scripts/verify_distribution.py:1671-1707 | The verifier accepts exactly the files the canonical writer produces, and returns their payload |
| Pax.TwoLengths | scripts/canonicalize_distributions.py:1197-1202 | Two record lengths fit one body exactly when it has 10^k-k-1 bytes, and they are 10^k-1 and 10^k |
| Pax.LengthUnique | scripts/canonicalize_distributions.py:1197-1202 | Outside that family exactly one length fits |
| Pax.PaxPathRecord | scripts/canonicalize_distributions.py:1197-1202 | The loop ends, with the least length that is a fixed point |
| Pax.ParsePaxPayload | scripts/canonicalize_distributions.py:930-951 | The strict record loop is the record-by-record reading |
| Pax.StrictReadsPath | scripts/canonicalize_distributions.py:930-951 | It returns a lone newline-free path exactly for the records that spell it |
| Pax.ParsePaxRecords | scripts/verify_distribution.py:1831-1860 | The verifier's record loop is the record-by-record reading |
| Pax.LaxReadsPath | scripts/verify_distribution.py:1831-1871 | It returns a lone path exactly for the records that spell it, newlines included |
| TarHeader.CanonicalTarHeader | scripts/canonicalize_distributions.py:1205-1228 | Filling the buffer field by field and summing it gives the canonical header |
| TarHeader.HeaderExact | scripts/verify_distribution.py:1788-1828 | The verifier accepts a header exactly when the writer makes it for the name, size and type it carries |
| TarHeader.SourceReadsCanonical | scripts/canonicalize_distributions.py:969-1011 | Canonical headers pass the check of build output with the fields they were made from |
| Tar.RecordExact | scripts/verify_distribution.py:1886-1950 | A header and its padded contents are read exactly when they are a written record |
| Tar.LayoutSound | scripts/verify_distribution.py:1886-1950 | Bytes the layout loop accepts are the canonical encoding of the members it returns, in file order |
| Tar.LayoutComplete | scripts/verify_distribution.py:1886-1950 | The loop accepts every canonical encoding and returns its members |
| Tar.LayoutUnique | scripts/verify_distribution.py:1886-1950 | An archive has at most one reading |
| Tar.PreflightTarLayout | scripts/verify_distribution.py:1886-1950 | With an expected time the check accepts exactly the canonical encodings |
| TarWriter.EncodeEntry | scripts/canonicalize_distributions.py:1231-1267 | One turn of the writer appends the entry's image, with an extended header when its name needs one |
| TarWriter.CanonicalTarPayload | scripts/canonicalize_distributions.py:1231-1267 | The writer produces the images of the entries sorted by name, and the end padding |
| TarWriter.WriterRoundTrip | scripts/canonicalize_distributions.py:1231-1267 | The tar of safe entries is a canonical layout whose only reading is the entries sorted by name |
| TarWriter.OnlyLengthSpellingIsFree | scripts/verify_distribution.py:1886-1950 | The only freedom of an accepted archive over the writer's output is the longer length of a path record with 10^k-k-1 bytes |
| TarSource.ValidateSourceTarLayout | scripts/canonicalize_distributions.py:1048-1093 | The source check is the member-by-member reading of build output |
| TarSource.CanonicalIsSource | scripts/canonicalize_distributions.py:1048-1093 | Every tar of safe entries passes the source check and reads back as its entries |
| Normalize.NormalizeSdistEntries | scripts/canonicalize_distributions.py:129-145 | Names, directories and files that are not generated stay as they are, generated text keeps its lines under LF, and the manifest lists the files there are, each once, by parent and base name |
| Normalize.SourcesSame | scripts/canonicalize_distributions.py:119-126 | The manifest depends only on which files there are |
| Normalize.NormalizedIsFixed | scripts/canonicalize_distributions.py:129-145 | Normalized entries in archive order are a fixed point of normalization |
| Normalize.SourcesSmall | scripts/canonicalize_distributions.py:119-126 | The regenerated manifest stays within the size limit of a member |
| Sdist.GzipTarPayload | scripts/canonicalize_distributions.py:836-890 | The container reader returns the tar that the container holds |
| Sdist.SourceTarEntries | scripts/canonicalize_distributions.py:1116-1187 | Accepted members become distinct, budgeted entries with exactly the directories that lead to the files |
| Sdist.CanonicalizeSdistBytes | scripts/canonicalize_distributions.py:1270-1297 | The canonicalizer returns the canonical form, and raises exactly when there is none; what it returns holds the contents of its input, member by member |
| Sdist.CheckTopology | scripts/canonicalize_distributions.py:1175-1186 | One root, and exactly the directories that lead to the files |
| Sdist.CanonicalIsFixedPoint | scripts/canonicalize_distributions.py:1270-1297 | What it returns it accepts, and returns unchanged |
| Sdist.CanonicalFormIsByContents | scripts/canonicalize_distributions.py:1270-1297 | Accepted archives with the same normalized entries have the same canonical form |
| SourceGrammar.ToolHeaderExactly | scripts/canonicalize_distributions.py:969-1011 | A build tool's header is accepted exactly when it spells its fields with their checksum |
| SourceGrammar.StrictExactly | scripts/canonicalize_distributions.py:930-951 | An extended header is read exactly when its payload lists a time and a path, each at most once, under lengths that fit |
| SourceGrammar.NearestExactly | scripts/canonicalize_distributions.py:1014-1045 | The header's time is the nearest integer to the extended one, halves to even |
| SourceGrammar.ArchiveExactly | scripts/canonicalize_distributions.py:1048-1093 | A build tool's tar is read exactly when it is its members, each behind at most one extended header, and zero blocks, within the budgets |
| SourceExact.HeadExactly | scripts/canonicalize_distributions.py:836-858 | The container's header is accepted exactly when it spells magic, level, system and the expected name |
| SourceExact.EntriesExactly | scripts/canonicalize_distributions.py:1116-1187 | A tar has these entries exactly when every member is allowed and becomes one, their aliases differ, and budgets and directories are right |
| SdistVerified.StreamingAgrees | scripts/verify_distribution.py:1671-1707 | The streaming reader accepts the same stored containers, with the same payload, as the whole-buffer reader |
| SdistVerified.VerifierAcceptsCanonical | scripts/verify_distribution.py:1671-1950 | Every canonical source distribution passes both stages of the verifier, which reads the stored entries out of it |
| Struct.UnpackExact | scripts/canonicalize_distributions.py:625-698 | Packing a record and unpacking it are inverse |
| Wheel.CanonicalWheelPayload | scripts/canonicalize_distributions.py:625-698 | The two byte buffers end up as the local and central images of the entries, closed by the end record |
| Wheel.PreflightSourceZipRecords | scripts/canonicalize_distributions.py:349-456 | The directory scan accepts exactly the directories whose records, aliases and budgets are right |
| WheelRecords.ValidateZipLocalRecords | scripts/canonicalize_distributions.py:568-622 | The local scan accepts exactly when local records tile the space before the directory and repeat it |
| WheelRecords.CentralReads | scripts/canonicalize_distributions.py:349-456 | The directory written for safe names and bounded contents is read, record by record, as the entries and where their records start |
| WheelRecords.LocalReads | scripts/canonicalize_distributions.py:568-622 | Written local records tile their space and give back the contents |
| WheelRecords.DirectoryReads | scripts/canonicalize_distributions.py:321-346 | The end record is found exactly when member count and size are in bounds and its signature does not recur inside it |
| WheelCanonical.CanonicalizeWheelBytes | scripts/canonicalize_distributions.py:743-792 | The canonicalizer returns the canonical form, and raises exactly when there is none; members keep their bytes, generated text its lines, and RECORD has one row for every other member, in name order |
| WheelCanonical.CanonicalEntriesFixed | scripts/canonicalize_distributions.py:708-740 | Line endings and RECORD of canonical contents are a fixed point |
| WheelCanonical.WheelReadsBack | scripts/canonicalize_distributions.py:743-792 | A written container passes the final checks exactly when counts, sizes, aliases, order and end record are right, and then it reads back as its entries |
| WheelForm.BudgetFits | scripts/canonicalize_distributions.py:625-698 | Within the member budgets no packed field overflows, so the writer does not fail |
| WheelForm.WrittenIsAccepted | scripts/canonicalize_distributions.py:743-792 | What is written from safe, separate, ordered and budgeted entries passes every record check exactly when its end record is clean, and reads back as those entries |
| WheelForm.CanonicalExactly | scripts/canonicalize_distributions.py:743-792 | An accepted wheel has a canonical form exactly when the time is in range, it has at most one RECORD, and the regenerated contents are in budget with a clean end record |
| WheelSignature.EndSignatureRecurs | scripts/canonicalize_distributions.py:321-346 | A wheel within every budget whose local records total 0x06054b50 bytes is written and then not found |
| WheelCanonical.CanonicalWheelIsFixedPoint | scripts/canonicalize_distributions.py:743-792 | What the canonicalizer returns it accepts, and returns unchanged |
| WheelCanonical.CanonicalWheelIsByContents | scripts/canonicalize_distributions.py:743-792 | Accepted wheels with the same normalized contents have the same canonical form |
| WheelExact.DirectoryExactly | scripts/canonicalize_distributions.py:321-346 | The directory is found exactly where an end record says that does not recur |
| WheelExact.CentralExactly | scripts/canonicalize_distributions.py:349-456 | A central record is accepted exactly when it spells a member of allowed name, method, sizes, creator and mode |
| WheelExact.LocalExactly | scripts/canonicalize_distributions.py:568-622 | A local record is accepted exactly when it repeats the central one and its data holds the payload, stored or deflated |
| WheelExact.ContentsExactly | scripts/canonicalize_distributions.py:743-775 | A container is a wheel with these contents exactly when local records tile the space before the directory, central records tile the directory, and the members go together |
| Text.SafeBytes | scripts/release_contract.py:212-237 | The bytes of a safe name are free of the separators of every format |
| Text.SafeNameIsStable | scripts/release_contract.py:212-237 | What a safe name is reduced to is itself safe |
| Unicode.Utf8Exactly | scripts/canonicalize_distributions.py:940-946 | Bytes are text exactly when they encode characters |
| Unicode.SafeNameExactly | scripts/release_contract.py:212-237 | A name is safe exactly when it is portable parts with slashes between them, and is reduced to its path |
| Shards.PartitionTestFiles | scripts/select_test_shard.py:19-57 | It raises exactly on bad counts, duplicates or weights; otherwise shards cover the files, each file went to the first least loaded shard, and no shard is over 4/3-1/(3m) of any other spread, by the sizes or weights given |
| Shards.LoadSumIsTotal | scripts/select_test_shard.py:47-57 | Work is conserved: loads add up to the total weight |
| Shards.ListSchedulingBound | scripts/select_test_shard.py:47-57 | In any order of jobs the heaviest load is within 2-1/m of any other assignment's |
| Shards.LongestFirstBound | scripts/select_test_shard.py:47-57 | Longest first, three times m times the heaviest load is at most 4m-1 times any other assignment's |
| Shards.PartitionBound | scripts/select_test_shard.py:19-57 | The same bound for the partition against any other spread of the same files |
| Shards.PartitionPromises | scripts/select_test_shard.py:19-57 | The greedy partition covers the files, places each on the first least loaded shard, and is near optimal, for the costs the weights stand for |
| Shards.PartitionCovers | scripts/select_test_shard.py:19-57 | Shards are a disjoint cover of the inventory, each in path order |
| Shards.NoEmptyShard | scripts/select_test_shard.py:47-57 | With at least as many files as shards no shard is empty |
| Shards.PartitionOrderFree | scripts/select_test_shard.py:27-57 | Permuting the files leaves the partition unchanged |
| Shards.SizeDetectsDuplicates | scripts/select_test_shard.py:27-34 | The size check on the set of files finds exactly the repeated ones |
| Markdown.MarkdownVisibility | scripts/verify_docs.py:541-576 | The loop's two variables track the scanner, and a line is marked visible exactly when the scanner shows it |
| Markdown.AfterConcat | scripts/verify_docs.py:541-576 | Scanning a text is scanning its parts one after another |
| MarkdownPatterns.FenceExactly | scripts/verify_docs.py:522-526 | A fence run is at most three blanks, three or more backticks or tildes, and the rest |
| MarkdownPatterns.OpeningExactly | scripts/verify_docs.py:529-538 | A fence opens with a run of tildes, or of backticks with none behind it |
| MarkdownPatterns.TitleExactly | scripts/verify_docs.py:622-643 | The title of a heading is the shortest text that leaves a tail of number signs |
| MarkdownPatterns.FindExactly | scripts/verify_docs.py:561-571 | A marker is found exactly when it stands somewhere, and where it first stands |
| MarkdownPatterns.PipeExactly | scripts/verify_docs.py:818-862 | A row starts with at most three blanks and a bar |
| MarkdownPatterns.DashesExactly | scripts/verify_docs.py:818-862 | A delimiter cell is dashes, with or without a colon before and behind them |
| MarkdownPatterns.CellsExactly | scripts/verify_docs.py:818-862 | A row's cells are what stands between bars, without the outer ones and without space |
| MarkdownPatterns.SeparatorExactly | scripts/verify_docs.py:818-862 | A delimiter row is a bar, cells of dashes with bars between them, and a bar or none |
| AcceptanceTable.LevelTwoSections | scripts/verify_docs.py:622-643 | The loop returns the sections of exactly the visible headings with the wanted title |
| AcceptanceTable.StrictTableRows | scripts/verify_docs.py:818-862 | The reader returns the rows of the one table in the one section, or nothing |
| AcceptanceTable.ReaderExact | scripts/verify_docs.py:818-862 | It accepts exactly the texts that hold one unambiguous table with full rows |
| AcceptanceTable.ReaderFinds | scripts/verify_docs.py:818-862 | What it returns are the cells of the lines of that table, located in the whole text |
| TableText.CellsOfRow | scripts/verify_acceptance.py:389-397 | A row written from clean cells reads back as those cells, and is no heading |
| TableText.RowHasNo | scripts/verify_acceptance.py:389-397 | A marker that is in no cell is not in the row |
| VerdictWriter.RecordFile.VerificationTableSpan | scripts/verify_acceptance.py:363-386 | The loop finds the first header in a Verification section, and the rows under it |
| VerdictWriter.RecordFile.FrontMatterBump | scripts/verify_acceptance.py:348-360 | The first line of the field takes the new date when its own is missing or older and keeps a later one, and no other line changes |
| VerdictWriter.RecordFile.RecordVerdict | scripts/verify_acceptance.py:389-409 | The lines become those with the row placed and both dates moved forward, or stay as they are when there is no table; afterwards neither date is before the verdict's |
| VerdictDates.FieldExact | scripts/verify_acceptance.py:353-355 | A line has a value for the field exactly when it is the field, a colon and the value, with space around it |
| VerdictDates.DatesCompare | scripts/verify_acceptance.py:356-358 | A text is a date exactly when it spells a day of the calendar, and dates compare as their days do |
| VerdictAgreement.TableSpliced | scripts/verify_acceptance.py:389-409 | One clean row more, or over another, and the reader still finds the same table |
| VerdictAgreement.PlacedReadsBack | scripts/verify_acceptance.py:389-409 | After placing a clean row the reader returns the old rows with that criterion's replaced or appended |
| VerdictAgreement.WrittenRowExact | scripts/verify_acceptance.py:389-409 | A row of clean cells reads back exactly when none of them opens a comment |
| VerdictRecord.NeutralAgrees | scripts/verify_acceptance.py:389-409 | With neutral front matter the written file reads back, for every body |
| VerdictLaws.AgreementExactly | scripts/verify_acceptance.py:363-409 | Written verdicts read back on every body exactly when the front matter is neutral |
| VerdictWitness.CommentRowIsLost | scripts/verify_acceptance.py:389-409 | A row whose reason opens a comment is written into a good table and not read back |
| VerdictWitness.HeadingFrontMisleads | scripts/verify_acceptance.py:363-386 | With a Verification heading in the front matter there is a body on which writer and reader disagree |
| VerdictWitness.CommentFrontMisleads | scripts/verify_acceptance.py:363-386 | So there is with a comment opened in the front matter |
| VerdictTwice.UpdatedMeans | scripts/verify_acceptance.py:398-406 | With one row a criterion, writing leaves one row a criterion and moves no other row |
| VerdictRepeat.RepeatsExactly | scripts/verify_acceptance.py:348-409 | The second writing of a verdict changes no file, whatever its body, exactly when the front matter with its new dates is neutral or holds the row already |
| VerdictRepeat.UnmarkedRepeats | scripts/verify_acceptance.py:348-409 | Neutral front matter whose date lines hold no comment marker stays neutral under new dates, so the second writing changes nothing |
| VerdictRepeat.WrittenOnlyOnce | scripts/verify_acceptance.py:348-409 | A comment closed by an old date is left open by the new one, and the second writing finds no table |
| VerdictTwice.PlainIsNeutral | scripts/verify_acceptance.py:348-386 | Front matter without comments, fences and level-two headings is neutral, before and after its dates are bumped |
| VerifierAnswer.ReasonIsClean | scripts/verify_acceptance.py:295-297 | Whatever the verifier said, the reason is one clean cell of at most 300 characters |
| VerifierAnswer.ReasonMeans | scripts/verify_acceptance.py:295-297 | The reason is the verifier's words with one blank between them and every bar a slash, as far as 300 characters go |
| VerifierAnswer.JudgedExactly | scripts/verify_acceptance.py:300-310 | Something is recorded exactly when evidence is absent, or the answer's word is in the vocabulary and its reason has a word |
| VerifierAnswer.VerifyCriterion | scripts/verify_acceptance.py:412-472 | An answer outside the vocabulary records nothing; another is written with the digest of its case |
| Criteria.AcceptanceCriteria | scripts/verify_docs.py:1144-1184 | The loop returns the scanned criteria and problems |
| Criteria.EveryMarkerIsACriterion | scripts/verify_docs.py:1144-1184 | Without problems there is one criterion with text for every visible task marker at any indentation |
| Criteria.CriterionExactly | scripts/verify_docs.py:169-169 | A line is a criterion exactly when a bullet, space and a box start it, and its text is what follows |
| Criteria.MarkerExactly | scripts/verify_docs.py:170-170 | A line is a marker exactly when such a line follows its indentation |
| Criteria.TextStays | scripts/verify_docs.py:1159-1159 | Expanding tabs keeps the text up to the first one |
| Criteria.TabBecomesBlanks | scripts/verify_docs.py:1159-1159 | And turns it into the blanks up to the next column of four |
| DoneGate.ValidateBuilderRows | scripts/verify_docs.py:1333-1384 | Rows are grouped by criterion, and exactly their faults are appended |
| DoneGate.ValidateVerificationRows | scripts/verify_docs.py:1430-1479 | One verdict a criterion is kept, and exactly the faults of the rows are appended |
| DoneGate.ValidateAcceptanceRecord | scripts/verify_docs.py:1494-1550 | A record's state and problems are those of its binding, candidate, tables and rows |
| DoneGate.AcceptanceDoneErrors | scripts/verify_docs.py:1553-1580 | Exactly the reasons that block the done flip are returned |
| DoneGateExact.CriterionIndexExact | scripts/verify_docs.py:1327-1330 | A cell names a criterion exactly when it is the criterion's number in decimal |
| DoneGateExact.BuilderRowsExactly | scripts/verify_docs.py:1333-1384 | Builder rows have no fault exactly when each has short cells, a kind, an artifact, a date up to the cutoff and a source found at the candidate, and groups are small and absent rows alone |
| DoneGateExact.VerdictRowsExactly | scripts/verify_docs.py:1387-1479 | Verdict rows have no fault exactly when each judges one criterion and its rows, with a word, a date, a reason, the right digest and a run of its own |
| DoneGateExact.TablesExactly | scripts/verify_docs.py:1522-1533 | The missing tables are reported, and no others |
| DoneGateExact.SchemaExactly | scripts/verify_docs.py:397-420 | The schema reports nothing exactly when status, identifier, candidate and cutoff are as they must be |
| DoneGateExact.RecordExactly | scripts/verify_docs.py:1494-1550 | A record validates exactly when binding, candidate, criteria, tables and rows are as they must be |
| DoneGateExact.DoneExactly | scripts/verify_docs.py:1553-1580 | The done check finds nothing exactly when there is no pending candidate and every criterion has rows and a satisfied verdict |
| DoneGateExact.WrittenRowRead | scripts/verify_acceptance.py:389-397 | The gate reads from a written row the criterion, the run and the digest that were judged |
| DoneGateLaws.ValidateAcceptanceVerification | scripts/verify_docs.py:1583-1633 | The whole gate appends the problems of all records and then of all done issues |
| DoneGateLaws.IdsAscend | scripts/verify_docs.py:1583-1633 | The gate goes through identifiers in code point order, each once |
| DoneGateExact.GateExactly | scripts/verify_docs.py:1583-1633 | With distinct issue identifiers the gate reports nothing exactly when every record fits its one issue and every done issue is recorded as done or belongs to the frozen history |
| DoneGateSound.RecordAccepted | scripts/verify_docs.py:1494-1580 | A record without schema, record or done problems keeps every promise of the gate |
| DoneGateSound.GateSound | scripts/verify_docs.py:1583-1633 | With no error and distinct issue identifiers every done issue has one record: its rows are as they must be, every criterion has 1 to 8 builder rows and one satisfied verdict bound to its digest, and runs are not shared |
| DoneGateSound.EditsFailTheGate | scripts/verify_docs.py:1583-1633 | With an injective digest, an edit of candidate, criterion text or evidence that keeps the verdict's digest turns a clean documentation set into one the gate reports |
| DoneGateSound.BoundExactlyWhenText | scripts/verify_docs.py:397-420 | Only the right digest is accepted exactly when the candidate is a text |
| DoneGateWitness.WrongDigestPasses | scripts/verify_docs.py:397-420 | A done issue and a record with a number of forty digits as candidate and a wrong digest pass schema and gate |
| Graphs.TopologicalIsAcyclic | scripts/verify_docs.py:1979-1999 | A graph whose nodes are finished in dependency order has no cycle |
| RosterGraph.RequirementSearch.Visit | scripts/build_bundled_roster.py:1619-1631 | The search ends; without a fault the agent and all it requires are visited in order, and a fault names an agent on a cycle |
| RosterGraph.ValidateRelationships | scripts/build_bundled_roster.py:1605-1634 | Accepts exactly rosters with known references to others, symmetric conflicts, approved requirements and no requirement cycle |
| RosterGraph.BySlugKeepsLast | scripts/build_bundled_roster.py:1606-1606 | Of the entries with one slug the last one counts |
| RosterGraph.SupersedesSearch.Visit | scripts/verify_docs.py:1982-1996 | The search ends and goes on after a cycle; it notes only decisions on one, and misses none |
| RosterGraph.SupersedingCycles | scripts/verify_docs.py:1979-1999 | A cycle error is reported exactly when superseding has a cycle |
| Publication.PublishStaged | scripts/build_bundled_roster.py:1964-1995 | Every state on the way keeps a whole generation, and the ending says which one is at the output |
| Publication.WriteBundle | scripts/build_bundled_roster.py:2013-2032 | Whatever calls fail, no state loses the previous generation before the new one is in place; rolled back means the previous one, normal return the new one |
| Publication.Disk.RemoveTree | scripts/build_bundled_roster.py:1931-1961 | Removal touches nothing but its directory, at every step |
| BlobBatch.ParseBlobBatch | scripts/build_distributions.py:312-350 | The cursor parser returns payloads exactly when the output is their frames and nothing else |
| BlobBatch.ParsedExactly | scripts/build_distributions.py:312-350 | Accepted exactly the concatenated frames of payloads with matching sizes and digests |
| BlobBatch.BudgetSuffices | scripts/build_distributions.py:302-309 | The requested limit is never smaller than a genuine answer |
| BlobBatch.ReleaseEntryFits | scripts/build_distributions.py:302-323 | The header of every collected entry fits the window and the overhead |
| BlobBatch.ObjectIdExactly | scripts/build_distributions.py:81-81 | An object identifier is forty or sixty-four lower-case hexadecimal digits |
| PortableAliases.PortableComponentAliases | scripts/build_distributions.py:230-251 | Accepts exactly the trees without case twins, with one spelling of every part, and with no file where a directory is |
| RuntimeReceipts.Runtime.PrepareCiRuntime | scripts/prepare_ci_runtime.py:222-296 | Under any failure or crash only a directory with an owner receipt, or made by this run and not removed since, is removed, and a contract receipt follows a complete environment this run saw; without faults it succeeds exactly when the directory is repairable |
| RuntimeReceipts.Runtime.Runs | scripts/prepare_ci_runtime.py:222-296 | These hold over all runs, and a directory without a valid owner receipt is never touched |
| RuntimeReceipts.Runtime.RunsThenRepair | scripts/prepare_ci_runtime.py:245-276 | After any runs a faultless run in the same isolation mode succeeds exactly when the directory was not left without its owner receipt |
| RuntimeReceipts.CrashBeforeReceipt | scripts/prepare_ci_runtime.py:245-276 | A run that stops after making the directory leaves it bare, and the next, faultless run is refused |
| PytestTiming.TimingState.CollectionFinish | scripts/pytest_file_timing.py:146-159 | Collection keeps the books balanced while there is no error |
| PytestTiming.TimingState.LogReport | scripts/pytest_file_timing.py:162-194 | So does every phase report |
| PytestTiming.TimingState.ReportPayload | scripts/pytest_file_timing.py:197-232 | The totals of the report are accumulated over the files in path order, and its text is refused over one mebibyte |
| PytestTiming.TimingState.Session | scripts/pytest_file_timing.py:146-246 | After any sequence of hook calls a report without errors counts every collected item and every phase report exactly once, each with its own file |
| PytestTiming.Conserved | scripts/pytest_file_timing.py:197-232 | Balanced books add up to the totals of the report |
| PytestTiming.ErrorsListed | scripts/pytest_file_timing.py:214-224 | The errors of a report are the labels of all its troubles, each once, in order |
| TimingJson.LoadBounded | agency_runtime/core/bounded_json.py:118-173 | A text is loaded exactly when it is JSON within the limits on bytes, depth and values and no object repeats a key |
| TimingJson.DepthExactly | agency_runtime/core/bounded_json.py:52-92 | The depth of a value is the greatest number of arrays and objects around one another |
| TimingJson.UnambiguousExactly | agency_runtime/core/bounded_json.py:118-173 | A value is free of ambiguity exactly when no object inside it repeats a key |
| TimingReports.ReportRead | scripts/run_parallel_change_loop.py:701-781 | The loader reads from a report's fields exactly what the plugin wrote into them |
| TimingReports.ReportExactly | scripts/run_parallel_change_loop.py:701-781 | A value is read as a report exactly when it has the fields of one and no others |
| TimingReports.CanonicalPathExactly | scripts/run_parallel_change_loop.py:662-673 | A path is canonical exactly when it is plain parts with slashes between them, or one dot |
| TimingReports.ReportMeasures | agency_runtime/core/bounded_json.py:52-117 | A report without errors has twelve values for each file and nine more, is within the depth limit, and repeats no key |
| TimingReports.LoadTimingReport | scripts/run_parallel_change_loop.py:686-781 | The loader accepts exactly the bounded JSON reports of its shard that are consistent and in bounds |
| TimingReports.ErrorFreeAccepted | scripts/run_parallel_change_loop.py:686-781 | What the plugin writes after an error-free run is accepted exactly when counts, three-phase totals, number of files and length of the text are in bounds |
| TimingArtifact.Consolidate | scripts/run_parallel_change_loop.py:918-947 | Reports are joined exactly when they are of this run, do not overlap and cover the plan; the result has each planned file once, and totals that are the sums over files and over shards |
| TimingArtifact.SortedInOrder | scripts/run_parallel_change_loop.py:925-925 | The results are taken in the order of their indexes, and in their own order where these are the same |
| TimingArtifact.TimingArtifactPayload | scripts/run_parallel_change_loop.py:905-969 | There is no artifact exactly when a shard failed or is missing; otherwise its text is returned exactly when the reports are coherent and it is within four mebibytes |
| TimingArtifact.ArtifactTreeSays | scripts/run_parallel_change_loop.py:948-960 | The JSON of an artifact has its fields, its files and its shards, in order |
| ContextStatus.SplitInFront | scripts/context_handoff_status.py:38-56 | Text put in front of a block changes only its first line |
| ContextStatus.ReverseLines | scripts/context_handoff_status.py:38-56 | For every block size the lines come out as the non-empty lines of the file, newest first |
| ContextStatus.ReadContextStatus | scripts/context_handoff_status.py:68-112 | The newest line that counts decides, exactly when every later line can be read, and the status is the rest of its window |
| ContextStatus.ReadSpoilt | scripts/context_handoff_status.py:68-112 | A file with a count and a last line that is not UTF-8 fails |

## Left out

- Tar.PreflightTarLayout: the branch without an expected modification time, which checks less, is not modelled.
- VerdictRecord.NeutralAgrees: files are lists of lines; decoding, line splitting and joining are not modelled, and a row is taken to hold no line break, as `ReasonIsClean` shows of the reason.
- DoneGate.ValidateBuilderRows: whether a source exists at the candidate is a parameter, so the forms of sources and their lookup are not modelled; decimal digits are ASCII.
- DoneGateLaws.ValidateAcceptanceVerification: problems are values and not message texts, and the checks of the frozen history file are not modelled.
- Publication.WriteBundle: file contents are written in any order, directories inside a bundle are part of the file name, and link and ownership checks are not modelled.
- RuntimeReceipts.Runtime.PrepareCiRuntime: writing a receipt and removing the directory are single steps, runs are kept apart by the lock, and Node and the interpreter's files are reduced to states.
- PytestTiming.TimingState.LogReport: a duration arrives in nanoseconds, rounded, or not at all; floating point is not modelled.
- TimingReports.LoadTimingReport: the JSON library's reading and writing of text are parameters, and the ownership check of the file is not modelled.
- TimingArtifact.TimingArtifactPayload: the evidence on the partition is a value of the plan; how it is computed is not modelled.
- ContextStatus.ReadContextStatus: judging a line as JSON and rounding the percentage are parameters.
- BlobBatch.ParseBlobBatch: the Git process that answers is not part of this model.
- PortableAliases.PortableComponentAliases: keys are lists of folded components where the script joins them with slashes.
- RosterGraph.SupersedingCycles: the checks that build the graph from decision documents are not modelled.
- Sdist.CanonicalizeSdistBytes: reading members through the archive library is the reading of the layout check, and the compressed container is a parameter; the source filename is given.
- WheelCanonical.CanonicalizeWheelBytes: inflation, the digest row of RECORD and the calendar time are parameters; the second pass over central records compares the library's reading with the same bytes and is the first pass here.
- File handles, identity checks, permissions, locks and atomic writes of single files are operating-system calls.
- Wheel and source metadata checks, secret scanning, the command lines and the thread pool are plumbing around the modelled parts.
- Worklog, roadmap history, bounded values and change classification would only add easy members.
