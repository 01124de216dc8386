# Proofs about Autarky and the kernel beneath it

A Dafny model of the hardest parts of the system, one group of modules for each:

- **The Autarky language.** Syntax (`Ast`, `Ir`), the closure interpreter (`Vm`), the recursive-descent parser as a
  class over a moving cursor (`Lexer`, `Numerals`, `Grammar`, `Parsing`), and the binary payload format (`Abi`).
  Proved: simply typed programs always finish (`Normalisation`), the operators compute what their names say up to 64
  bits (`OperatorLaws`), recursion by name tag is finite unrolling (`Unrolling`), evaluation looks at free variables
  only (`Coincidence`), erasure keeps meaning (`ErasureMeaning`), the parser inverts printing in any style
  (`RoundTrip`) and its errors have a cause (`ParseErrors`), numbers are read from exactly the words that spell them
  (`NumeralLaws`), nothing behind `@` is ever seen (`Quarantine`), and the payload decoder accepts exactly the
  encodings (`Abi`) and says where it stops (`AbiErrors`).
- **The FAT32 writer and the ledger on top of it.** The driver is a class over two 512-byte buffers and a sequence of
  sectors (`FatDriver`, `FatNames`, `FatMount`); each operation is proved equal to a list of sector writes
  (`FatVolume`). `FatFormat` says byte by byte what is on disk, and `NamedFiles` that a file is found under its name in
  any case. A well-formed volume has clusters of any size, files that own disjoint chains of them (`FatChains`),
  and foreign entries: labels, long names, folders, files without clusters (`FatFiles`). On such volumes the writes
  refine operations on sixteen slots (`FatSteps`, `FatRefinement`), stopping after any of them leaves the old slots or
  the new ones, and where a guard fails `FatGuards` says which bytes go wrong, and `FatForeign` what an append to a
  foreign entry writes. `FatFresh` has volumes to start from, and the chain walk over arbitrary memory is proved in
  `FatWalk`. Above that, the 64-slot watcher ring (`LedgerRing`, `Watcher`), the receipt text (`LedgerText`) and the
  contents of LEDGER.LOG: line by line (`LedgerFile`), from what was committed (`LedgerCommits`), when device reads
  fail (`LedgerFaults`), and where it ends (`LedgerLimit`).
- **Virtqueues.** Driver and device as the two parties of a protocol whose steps interleave in any way
  (`Virtqueue`), the two polling drivers as methods between whose memory accesses the device runs
  (`VirtqueueDriver`), and the synchronous block and display requests with their arena (`DmaArena`, `SectorDevice`,
  `BlockRequests`).
- **The mailbox and the shell** (`Mailbox`, `ShellText`, `Shell`, `ShellLaws`), and **the page tables** (`PageWalk`,
  `Mmu`).

Conventions. Machine integers are subset types of `int` with wrap-around written out (`Machine`). Code that changes
state is a class or a method over arrays, proved against a function; theorems are about the functions. What the
environment decides is a parameter: POLL answers, device reads that fail, how long a device takes and whether it
succeeds, keys, the text a service yields. Memory shared with a device is coherent. The nine binary operators are
one constructor with an operator field. Floats are kept as the text they were read from, since no operation looks
inside them. The interpreter's fuel is spent only at closure calls, so running out of it is running for ever when
every amount of fuel runs out; all theorems quantify over fuel. `x & ~m` and `x | m` with a variable `x` that need not
be aligned are written out bit by bit (`Machine.Without`, `Machine.With`); the other descriptor words of the page
tables are built with `+` where the kernel uses `|`, their operands having no bits in common.

Where a claim in the code's comments does not hold, the model follows the code and a lemma says so exactly:

- Appending "safely" to a file is right only while the file ends inside the first sector of its last cluster, which
  with clusters of one sector means that its size is not a positive multiple of 512. Elsewhere the data is written over
  bytes that the file already holds, and the file grows by bytes that were never written
  (`FatGuards.AppendsWithoutRoomOverwrite`, `FatGuards.FullFilesAreReadBackOverwritten`). A write of more than one
  sector stores the first 512 bytes, while the file claims them all and holds whatever the cluster held behind them
  (`FatGuards.OnlyOneSectorIsWritten`). Either is right exactly when its guard holds, or when the bytes in question
  happen to be on the disk already (`FatGuards.WriteGuardIsExact`, `FatGuards.AppendGuardIsExact`).
- Appending to a file without clusters, which is what an empty file is to other systems, writes the text two clusters
  before the data area. That can be the boot sector, or the allocation table, whose entries then are the text
  (`FatForeign.AppendsWithoutClustersGoAstray`, `FatForeign.TextLandsOnTheTable`, `FatFresh.EmptyFilesGoAstray`). The
  file grows, gets no cluster, and is still not found when it is read. An append to any foreign entry is harmless
  exactly when nothing is written or the directory comes out the same (`FatForeign.ForeignAppendsAreExact`).
- A read copies on behind the 512 bytes it has read, into whatever memory lies there; it is right exactly when the file
  is not longer or that memory holds the rest of it (`FatGuards.ReadGuardIsExact`).
- All three together: on every well-formed volume a run is right, step by step, exactly when each step meets its guard
  or is harmless on the bytes it finds (`FatGuards.RunGuardIsExact`). On clusters of one sector no harmless writes are
  left to consider, and the condition is one on the slots and the memory behind the buffer
  (`FatGuards.GuardedRunsAreExactlyTheRightOnes`).
- LEDGER.LOG never gets a second cluster: once the lines are longer than its cluster the file is no longer those lines
  (`LedgerLimit.LongLedgersAreLost`, `LedgerLimit.LedgerHoldsExactlyOneSector`).
- The sync cursor is meant to persist every receipt once. It never repeats one, but once it meets the head of a full
  ring nothing is persisted any more (`LedgerRing.PersistsAPrefix`, `LedgerRing.TheFirstSyncOfAFullRingIsTheLast`).
- The least 32-bit volume has no readable decimal text (`LedgerText.VolumeReadsBack`).
- The arena aligns its blocks when a power of two is asked for (`DmaArena.RoundedUpIsAligned`), and can miss another
  alignment (`DmaArena.OtherAlignmentsAreMissed`).
- The cycle guard stops chains that are merely long as well as cycles (`FatWalk.AbortsExactlyOnLongChains`); it is
  exact only under the size condition of `FatWalk.GuardFiresExactlyOnCycles`.

## Model

| member | source | states |
|---|---|---|
| Vm.FuelIsMonotone | autarky_vm/src/vm.rs:28-153 | An evaluation that has an outcome keeps it with more fuel, POLL count included |
| OperatorLaws.SumsDifferencesAndProducts | autarky_vm/src/vm.rs:41-55 | On operands that evaluate to integers, the left one first, addition, subtraction and multiplication yield the 64-bit integer that differs from the exact result by a multiple of 2^64 |
| OperatorLaws.QuotientsRoundTowardZero | autarky_vm/src/vm.rs:56-60 | Division by 0 is its fault, the least integer by -1 stops the program, and any other quotient leaves less than the divisor, of the sign of the dividend |
| OperatorLaws.RelationsCompareTheIntegers | autarky_vm/src/vm.rs:63-87 | Each relation answers Left of 0 exactly when it holds of the two integers and Right of 0 otherwise |
| OperatorLaws.OtherOperandsFault | autarky_vm/src/vm.rs:41-87 | Operands that are not both integers give the operator's own fault, after both were evaluated |
| OperatorLaws.PollsComeInOrder | autarky_vm/src/vm.rs:32-39 | POLL is the next network answer, one per reading and from left to right, and no binding hides it |
| OperatorLaws.OtherFormsFault | autarky_vm/src/vm.rs:97-150 | Matching what is no either, unpacking what is no pair, applying what is no closure and naming what is not bound are faults of their own |
| Normalisation.WellTypedProgramsFinish | autarky_vm/src/vm.rs:28-153 | Every closed simply typed program without let rec, erased, ends for every POLL stream in a value of its type, "Div by zero" or the minimum/-1 abort, and in no other fault |
| Normalisation.Fundamental | autarky_vm/src/vm.rs:28-153 | The same for open programs in any environment that gives the free names values of their types: the logical relation behind the theorem |
| Normalisation.IntegerProgramsYieldIntegers | autarky_vm/src/vm.rs:28-60 | A program of type Int ends in an integer, a division by zero or the abort |
| Normalisation.LetRecCanDiverge | autarky_vm/src/vm.rs:133-142 | Why let rec is excluded: one recursive program runs out of every amount of fuel |
| Unrolling.RecursionIsFiniteUnrolling | autarky_vm/src/vm.rs:97-108 | With the tagged closure a program reaches an outcome free of closures exactly when it reaches it with some finite chain of plain closures, and then with every chain deep enough, after the same POLLs |
| Unrolling.TaggedToChain | autarky_vm/src/vm.rs:97-142 | For each run there is one depth loss that pays for replacing the tagged closure by any deep enough chain |
| Unrolling.ChainToTagged | autarky_vm/src/vm.rs:97-142 | A run with chains of any depth is a run with the tagged closure |
| Unrolling.TaggingTwiceForgetsTheFirstName | autarky_vm/src/vm.rs:133-142 | Counterexample: a let rec that re-tags an existing closure faults where every deep enough chain returns 7; that every let rec binds a literal lambda is sufficient to rule this out |
| Coincidence.Coincide | autarky_vm/src/vm.rs:32-151 | In environments that agree on the free variables, POLL excluded, evaluation faults alike or yields alike values after the same number of POLLs |
| Coincidence.ClosedProgramsIgnoreTheirEnvironment | autarky_vm/src/vm.rs:32-39 | A closed program with a closure-free outcome has that very outcome in every environment |
| Coincidence.RetaggingRevealsTheEnvironment | autarky_vm/src/vm.rs:133-142 | Counterexample: with a let rec that binds a variable, environments that agree give different integers |
| ErasureMeaning.ErasurePreservesMeaning | autarky_vm/src/ir.rs:30-60 | A semantics given directly on expressions and the interpreter on the erased program have the same fault, erased value, POLL count and need of fuel |
| ErasureMeaning.AnnotationsNeverMatter | autarky_vm/src/ir.rs:44-45 | Two programs that differ only in type annotations and tail flags cannot be told apart |
| Abi.AcceptsExactlyTheEncodings | autarky_vm/src/abi.rs:28-61 | The decoder yields (e, rest) exactly on the encoding of e followed by rest, for all Int/Pair/Left/Right trees |
| Abi.EncodingsArePrefixFree | autarky_vm/src/abi.rs:28-61 | Two encodings with anything behind them are equal only if tree and rest are |
| AbiErrors.WhereDecodingStops | autarky_vm/src/abi.rs:28-61 | A rejected payload is the beginning of an encoding, cut short of its end, and then what the error says: nothing, a number of fewer than eight bytes, or that unknown tag |
| AbiErrors.TextErrors | autarky_vm/src/abi.rs:7-26 | Odd length first, then bad digits, then the decoder's own error, then bytes that are left over |
| AbiErrors.PairsSpell | autarky_vm/src/abi.rs:18-26 | Two characters spell a byte as its two digits in either case, or as a plus sign and one digit |
| Abi.AcceptedHexText | autarky_vm/src/abi.rs:18-26 | Text decodes to given bytes exactly when it is twice as long and every two characters spell their byte |
| Abi.DecodingHexText | autarky_vm/src/abi.rs:18-26 | Decoding inverts printing in hexadecimal |
| Abi.DeserializesExactlyPayloads | autarky_vm/src/abi.rs:7-16 | Deserialising succeeds with e exactly on hexadecimal text of the encoding of e, with nothing trailing |
| Parsing.Parser.SkipWhitespace | autarky_vm/src/parser.rs:22-36 | The cursor moves to exactly what `Skip` leaves of the text ahead; an `@` walls off the rest |
| Parsing.Parser.ReadWord | autarky_vm/src/parser.rs:38-62 | Returns the next word of the text ahead and leaves the cursor behind it |
| Parsing.Parser.IsEof | autarky_vm/src/parser.rs:13-16 | True exactly when no word is left |
| Parsing.Parser.ParseType | autarky_vm/src/parser.rs:64-88 | Result, error and the words left ahead, after an error too, are those of the type grammar |
| Parsing.Parser.Parse | autarky_vm/src/parser.rs:90-169 | Terminates on every text; result, error and the words left ahead, after an error too, are those of the expression grammar |
| Parsing.Parser.ParseMatch | autarky_vm/src/parser.rs:107-125 | Both branches, with the comma between them optional |
| Parsing.Parser.ParseGroup | autarky_vm/src/parser.rs:152-162 | Result, error and remaining words are those of the grammar's rule, by which one expression in parentheses is that expression and two are an application |
| Parsing.ParseProgram | autarky_vm/src/parser.rs:90-169 | Parsing and then asking for the end is `ProgramOf` of the words of the text |
| Lexer.BlanksHideNoWords | autarky_vm/src/parser.rs:22-36 | Skipping blanks changes no word of the text, and nothing is left exactly when there are no words |
| Lexer.BlanksAreWhitespaceOrControl | autarky_vm/src/parser.rs:24-38 | What is skipped is Unicode white space and control characters, and nothing else but the wall |
| Grammar.ExprOf | autarky_vm/src/parser.rs:90-169 | Every successful parse uses up at least one word: the measure behind termination |
| Quarantine.WordsBeforeTheWall | autarky_vm/src/parser.rs:22-62 | The words of s + "@" + t are those of s |
| Quarantine.ParseBothSides | autarky_vm/src/parser.rs:13-62 | Parsing s and parsing s + "@" + t give one result, or one error, and one answer about the end |
| RoundTrip.ExpressionsReadBack | autarky_vm/src/parser.rs:90-169 | Printed in any style, with any number of redundant parentheses around any subexpression and with or without the comma of each match, every printable expression parses to itself and leaves what was behind it |
| RoundTrip.TypesReadBack | autarky_vm/src/parser.rs:64-88 | The same for types |
| RoundTrip.LayoutsReadBack | autarky_vm/src/parser.rs:22-62 | Words laid out with any blanks that keep them apart are read back as those words |
| RoundTrip.PrintedProgramsReadBack | autarky_vm/src/parser.rs:13-169 | The words of a printable program in any such style, with any blanks that keep them apart, then the end or the wall and anything at all, are a whole program that reads back |
| ParseErrors.AnswersAreExplained | autarky_vm/src/parser.rs:64-168 | "EOF" is answered only with no word left, an unknown type only with a word, or the end, that names no type and stands where the parser stopped; a success leaves a rest of the words |
| Numerals.ReadingAShownInt | autarky_vm/src/parser.rs:164 | Every 64-bit integer is read back from its decimal text |
| NumeralLaws.IntegersAreReadExactly | autarky_vm/src/parser.rs:162-167 | A word reads as an integer exactly when it is an optional sign that fits, zeros, and the decimal text of its magnitude, in 64 bits |
| NumeralLaws.FloatsAreReadExactly | autarky_vm/src/parser.rs:162-167 | The words that can be floats are an optional sign and inf, infinity or nan in any case, or digits with an optional point and power, one digit at least in front of the power |
| FatMount.SoundVolumesFit | modules/fs/fat32.c:27-53 | A sound boot sector gives a geometry that fits the device, with no wrap-around in cluster addresses |
| FatMount.Mount | modules/fs/fat32.c:27-53 | Mounting fails exactly on an unreadable or unsigned boot sector and otherwise computes the geometry |
| FatMount.MountedNumbers | modules/fs/fat32.c:42-53 | The table starts behind the reserved sectors, and the limit of the walk is the number of whole clusters the volume's sectors make, or 65536 |
| FatFormat.BootFields | modules/fs/fat32.c:35-50 | The numbers of the boot sector, little-endian at the offsets of the FAT specification |
| FatFormat.EntryFields | modules/fs/fat32.c:218-233 | Name, attributes, both halves of the first cluster and the size of an entry, likewise |
| FatFormat.EnteredFields | modules/fs/fat32.c:282-302 | And of an entry that the driver makes: an archive without times |
| FatFormat.TableFields | modules/fs/fat32.c:252-269 | Table entries have four bytes and 28 bits that count; a new chain ends in FF FF FF 0F |
| FatFormat.FollowedLinks | modules/fs/fat32.c:345-348 | The walk goes on exactly from links of 28 bits between 2 and 0FFFFFF7 |
| FatChains.ClustersAreApart | modules/fs/fat32.c:21-25 | A cluster in the table's reach starts on the device, is clear of the table and shares no sector with any other such cluster or with the root's; when the last of them ends on the device, each does |
| FatChains.WalksEndOnTheLast | modules/fs/fat32.c:345-355 | On a chain inside the table, of any length up to the guard, the walk stands on its last cluster, whatever lies in memory behind the table |
| FatChains.ChainsAreDistinct | modules/fs/fat32.c:345-355 | A chain that ends visits no cluster twice |
| FatNames.FormatFatName | modules/fs/fat32.c:180-199 | Formatting in place computes the 8.3 name |
| FatNames.FormattedNamesAreVisible | modules/fs/fat32.c:180-199 | A formatted name never looks unused, and looks deleted only if the text starts with that byte |
| FatNames.StoredNames | modules/fs/fat32.c:180-199 | Of a text in two parts around its first dot, each byte of the stored name is the byte of its part with small letters made capital, or a blank behind its end |
| FatNames.NamesIgnoreCase | modules/fs/fat32.c:185-194 | Texts that differ in the case of letters alone are one name |
| NamedFiles.FilesAreFoundInAnyCase | modules/fs/fat32.c:201-305 | A guarded write under a new name is read back under every spelling of it |
| FatWalk.WalkToEnd | modules/fs/fat32.c:336-355 | The walk always ends, at the last cluster or by the guard |
| FatWalk.AbortsExactlyOnLongChains | modules/fs/fat32.c:345-355 | It aborts exactly when more than max_valid_clusters links can be followed |
| FatWalk.ReachesTheEnd | modules/fs/fat32.c:345-355 | When it does not abort it stands on a cluster without a link, reached within the limit |
| FatWalk.GuardFiresExactlyOnCycles | modules/fs/fat32.c:50-52 | On links that stay in at most max_valid_clusters + 1 clusters the guard fires exactly when the chain revisits a cluster |
| FatWalk.Pigeonhole | modules/fs/fat32.c:336-355 | A walk longer than the set it stays in visits some cluster twice |
| FatVolume.FirstMatchIsTheAppendSlot | modules/fs/fat32.c:318-324 | The first entry that matches, with none before it, is the slot an append uses |
| FatDriver.Driver.WriteFile | modules/fs/fat32.c:245-305 | The volume becomes the old one after a prefix of the write trace, all of it when no read fails |
| FatDriver.Driver.AppendFile | modules/fs/fat32.c:308-385 | The same for the append trace, whatever table, directory and data share the buffers |
| FatDriver.Driver.ReadFile | modules/fs/fat32.c:201-243 | When no read fails the buffer holds the file's text and a NUL, the memory behind the sector buffer included where the file is longer; when the directory cannot be read, the empty text; when the data cannot, what it held before |
| FatRefinement.WriteRefines | modules/fs/fat32.c:245-305 | A write of at most one sector that has room fills the first free slot with name and data and takes one cluster |
| FatRefinement.AppendRefines | modules/fs/fat32.c:308-385 | An append to a file of any number of clusters that ends in the first sector of its last extends its contents by what fits that sector; without a file of that name it writes a new one; nothing appended to any entry changes nothing |
| FatRefinement.ReadRefines | modules/fs/fat32.c:201-243 | A read of what lies in a file's first sector yields the beginning of the first file of that name, cut to the buffer; what has no clusters is not found |
| FatRefinement.RunsRefine | modules/fs/fat32.c:201-385 | Any guarded run of writes, appends and reads keeps the volume well formed and agrees with the run on sixteen slots, foreign entries and all texts read included |
| FatRefinement.OnlyVisibleNamesAppear | modules/fs/fat32.c:282-291 | A written file shows up exactly when its name does not start with the deleted mark |
| FatRefinement.OtherFilesAreUnchanged | modules/fs/fat32.c:245-385 | On disk, no guarded operation changes a slot other than the one it fills or extends: other files, folders and labels keep entry, chain and contents |
| FatRefinement.CrashesAreAtomic | modules/fs/fat32.c:245-385 | After any prefix of an operation's sector writes the volume is well formed, its slots are those before or those after, and at most one cluster more is allocated to no entry |
| FatGuards.OnlyOneSectorIsWritten | modules/fs/fat32.c:271-302 | A write of more than 512 bytes that has room leaves a file of the size asked for that holds the first 512 and then what its cluster held before; the volume stays well formed exactly when one cluster covers the size |
| FatGuards.WriteGuardIsExact | modules/fs/fat32.c:271-302 | A write does to the volume what it means exactly when it has no room, its data fits one sector, or the free cluster already holds the rest of the data |
| FatGuards.AppendsWithoutRoomOverwrite | modules/fs/fat32.c:362-383 | An append to a file that ends elsewhere writes over bytes inside the file and lengthens it by unwritten ones; the volume stays well formed exactly when its clusters cover the new size |
| FatGuards.AppendGuardIsExact | modules/fs/fat32.c:308-385 | For any name, an append does to the volume what it means exactly when there is room or nothing to append; or both the bytes written over and the bytes added are the data already; or the entry is foreign and is left alone |
| FatGuards.ReadGuardIsExact | modules/fs/fat32.c:201-243 | A read returns what it means exactly when what is copied lies in the first sector of a file, when the memory behind the buffer holds the rest of it, or when the answer for a missing file is what stands in a folder's or label's sector |
| FatGuards.FullFilesAreReadBackOverwritten | modules/fs/fat32.c:362-383 | After a non-empty append to a file of 512 bytes, a read returns the data over the beginning of the old bytes |
| FatGuards.StepGuardIsExact | modules/fs/fat32.c:201-385 | The exact conditions of writes, appends and reads, for any operation on any name |
| FatGuards.RunGuardIsExact | modules/fs/fat32.c:201-385 | On any well-formed volume every step of any run leaves and reads what it means exactly when each meets its guard or is harmless on the volume it finds |
| FatGuards.GuardedRunsAreExactlyTheRightOnes | modules/fs/fat32.c:201-385 | On clusters of one sector, for names that no foreign entry carries, that holds exactly when every step meets its guard, computed on the slots alone but for the memory that long reads run into |
| FatForeign.ForeignAppendsAreExact | modules/fs/fat32.c:336-383 | An append of some data to a folder, a label or a file without clusters keeps form and slots exactly when the walk gives up, its end is off the device, or it ends on the directory, which comes out the same |
| FatForeign.AppendsWithoutClustersGoAstray | modules/fs/fat32.c:332-383 | To an entry without clusters, when table entry 0 does not link on and the sector of cluster 0 is on the device: the data goes into that sector, every other sector but the directory keeps its content, the entry's size grows alone, and a read still answers that there is no such file |
| FatForeign.ClusterZeroIsBeforeTheData | modules/fs/fat32.c:21-25 | Cluster 0 is two clusters before the data area, on the device whenever there is that much in front of it |
| FatForeign.TextLandsOnTheTable | modules/fs/fat32.c:362-376 | When the allocation table is there, its entries become the words of the text |
| FatFresh.FreshVolumesAreWellFormed | modules/fs/fat32.c:42-53 | A freshly formatted volume is well formed, empty, and has a free cluster |
| FatFresh.FullFilesExist | modules/fs/fat32.c:362-383 | On it, any file of 512 bytes can be written, and any append to that file is read back over its beginning |
| FatFresh.ChainedVolumesAreWellFormed | modules/fs/fat32.c:345-355 | So is a volume whose file has a chain of two clusters, at every size that needs both |
| FatFresh.EmptyFilesAreWellFormed | modules/fs/fat32.c:42-53 | So is a volume with an empty file, which is a foreign entry |
| FatFresh.EmptyFilesGoAstray | modules/fs/fat32.c:308-385 | Any append to it lands on the boot sector when the data area starts at sector 2, and on the allocation table when it starts at 3 |
| LedgerRing.PersistsAPrefix | kernel/watcher.c:36-185 | On every run the persisted events are the receipts among a prefix of all that was logged, each once and in order; the prefix ends at the last sync exactly while the cursor has not met a full ring's head |
| LedgerRing.LappedIsAbsorbing | kernel/watcher.c:155-158 | Once the cursor stands on the head of a full ring it stays there and nothing is persisted any more |
| LedgerRing.TheFirstSyncOfAFullRingIsTheLast | kernel/watcher.c:152-185 | After a sync with 64 or more events logged, no later sync persists anything |
| LedgerRing.PendingIsUnsynced | kernel/watcher.c:160-177 | Going round the ring from the cursor meets exactly the receipts logged since |
| LedgerText.HexString | kernel/watcher.c:95-102 | Sixteen upper-case digits and a NUL |
| LedgerText.DecimalString | kernel/watcher.c:104-119 | The decimal text, reversed in place, and a NUL |
| LedgerText.VolumeReadsBack | kernel/watcher.c:104-119 | A volume can be read back from its text exactly when it is not the least 32-bit number |
| LedgerText.ReceiptsReadBack | kernel/watcher.c:122-144 | A receipt is at most 41 bytes, and hash and volume can be read back from it exactly when the volume is not the least 32-bit number |
| LedgerText.ReceiptsHaveNoNul | kernel/watcher.c:130-142 | No NUL inside a receipt, so the text found in its slot later is the whole of it |
| Watcher.Recorder.LogEvent | kernel/watcher.c:36-70 | The whole ring after logging, with the context cut at 63 bytes |
| Watcher.Recorder.CommitLedger | kernel/watcher.c:122-149 | A receipt is logged whole |
| Watcher.Recorder.SyncToDisk | kernel/watcher.c:152-185 | The pending receipts, and only those, are appended to the ledger file one by one, each as far as its device reads allow and wholly when none fails, and the cursor moves to the head |
| Watcher.BuildReceipt | kernel/watcher.c:122-142 | The parts copied into the buffer make the receipt |
| LedgerFile.LedgerHoldsWhatWasPersisted | kernel/watcher.c:152-185 | From a volume with a ledger, or with room for one, after every run whose persisted lines fit one sector behind what it held, LEDGER.LOG is that and those lines, and the volume is well formed |
| LedgerFile.FreshVolumesAwaitTheLedger | modules/fs/fat32.c:326-330 | A freshly formatted volume has no ledger and room for one, so the theorem above applies to it |
| LedgerFile.LinesAreAppended | modules/fs/fat32.c:308-385 | Persisting events extends the ledger by exactly their lines while they fit |
| LedgerFile.LedgerIsCreated | modules/fs/fat32.c:326-330 | The first line creates the file and the rest extend it |
| LedgerCommits.CommitsReachTheLedger | kernel/watcher.c:122-185 | On runs of commits, other events and syncs in which no sync has come upon a full ring yet, the ledger after a sync is what it held and the receipt and a newline for exactly the commits with a timestamp, in order; other events leave nothing in it |
| LedgerCommits.FewEventsKeepUp | kernel/watcher.c:36-70 | Fewer than 64 events in all meet that condition |
| LedgerCommits.NamesAndRoom | kernel/watcher.c:36-70 | The file is LEDGER.LOG, and a context is kept up to 63 characters |
| LedgerFaults.FaultsLoseOnlyWholePieces | kernel/watcher.c:152-185 | After any run, whichever device reads fail in it, whose lines fit that sector: the volume is well formed and LEDGER.LOG is what it held and a subsequence of contexts and newlines, none cut, repeated or out of order |
| LedgerFaults.InterruptedAppends | modules/fs/fat32.c:308-385 | The same for any run of appends to one file, each of which may stop after any of its sector writes |
| LedgerLimit.LedgersStayConfined | modules/fs/fat32.c:332-383 | After any run that has persisted something, however much, and on a volume that may no longer be well formed, the ledger has at most one cluster, and an append to it ends on neither table nor directory |
| LedgerLimit.LongLedgersAreLost | modules/fs/fat32.c:358-383 | Whenever what should be in it is longer than its cluster, LEDGER.LOG is something else |
| LedgerLimit.LedgerHoldsExactlyOneSector | modules/fs/fat32.c:358-383 | On clusters of one sector, after any run that has persisted something, LEDGER.LOG is what it held and one line per persisted event exactly when all of that fits 512 bytes |
| Virtqueue.RunsAreSafe | kernel/virtio_net.c:149-217 | The invariant on rings, indices and descriptors holds after every interleaving of driver and device steps, across index wrap-around |
| Virtqueue.EachDescriptorIsInOnePlace | kernel/virtio_net.c:168-217 | Each descriptor is available, with the device, being reported, used but unread, or in the poll, in exactly one of these and once |
| Virtqueue.CompletionsAreConsumedInOrder | kernel/virtio_net.c:173-180 | What was consumed is a prefix of what was completed, and an idle driver can read exactly when something is unread and then gets the next one |
| Virtqueue.NoUnreadSlotIsOverwritten | kernel/virtio_net.c:205-209 | No slot that is written holds an entry the other party still has to read |
| Virtqueue.IndicesStayAQueueApart | kernel/virtio_net.c:155-208 | Between polls the available index and last_used_idx differ by the queue size modulo 65536 |
| Virtqueue.StartIsSafe | kernel/virtio.c:264-277 | Set-up offers every descriptor once and meets the invariant |
| Virtqueue.SlotIsRemainder | kernel/virtio_net.c:177 | The slot of an index is its remainder by the queue size |
| Virtqueue.WrappedSlot | kernel/virtio_net.c:203-208 | Wrap-around of a 16-bit index does not move its slot, for queue sizes that are powers of two |
| VirtqueueDriver.Queue.constructor | kernel/virtio_net.c:149-156 | The set-up loop leaves the queue in the protocol's start state |
| VirtqueueDriver.Queue.PollRx | kernel/virtio_net.c:168-217 | While the device moves in each of the six breaks between the driver's accesses, a poll consumes the oldest unread completion, offers its descriptor again and is idle, or there was none when it looked |
| VirtqueueDriver.Queue.PollInput | kernel/virtio.c:299-333 | The same for the input driver, which counts the completion after offering the descriptor |
| VirtqueueDriver.Queue.DeviceRuns | kernel/virtio_net.c:168-217 | The device makes the next moves of an arbitrary script, each as a step of the protocol whenever it is enabled, and nothing else |
| VirtqueueDriver.OnlyDescriptorsAreOffered | kernel/virtio_net.c:180-205 | Only descriptor numbers below the queue size ever pass through the queue, so the buffer index is in range |
| Machine.WithoutLowBits | kernel/virtio.c:60 | Masking with ~(n - 1), bit by bit, takes off the remainder by n when n is a power of two |
| Machine.WithIsPlus | kernel/mmu.c:119-124 | Setting the low bits of a multiple of a larger power of two, bit by bit, adds them |
| DmaArena.RoundedUpIsAligned | kernel/virtio.c:57-61 | The masked address is not below the heap pointer and less than the alignment above it, and for powers of two it is aligned |
| DmaArena.OtherAlignmentsAreMissed | kernel/virtio.c:57-61 | Counterexample: for 12, not a power of two, the masked address is not aligned |
| DmaArena.BlocksAreDisjoint | kernel/virtio.c:57-67 | The blocks of any series of allocations are disjoint, aligned where a power of two was asked for, in order and between the old and the new heap pointer |
| DmaArena.UsedRingIsPageAligned | kernel/virtio.c:194-204 | The three parts of a queue do not overlap and the used ring starts a page of its own |
| SectorDevice.TakenAreDistinct | kernel/virtio.c:373-375 | Descriptors taken in a row are different for every value of the shared 16-bit counter |
| SectorDevice.TripleIsAChain | kernel/virtio.c:373-390 | The three descriptors of a block request form a chain that ends, for every value of the counter |
| SectorDevice.PairIsAChain | kernel/virtio.c:88-99 | The same for the two of a display command |
| SectorDevice.PreparedRequestsAreServed | kernel/virtio.c:366-390 | A device that follows the chain reads the request type, sector and buffers that the driver meant |
| SectorDevice.CommandsAnswerInPlace | kernel/virtio.c:91-99 | A display command changes nothing but its response area |
| SectorDevice.WritingIsRemembered | kernel/virtio.c:419-478 | After a write the device agrees with the history of transfers, a failed write making its sector unknown |
| BlockRequests.SyncQueue.Offer | kernel/virtio.c:392-398 | From a quiet queue exactly this chain is with the device |
| BlockRequests.SyncQueue.Collect | kernel/virtio.c:403-406 | Counting the answer leaves the queue quiet |
| BlockRequests.Virtio.BumpAllocate | kernel/virtio.c:57-67 | The aligned block is cleared, the heap pointer moved behind it, other memory untouched |
| BlockRequests.Virtio.Await | kernel/virtio.c:403-406 | Polling ends with the answer to the chain that was offered, after one service of the device |
| BlockRequests.Virtio.Request | kernel/virtio.c:360-417 | One request has the device's effect for that sector and buffer, changes only its scratch memory and the buffer of a read, and puts the arena back with no chain outstanding |
| BlockRequests.Virtio.ReadSector | kernel/virtio.c:360-417 | A successful read returns the last successful write to the sector |
| BlockRequests.Virtio.WriteSector | kernel/virtio.c:419-478 | A successful write is remembered; other sectors and memory outside the scratch area keep their contents |
| BlockRequests.Virtio.SendGpuCommand | kernel/virtio.c:87-121 | The device has read exactly the request area, once, its answer is in the response area and nothing else has changed |
| BlockRequests.Virtio.Command | kernel/virtio.c:351-357 | What the display reads is the payload that was written into the arena |
| BlockRequests.Virtio.GpuFlush | kernel/virtio.c:335-358 | The display has read the transfer and then the flush, each answered, four descriptors are used, and the arena is put back; without a display or framebuffer nothing happens |
| Mailbox.FullMeansCapacity | kernel/syscall.c:16-22 | The send guard finds the ring full exactly when 255 messages wait |
| Mailbox.StoringAppends | kernel/syscall.c:19-20 | Storing at the tail appends to the messages that wait |
| Mailbox.MailRing.Send | kernel/syscall.c:16-22 | The ring behaves as a queue of at most 255 messages that drops what does not fit |
| Mailbox.MailRing.Receive | kernel/syscall.c:227-236 | The oldest message, or one of no kind when none waits |
| ShellText.WritesReadBack | modules/shell_gui/main.c:381-396 | What the shell packs into a write request the kernel unpacks to the same name and data, cut at what a message holds |
| ShellText.TradesReadBack | modules/shell_gui/main.c:531-545 | The same for captured trades, with their newline |
| ShellText.TypedWritesReachTheFiles | modules/shell_gui/main.c:328-396 | From the typed line to the file system call: a write command writes the named file with the typed data |
| ShellText.TypedNamesReachTheKernel | modules/shell_gui/main.c:358-367 | A typed read or run asks for the file it names |
| ShellText.ShortCommands | modules/shell_gui/main.c:328-480 | Which lines of two words list, dump, sync or listen; every other asks for nothing |
| ShellText.LinesWithoutADot | modules/shell_gui/main.c:328-331 | A line without a dot asks for nothing |
| ShellText.ResponsesAnswer | kernel/syscall.c:96-108 | Every response is of the next kind, to the sender, with text and NUL inside the payload |
| Shell.AnswersNeedASlot | kernel/syscall.c:16-22 | Behind waiting keys an answer is delivered exactly when a slot is free |
| Shell.Kernel.DrainHardware | kernel/syscall.c:41-68 | Keyboard and then serial characters are queued as key presses, carriage returns as newlines |
| Shell.Kernel.IpcSend | kernel/syscall.c:84-226 | A known request to the kernel is carried out and answered once; anything else is passed on or ignored |
| Shell.BuildResponse | kernel/syscall.c:101-107 | The copying loop builds the response |
| Shell.Terminal.Await | modules/shell_gui/main.c:348-356 | The wait loop ends with the answer after as many receives as messages waited, the keys before it thrown away; where each request sent has its answer taken or waiting, each then has it taken |
| Shell.Terminal.SendAndAwait | modules/shell_gui/main.c:341-357 | A request, on record from when it is sent, gets the answer to that very request within 255 receives, and the mailbox is left empty |
| Shell.Terminal.RunLine | modules/shell_gui/main.c:328-590 | A line asks what the command says and nothing else, all of it answered, and writes what it names; what was typed meanwhile is lost and what has come in since is fetched |
| Shell.Terminal.ListenForTrades | modules/shell_gui/main.c:478-563 | Each captured line that opens with a brace is written and its answer awaited before the next |
| Shell.Terminal.Turn | modules/shell_gui/main.c:314-601 | One turn takes the first key that waits after a drain, edits the command text by it or runs the finished line, and leaves the other keys |
| Shell.Terminal.Run | modules/shell_gui/main.c:314-601 | After any number of turns every request ever sent has had its answer taken, in order: none was dropped in the mailbox or thrown away with the keys |
| ShellLaws.TradesAreWritten | modules/shell_gui/main.c:509-545 | A captured line that opens with a brace goes to TRADES.LOG, cut at 242 characters, with a newline; any other goes nowhere |
| ShellLaws.CharactersAreAdded | modules/shell_gui/main.c:590-597 | Ordinary characters are added to the command text until it has 255 |
| ShellLaws.TypingIsUndone | modules/shell_gui/main.c:590-597 | As many backspaces as characters were typed leave the line as it was, whatever is typed then |
| ShellLaws.LineEnds | modules/shell_gui/main.c:323 | Newline and carriage return end a line, from the serial line too |
| ShellLaws.TheFirstArrive | kernel/syscall.c:16-22 | Messages sent one after the other arrive in order behind what waits, and only as far as 255 |
| ShellLaws.DrainedKeys | kernel/syscall.c:41-68 | A drain with room adds a key press of one character, from the kernel, for each key of the keyboard and then, from the serial line, for each of its characters |
| PageWalk.LeavesMap | kernel/mmu.c:47-48 | A leaf descriptor built by the kernel maps the address, memory type and access that its parts say |
| PageWalk.TablesPoint | kernel/mmu.c:42-43 | A table descriptor leads to its table |
| PageWalk.MemoryTypes | kernel/mmu.c:84 | The attribute register makes registers device memory and the rest cached memory |
| Mmu.WalkIsTheIntendedMap | kernel/mmu.c:30-126 | For every 39-bit address the three-level walk of the tables is the intended map: identity on kernel memory, devices and DMA heap, framebuffer pages to their memory, a fault elsewhere |
| Mmu.TheMapInNumbers | kernel/mmu.c:28-80 | The ranges of the intended map in numbers |
| Mmu.El0ReachesOnlyItsOwn | kernel/mmu.c:51-64 | Unprivileged access is allowed exactly on the two-megabyte-rounded EL0 region in mapped kernel memory and on framebuffer pages |
| Mmu.RegionByBlocks | kernel/mmu.c:57-60 | The loop's block range is exactly the rounded region |
| Mmu.SmallFramebuffersAreMappedWhole | kernel/mmu.c:107-126 | A framebuffer of at most four megabytes is mapped to its last byte |
| Mmu.PageTables.InitTables | kernel/mmu.c:30-81 | The loops leave exactly the described tables |
| Mmu.PageTables.MapFramebuffer | kernel/mmu.c:107-126 | The page loop stores the framebuffer's pages, up to 1024, with the attribute bits set bit by bit at any address, and nothing for a null one |

## Left out

- Unrolling.RecursionIsFiniteUnrolling: asks that every nested let rec binds a literal lambda; without that the
  statement is false, as `Unrolling.TaggingTwiceForgetsTheFirstName` shows, and no exact condition is given.
- Coincidence.Coincide: asks the same of let rec, for the reason in `Coincidence.RetaggingRevealsTheEnvironment`.
- Parsing.Parser.Parse: the cursor counts characters instead of UTF-8 bytes.
- RoundTrip.PrintedProgramsReadBack: binders are words of letters that no separator breaks; function types are not
  printable, the parser having no syntax for them. A float stays the word it was read from.
- Normalisation.WellTypedProgramsFinish: the repository has no type checker, so the typing rules are the model's own.
- Abi.AcceptedHexText: hexadecimal text is bytes; text beyond ASCII, on which the slicing would stop the program, is
  not modelled.
- FatRefinement.RunsRefine: of the directory the sixteen entries of its first sector, of the table the 128 of its first
  are what the code looks at; entries that own clusters beyond those, a root directory of several sectors and the second
  copy of the table, which the code does not update, are outside it.
- FatGuards.GuardedRunsAreExactlyTheRightOnes: on larger clusters, and for names of foreign entries, the condition is
  that of `FatGuards.RunGuardIsExact`, which looks at bytes on the disk.
- FatDriver.Driver.WriteFile: sector writes succeed; the code ignores their results, and only reads may fail.
- FatDriver.Driver.ReadFile: destinations are at least the 17 bytes of the answer for a missing file, and the memory
  behind the sector buffer stays as it is through a run.
- FatMount.GeometryOf: a cluster size of zero divides by zero; the model takes the target's result, 0.
- LedgerLimit.LedgerHoldsExactlyOneSector: on larger clusters lines between 512 bytes and the cluster size are not
  decided, as they depend on what the cluster held before; a ledger that already has several clusters is outside it.
- LedgerFaults.FaultsLoseOnlyWholePieces: stated while the lines fit one sector, as the crash theorem behind it asks for
  the guard.
- Watcher.Recorder.LogEvent: the context is the text before its NUL, and a missing context is the empty text.
- LedgerText.DecimalString: negating the least 32-bit number is taken to wrap around.
- Virtqueue.RunsAreSafe: buffer contents, lengths and notifications are not part of the protocol state; neither is a
  device that breaks the specification.
- VirtqueueDriver.Queue.PollRx: returns the descriptor instead of the number found in the packet; a POLL answer is any
  integer in the language model.
- VirtqueueDriver.Queue.PollInput: returns the descriptor instead of the character.
- BlockRequests.Virtio.BumpAllocate: addresses are unbounded, so running past 64 bits is not modelled, nor is the end
  of the arena, which the code does not check either.
- BlockRequests.Virtio.ReadSector: device outcomes are success or failure with arbitrary data left behind; the caller's
  buffer must not lie in the free part of the arena.
- Shell.Kernel.IpcSend: carrying out a request is its write to the file system and an arbitrary text; the events that
  requests log, and the services themselves, are not joined to their own models.
- Shell.Terminal.RunLine: what is drawn on the screen, the help text and the service texts are not modelled; replies
  are arbitrary texts.
- Shell.Terminal.ListenForTrades: the serial lines are given as a list; assembling them with its time-out counter, and
  that the loop never ends, are left out.
- Mmu.PageTables.MapFramebuffer: stated for the first mapping after set-up; system registers, barriers and TLB
  maintenance are left out.
- Cache maintenance, MMIO registers, feature negotiation and assembly.
- Display command contents, framebuffer drawing, fonts, scrolling, key maps, printing on the serial line.
- The packet text scan of the receive poll.
- Listing the root directory and the read self-test of the file system.
- The capability matrix, which nothing consults, and the loader, whose functions are stubs.
- The entry glue in autarky_vm/src/lib.rs, superseded copies of drivers, scripts and linker scripts.
