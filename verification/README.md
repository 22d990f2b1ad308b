# Darshan: models of the log utilities and of the statistics kernel

Darshan records the I/O of an application, reduces it over the ranks of a job and stores it
in a compressed log; utilities read, merge, aggregate and reconstruct such logs. This project
models the algorithms on which the correctness of those logs rests and proves what they
promise.

- `CommonValues`, `Ranking`, `AccessTracking`, `DfsReduction`, `TreeExact`, `PosixCommonValues`,
  `PosixMergeExact`, `PosixRunExact`: the four most common access sizes of a file, kept in place by a macro, merged
  by an MPI reduction and merged again by the log aggregator, with losses that are stated exactly.
- `Codec`, `StoredCodec`, `LogFile`, `LogWriter`, `LogReader`, `RoundTrip`, `FullBuffer`: the log
  container.
  A writer stages compressed bytes through a fixed buffer into ordered regions, a reader infers
  where the regions lie, reloads its buffer and starts over at the end of a region.
  Compression is a streaming codec whose promises are written down in `Codec`; `StoredCodec` is
  a codec that keeps them, so that nothing rests on promises that cannot be kept.
- `NameTable`, `NameRoundTrip`: the table of record names, parsed from chunks cut anywhere.
- `HeaderShift`: module slots inserted when the header of an older log is read.
- `Lookup3`, `Lookup3Answers`: the hash of record names on 32-bit words, and what it is for known keys.
- `StripeWalk`, `ThreadCount`: which Lustre targets an I/O segment touches, and how many threads
  a trace has.
- `Variance`: the variance over the ranks, reduced pairwise or kept up sample by sample.
- `PosixAggregate`, `Merge`: aggregating POSIX records, and merging the logs of single ranks.
- `Accumulator`: metrics derived from a stream of records.
- `JsonString`, `Reconstruct`: rebuilding a log from a stream of record snapshots.
- `CleanPath`, `Timer`: path cleaning, and the timer that does not count overlaps twice.

What the C code does step by step on buffers, records and tables is modelled by methods and
classes that do the same steps, each proved against a function or a predicate; the lemmas are
about those. What a definition is for many of them — an order, a target, a time, a category, a
rotation — is stated once more in plain numbers, in lemmas that do without it: those named
`...InNumbers`, and the known answers of the hash and of the decoder.

Where the code does not meet the property one would expect, the code is kept, the exact condition is
proved, and lemmas show inputs on which the property fails:

- the slots of a run: `AccessTracking.TopFourOfRunIff`, `AccessTracking.LateFavouriteIsMissing`;
- a reduction tree: `TreeExact.TreeIsExactIff`, `DfsReduction.TreeShapeMatters`;
- one merge of the aggregator: `PosixMergeExact.MergeIsExactIff`, `PosixCommonValues.RaisedStaysLast`;
- many merges of it: `PosixRunExact.AggregateTopFourIff`, `PosixCommonValues.RaisedValueIsDropped`;
- a log that is not written, although in order: `RoundTrip.WriteLog`, `FullBuffer.FullJobFails`;
- a region that is not delivered: both in `LogReader.Reader.LoadRegion`;
- a name table that is never read to its end: both in `NameTable.GetNameHash`;
- the targets of an I/O segment: `StripeWalk.CompleteIffFits`, `StripeWalk.LaterComponentIsCutShort`,
  `StripeWalk.MetadataFirstNamesNothing`;
- a summed counter: `PosixAggregate.KeptSumExactIff`, `PosixAggregate.UnavailableFirstIsLost`;
- what a merge of logs conserves: `Merge.MergeConserves`, `Merge.UnavailableIsNotConserved`;
- a file's number of processes: `Accumulator.SharedIffLastIsShared`, `Accumulator.SharedThenSingle`;
- the offsets of a category, which may show the order of the hash: both in `Accumulator.OffsetOrderIff`;
- a decoded name: `JsonString.WholeIffNoNul`, `JsonString.NulCutsOff`;
- the timer: `Timer.EqualsUnionIff`, `Timer.NestedIsTakenBack`, `Timer.EarlyStartIsMissed`.

Integers are unbounded unless a width matters: the 32-bit total of the common-value macro, the
32-bit remainder of the region loader, the 32-bit words of the hash and the 64-bit flag words are
modelled as such. Times are reals, or integer ticks in `Timer`. Files, memory allocation and the
network are left out; a working directory, the byte order of a machine, the address of a key and
the contents of a file are parameters. `dafny verify dfyconfig.toml` checks the whole project.

## Model

| member | source | states |
|---|---|---|
| CommonValues.UpdateCommonValCounters | darshan-runtime/lib/darshan-common.h:89-136 | the macro, loop by loop on the counter array: the eight counters become the updated slots, all others stay, and no index leaves the four slots |
| CommonValues.SumTotal | darshan-runtime/lib/darshan-common.h:91-103 | the count to record in 32 bits: the one given plus, when adding, that of the slot with the same value |
| CommonValues.CopyAhead | darshan-runtime/lib/darshan-common.h:104-117 | exactly the leading slots that outrank the updated value are copied |
| CommonValues.CopyOthers | darshan-runtime/lib/darshan-common.h:123-133 | the remaining slots but the value's old one follow, up to four in all |
| CommonValues.UpdatedAt | darshan-runtime/lib/darshan-common.h:89-136 | by position: slots ahead stay, the new one follows, and the slot given up is the value's old one or the last |
| CommonValues.UpdateKeepsTopFour | darshan-runtime/lib/darshan-common.h:89-136 | recording a first or larger count keeps the slots exactly the four largest non-zero entries of the frequency table, by count and then value, zero-padded |
| CommonValues.TopFourUnique | darshan-runtime/lib/darshan-common.h:78-79 | the top four of a table are unique |
| CommonValues.TopFourInNumbers | darshan-runtime/lib/darshan-common.h:104-117 | the top four spelled out: counts fall, of equal counts the larger value is first, and a value not held has a smaller count than the last slot, or the same and a smaller value |
| CommonValues.Int32KeepsLowBits | darshan-runtime/lib/darshan-common.h:90-98 | a count in 32 bits differs from the count by a multiple of 2^32 |
| AccessTracking.FileRecordRef.TrackCommonVal | darshan-runtime/lib/darshan-common.c:205-249 | a known size is counted, a new one added below the limit of 32, and its frequency returned |
| AccessTracking.FileRecordRef.RecordAccess | darshan-runtime/lib/darshan-dfs.c:259-264 | one access counts its size and updates the slots with its frequency |
| AccessTracking.TableCounts | darshan-runtime/lib/darshan-common.c:205-249 | after any run the table counts each of its sizes over the whole run, and misses a size only once it is full |
| AccessTracking.TableHoldsTheFirst | darshan-runtime/lib/darshan-common.c:225-246 | the table holds exactly the sizes first used before 32 others |
| AccessTracking.RunKeepsTopFour | darshan-runtime/lib/darshan-dfs.c:259-264 | after any sequence of accesses, a full table included, the slots are exactly the top four of the tracked frequencies |
| AccessTracking.RunInNumbers | darshan-runtime/lib/darshan-dfs.c:259-264 | the same for the slots of any run, spelled out in counts and values |
| AccessTracking.TopFourOfRun | darshan-runtime/lib/darshan-dfs.c:259-264 | with at most 32 distinct sizes they are the top four of the run itself, whatever its order |
| AccessTracking.LateSizeIsLost | darshan-runtime/lib/darshan-common.c:225-226 | a size first used after 32 others never enters the table nor reaches the slots, however often it occurs |
| AccessTracking.TopFourOfRunIff | darshan-runtime/lib/darshan-dfs.c:259-264 | for any run the slots are the top four of the run itself if and only if each non-zero size that came too late to be tracked has four others ahead of it |
| AccessTracking.LateFavouriteIsMissing | darshan-runtime/lib/darshan-common.c:225-226 | so they are not when the favourite of a run comes after 32 other sizes |
| DfsReduction.CollapseDuplicates | darshan-runtime/lib/darshan-dfs.c:1067-1079 | in place, each incoming slot collects the other record's count of its value, whose slot is zeroed |
| DfsReduction.ReduceCommonValues | darshan-runtime/lib/darshan-dfs.c:1065-1096 | collapsing and adding both records to a zeroed one leaves the reduced slots |
| DfsReduction.CollapseSums | darshan-runtime/lib/darshan-dfs.c:1067-1079 | after collapsing, every value occurs once, with the sum of its two counts |
| DfsReduction.ReducedIsTopFourOfSum | darshan-runtime/lib/darshan-dfs.c:1065-1096 | the reduced slots are exactly the top four of the pointwise sum of both tables, in either order of the records |
| DfsReduction.ReducedInNumbers | darshan-runtime/lib/darshan-dfs.c:1065-1096 | the same spelled out in counts and values |
| DfsReduction.StartIsEarliest | darshan-runtime/lib/darshan-dfs.c:1100-1108 | in any reduction tree the start time is the earliest non-zero one of all ranks, zero only if there is none |
| DfsReduction.StartInNumbers | darshan-runtime/lib/darshan-dfs.c:1100-1108 | no rank with a positive start time started before the time of the tree, and one of them then |
| DfsReduction.StartIgnoresTree | darshan-runtime/lib/darshan-dfs.c:1100-1108 | trees over the same start times agree |
| DfsReduction.TreeIsSound | darshan-runtime/lib/darshan-dfs.c:1065-1096 | in any tree the slots stay sorted and distinct, and no count exceeds the true total of its value |
| DfsReduction.SmallTreeIsExact | darshan-runtime/lib/darshan-dfs.c:1065-1096 | with at most four distinct values over all ranks every tree gives their exact totals |
| DfsReduction.TreeShapeMatters | darshan-runtime/lib/darshan-dfs.c:1065-1096 | beyond four values the tree decides: a value seen by two ranks, too rarely to reach the slots of a third, survives exactly if those two are combined first |
| TreeExact.ExactIffKept | darshan-runtime/lib/darshan-dfs.c:1065-1096 | in any tree a value is reported in full if and only if no combination below drops it |
| TreeExact.TreeIsExactIff | darshan-runtime/lib/darshan-dfs.c:1065-1096 | a tree over any number of values gives the exact top four of the totals if and only if it never drops one of these four |
| TreeExact.LeadersThroughoutIsExact | darshan-runtime/lib/darshan-dfs.c:1065-1096 | in particular if each of them is among the top four of the totals of every part that saw it, a condition on the records and the shape alone |
| PosixCommonValues.AggregateCommonValues | darshan-util/darshan-posix-logutils.c:662-739 | the block on the counter array: duplicates collapsed and marked, then new values placed, without sorting again |
| PosixCommonValues.AggregateIsSound | darshan-util/darshan-posix-logutils.c:662-739 | over any number of records slot values stay distinct and no count exceeds the true total of its value |
| PosixCommonValues.AggregateIsExact | darshan-util/darshan-posix-logutils.c:662-739 | while at most four distinct non-zero values have appeared every count is exact and no value is missing |
| PosixCommonValues.OrderedMergeIsTopFour | darshan-util/darshan-posix-logutils.c:672-738 | if the collapse leaves the slots in order, the merge is the exact top four of both tables |
| PosixMergeExact.MergeIsExactIff | darshan-util/darshan-posix-logutils.c:672-738 | for any two records the merge is the exact top four of both tables if and only if enough new values outrank all collapsed slots from the first one out of place on, one for each of these slots |
| PosixCommonValues.RaisedStaysLast | darshan-util/darshan-posix-logutils.c:672-684 | so it is not for a record that raises the last slot above the first |
| PosixCommonValues.RaisedValueIsDropped | darshan-util/darshan-posix-logutils.c:708-737 | what that costs later: a value raised in the last slot is pushed out by one further value, however large its count |
| PosixRunExact.FullIffKept | darshan-util/darshan-posix-logutils.c:662-739 | over any number of records and values a value is reported in full if and only if no merge drops it |
| PosixRunExact.AggregateTopFourIff | darshan-util/darshan-posix-logutils.c:662-739 | the slots are the exact top four of all records if and only if they are in order and no merge drops one of the four |
| LogWriter.Writer.constructor | darshan-util/darshan-logutils.c:1420-1524 | a new log has an empty buffer and no regions |
| LogWriter.Writer.DzUnload | darshan-util/darshan-logutils.c:2078-2098 | the staged bytes end up at the end of the file, in their region's map, and the buffer is empty |
| LogWriter.Writer.LibzWrite | darshan-util/darshan-logutils.c:1744-1778 | the bytes join the region's stream; staged and free bytes add up to the buffer throughout, so the assertion at line 1756 holds, and the room left is that of compressing chunk by chunk into renewed buffers |
| LogWriter.Writer.LibzFlush | darshan-util/darshan-logutils.c:1781-1825 | the region's stream is ended and unloaded, and fails exactly if no room was left in the buffer |
| LogWriter.Writer.DzWrite | darshan-util/darshan-logutils.c:1616-1663 | the bytes are appended to their region; -1 exactly if the region precedes the current one, or the current one must be flushed with the buffer full; the compressor and the room left follow |
| LogWriter.Writer.Close | darshan-util/darshan-logutils.c:858-911 | the finished log has its regions contiguous after the header, each encoding what was written to it; none exactly after an earlier failure or with the buffer full |
| LogFile.RegionBytes | darshan-util/darshan-logutils.c:2083-2096 | a region's map points at its bytes |
| LogFile.MapInNumbers | darshan-util/darshan-logutils.c:2083-2096 | the map stored for a region points, behind the 1328 bytes of the header, at exactly its bytes |
| LogFile.MapsAscend | darshan-util/darshan-logutils.c:1624-1630 | of two regions the one with the smaller id ends before the other begins |
| LogReader.JobMapInferred | darshan-util/darshan-logutils.c:1289-1317 | the job map inferred from the first region after it is the writer's |
| LogReader.Reader.InferJobMap | darshan-util/darshan-logutils.c:1289-1317 | the branches on the name map and the module maps yield the writer's job map |
| LogReader.Reader.DzLoad | darshan-util/darshan-logutils.c:2040-2076 | the next bytes of a region of any length are staged, from its beginning if the file is positioned outside: as many as fit, of what is left in 32 bits; the end is flagged once that much is loaded |
| LogReader.Reader.LoadRegion | darshan-util/darshan-logutils.c:1693-1708 | loading chunk after chunk until the end is flagged gives the first bytes of the region, in number its length in 32 bits: the whole of it if and only if the length fits; if that number is zero the assertion at line 1704 stops the program |
| LogReader.Reader.LibzRead | darshan-util/darshan-logutils.c:1666-1725 | the next bytes of the region, as many as asked for or as are left; a short read clears the end flag and starts over |
| LogReader.Reader.DzRead | darshan-util/darshan-logutils.c:1557-1614 | a read yields the region's bytes from where the last one stopped, comes short exactly at its end, and then starts over |
| RoundTrip.WriteLog | darshan-util/darshan-logutils.c:1616-1663 | no log comes out exactly if the writes go back to a lower region or some region ends with the buffer full to the last byte; otherwise each region encodes the bytes written to it |
| FullBuffer.FullJobFails | darshan-util/darshan-logutils.c:1804-1812 | with a compressor that keeps its promises, writes in region order that give no log: a job that fills the buffer to the last byte |
| RoundTrip.ReadLog | darshan-util/darshan-logutils.c:1557-1614 | any run of reads, each region left only after a short read, yields the bytes written |
| RoundTrip.WriteThenRead | darshan-util/darshan-logutils.c:1557-1825 | the whole round trip: whenever a log comes out, and each of its regions is below 4 GiB, what was written comes back, with any sequence of lengths |
| NameTable.GetNameRecs | darshan-util/darshan-logutils.c:996-1072 | the complete records at the front of the buffer enter the table, and their length is returned |
| NameTable.RecLenStable | darshan-util/darshan-logutils.c:1012-1022 | a complete record is not changed by what follows it |
| NameTable.IdInNumbers | darshan-util/darshan-logutils.c:1024-1028 | an id is read from eight bytes, the lowest first, or last if the log is of the other byte order |
| NameTable.RecordInNumbers | darshan-util/darshan-logutils.c:1012-1022 | a record is an id of eight bytes, a name and a zero byte, whatever follows |
| NameTable.IncompleteInNumbers | darshan-util/darshan-logutils.c:1012-1022 | a record is incomplete exactly if no zero byte follows its id |
| NameTable.ParseInChunks | darshan-util/darshan-logutils.c:661-691 | parsing does not depend on where the stream is cut |
| NameTable.AddAllKeeps | darshan-util/darshan-logutils.c:1030-1064 | the table holds exactly the listed ids, each with its first non-empty name |
| NameTable.SerializedParsesBack | darshan-util/darshan-logutils.c:729-744 | a table written on a machine of either byte order parses back, to the last byte |
| NameTable.DistinctIdsRoundTrip | darshan-util/darshan-logutils.c:729-744 | with distinct ids the whole table comes back |
| NameTable.SerializedFits | darshan-util/darshan-logutils.c:656-664 | names short enough for the buffer let the refill loop end |
| NameTable.SerializedFitsIff | darshan-util/darshan-logutils.c:656-691 | a stream of records, and less than one behind them, fits exactly if each name is at least nine bytes shorter than the buffer and the rest does not fill it |
| NameTable.GetNameHash | darshan-util/darshan-logutils.c:629-698 | a log without a name table has no names; otherwise the refill loop ends if and only if each record fits the buffer and what follows the last one does not fill it, and then its table is that of the whole region whatever the chunks, and the closing assertion says that nothing is left over |
| NameRoundTrip.WriteThenReadNames | darshan-util/darshan-logutils.c:629-750 | a table of distinct ids, empty or not, written to a log on a machine of either byte order and read back is the same table, and the closing assertion holds; it comes back whenever a log comes out whose regions are below 4 GiB |
| HeaderShift.FlagsFollow | darshan-util/darshan-logutils.c:1257-1264 | for every flag word and both insertions, flags below the slot stay, the slot's is clear, and each above follows its module |
| HeaderShift.ModuleTable.InsertSlot | darshan-util/darshan-logutils.c:1246-1265 | maps, versions and flags move up together, and the slot is cleared |
| HeaderShift.ModuleTable.UpConvert | darshan-util/darshan-logutils.c:1246-1287 | both shifts composed put every module of an older header where it is today |
| HeaderShift.EveryOldModuleHasOneSlot | darshan-util/darshan-logutils.c:1246-1287 | no module of an older header is lost or doubled |
| HeaderShift.OldIndexInNumbers | darshan-util/darshan-logutils.c:1246-1287 | before minor version 20 of format 3 what is behind slot 6 was two lower, and 5 was 4; before 41 what is behind 6 was one lower; else everything stays |
| Lookup3.MixWords | darshan-util/lookup3.c:113-121 | the eighteen statements of mix are six rounds of one invertible step |
| Lookup3.FinalWords | darshan-util/lookup3.c:148-157 | the statements of final are seven rounds of one invertible step |
| Lookup3.MixUndone | darshan-util/lookup3.c:69-121 | mix is a bijection on triples of words: an explicit inverse undoes all six rounds, in both directions |
| Lookup3.FinalUndone | darshan-util/lookup3.c:148-157 | final is injective too |
| Lookup3.DigestKeepsStatesApart | darshan-util/lookup3.c:297-305 | different states stay different under identical following blocks |
| Lookup3.OneBlockMatters | darshan-util/lookup3.c:281-450 | keys of equal length that differ within one block end in different internal states |
| Lookup3.DigestBytes | darshan-util/lookup3.c:405-446 | reading byte by byte computes the digest of the key |
| Lookup3.DigestHalves | darshan-util/lookup3.c:358-403 | reading two bytes at a time computes the same digest |
| Lookup3.AbsorbTailHalves | darshan-util/lookup3.c:373-403 | each case of the last block adds the bytes it has, as zero-padded words |
| Lookup3.DigestWords | darshan-util/lookup3.c:290-333 | reading four bytes at a time computes the same digest |
| Lookup3.AbsorbTailWords | darshan-util/lookup3.c:316-333 | each masked case takes off exactly what follows the key in its last word |
| Lookup3.DarshanHashLittle | darshan-util/lookup3.c:281-450 | for every key, address and byte order the hash is one function of the key's bytes |
| Lookup3.HashLittle2 | darshan-util/lookup3.c:463-637 | both hashes of one pass; with a zero second seed the first is the plain hash |
| Lookup3.HashWord | darshan-util/lookup3.c:172-205 | the hash of n words is the plain hash of their 4n bytes |
| Lookup3.FourBytesAWord | darshan-util/lookup3.c:180 | the length in words, shifted, wraps as the length in bytes does |
| Lookup3Answers.EmptyKey | darshan-util/lookup3.c:281-335 | the hash of the empty key |
| Lookup3Answers.OneByte | darshan-util/lookup3.c:281-450 | the hash of the key "a" |
| Lookup3Answers.FourScore | darshan-util/lookup3.c:281-450 | the published hashes of a key of thirty bytes, with initial values 0 and 1 |
| Lookup3Answers.FourScoreTwice | darshan-util/lookup3.c:463-637 | and both hashes of one pass over it, with the seeds (0, 0), (1, 0) and (0, 1) |
| StripeWalk.WalkComponent | darshan-util/darshan-dxt-logutils.c:476-497 | the loop over one component names as many targets as it has stripes to go and names left, in cyclic order, and says where it goes on |
| StripeWalk.WalkSegment | darshan-util/darshan-dxt-logutils.c:467-500 | the walk over all components; every index lies below the total of the stripe counts |
| StripeWalk.WalkIsSound | darshan-util/darshan-dxt-logutils.c:467-500 | whatever the layout, each target named keeps a byte of the segment |
| StripeWalk.WalkNamesOnce | darshan-util/darshan-dxt-logutils.c:467-500 | no target is named twice |
| StripeWalk.WithinOneComponent | darshan-util/darshan-dxt-logutils.c:478-497 | for a non-empty segment within one component exactly the targets of its bytes are named, each once, in cyclic order from the first |
| StripeWalk.WithinOneInNumbers | darshan-util/darshan-dxt-logutils.c:478-497 | the i-th target named is the one of the first byte's stripe, i places on and around the stripe count, behind the targets of earlier components; and a target is named if and only if it keeps a byte of the segment, by division and remainder |
| StripeWalk.BaseInNumbers | darshan-util/darshan-dxt-logutils.c:470-500 | the targets of a component come behind those of all components before it |
| StripeWalk.CompleteIffFits | darshan-util/darshan-dxt-logutils.c:467-500 | over several components of a layout without gaps, all targets are named if and only if each component finds room left by the names before it and no component without targets before it holds a byte of the segment |
| StripeWalk.LaterComponentIsCutShort | darshan-util/darshan-dxt-logutils.c:489-495 | a layout and a segment for which a later component is cut short |
| StripeWalk.MetadataFirstNamesNothing | darshan-util/darshan-dxt-logutils.c:474-475 | a segment that begins on a component without targets names nothing at all |
| ThreadCount.CountThreads | darshan-util/darshan-dxt-logutils.c:356-384 | the number of distinct threads of any trace |
| ThreadCount.Squeeze | darshan-util/darshan-dxt-logutils.c:369-374 | the squeezed array holds the distinct ids in order, and their number is returned |
| ThreadCount.SortedIdsAre | darshan-util/darshan-dxt-logutils.c:367 | sorting permutes the ids |
| Variance.VarianceReduce | darshan-runtime/lib/darshan-common.c:252-271 | the operator combines the summaries of all records |
| Variance.ReduceIsExact | darshan-runtime/lib/darshan-common.c:259-266 | on exact summaries of two non-empty samples it gives the exact summary of both together |
| Variance.SampleInNumbers | darshan-runtime/lib/darshan-common.c:252-271 | what one sample adds to the textbook sum and squared deviations |
| Variance.VarianceInNumbers | darshan-util/darshan-hdf5-logutils.c:983-1000 | the variance is the squared deviations from the mean by the number of samples |
| Variance.EveryTreeIsExact | darshan-runtime/lib/darshan-common.c:252-271 | every reduction tree gives the textbook sum and squared deviations of all samples |
| Variance.TreesAgree | darshan-runtime/lib/darshan-common.c:252-271 | neither the shape of the tree nor the order of the ranks matters |
| Variance.OneMoreSample | darshan-util/darshan-hdf5-logutils.c:992-996 | the mean moves by its share of the difference, the squared deviations grow by the product of both differences |
| Variance.RunningVariance.Update | darshan-util/darshan-hdf5-logutils.c:983-1000 | the running mean, squared deviations and variance are the textbook ones of all samples so far |
| Variance.RunningAgreesWithReduction | darshan-util/darshan-hdf5-logutils.c:983-1019 | over the same samples the running form and any reduction tree report the same variance |
| PosixAggregate.Aggregate.AddRecord | darshan-util/darshan-posix-logutils.c:528-638 | one record aggregated in place, for one file or for several |
| PosixAggregate.Aggregate.AddCounters | darshan-util/darshan-posix-logutils.c:593-638 | each counter is summed, a negative sum stored as -1 |
| PosixAggregate.KeptSumExactIff | darshan-util/darshan-posix-logutils.c:634-637 | the kept sum is the true sum if and only if no prefix of it falls below -1 |
| PosixAggregate.UnavailableFirstIsLost | darshan-util/darshan-posix-logutils.c:634-637 | so the order of the records matters: of two unavailable counters, stored as -1, one is lost if they come first, and none behind a valid count |
| PosixAggregate.FileAggregate | darshan-util/darshan-posix-logutils.c:817-869 | for the ranks' records of a file: kept sums, summed times, and the first fastest and first slowest rank |
| PosixAggregate.ExtremesInNumbers | darshan-util/darshan-posix-logutils.c:528-553 | the fastest rank is the first whose read, write and metadata times are together the least, the slowest the first with the greatest, with the bytes that rank read and wrote |
| PosixAggregate.ExtremesOfOne | darshan-util/darshan-posix-logutils.c:528-591 | what one record brings in: a shared one the extremes it holds, any other itself; none once the files differ |
| PosixAggregate.AggregateInNumbers | darshan-util/darshan-posix-logutils.c:593-660 | what one more record adds to each counter and time |
| Merge.SharedRecords.Take | darshan-util/darshan-merge.c:128-170 | the first rank's records start entries, other ranks' records join them |
| Merge.SharedRecords.Build | darshan-util/darshan-merge.c:116-181 | the hash has an entry for each file of the first rank, with the number of its records and their aggregate |
| Merge.SharedRecords.Prune | darshan-util/darshan-merge.c:183-191 | exactly the entries that count all processes stay |
| Merge.SharedByAll | darshan-util/darshan-merge.c:116-191 | with one log per rank the surviving files are exactly those that every rank recorded, each aggregating all ranks' records |
| Merge.SharedExtremes | darshan-util/darshan-merge.c:128-170 | the fastest and the slowest rank of such an entry, in the times of all ranks' records |
| Merge.MergeModule | darshan-util/darshan-merge.c:434-489 | the output is the surviving aggregates followed by all records of other files, in order |
| Merge.OthersCopiedOnce | darshan-util/darshan-merge.c:468-477 | each record of another file is copied as often as it came, records of surviving files not at all |
| Merge.MergeConserves | darshan-util/darshan-merge.c:434-489 | each summed time has the same total in output and input; a summed counter has if and only if, for each file reduced, no sum over its first records falls below -1, and otherwise a larger one |
| Merge.ValidCountsAreConserved | darshan-util/darshan-merge.c:434-489 | in particular if it is valid in all records of the files reduced, whatever the copied ones hold |
| Merge.UnavailableIsNotConserved | darshan-util/darshan-merge.c:434-489 | but not if every rank holds -1 for a shared file, as in a build without the wrapper: their -1s become one |
| Accumulator.State.InjectOne | darshan-util/darshan-logutils-accumulator.c:117-183 | one record updates its file's entry, the totals and its rank's times |
| Accumulator.State.Inject | darshan-util/darshan-logutils-accumulator.c:117-183 | a batch leaves the state of the stream it extends |
| Accumulator.InjectAll | darshan-util/darshan-logutils-accumulator.c:117-183 | any batching of a stream leaves the state of the stream |
| Accumulator.SharedIffLastIsShared | darshan-util/darshan-logutils-accumulator.c:175-178 | a file counts as shared if and only if its last record is a shared one; without shared records it counts its records |
| Accumulator.SharedThenSingle | darshan-util/darshan-logutils-accumulator.c:175-178 | so one record of a single rank behind shared ones makes the file one of no process |
| Accumulator.RecordInNumbers | darshan-util/darshan-logutils-accumulator.c:168-178 | what one more record does to its file's volumes, offset and number of processes |
| Accumulator.TimesInNumbers | darshan-util/darshan-logutils-accumulator.c:138-151 | and to the times of each rank and of the shared files |
| Accumulator.FileInNumbers | darshan-util/darshan-logutils-accumulator.c:231-256 | the categories a file is in, from its own records: by the bytes they read and wrote, and by the number of records behind the last shared one |
| Accumulator.CategoryInNumbers | darshan-util/darshan-logutils-accumulator.c:193-217 | what a category holds of its files; all processes if and only if a file is shared or the files' processes make up the job's |
| Accumulator.CategoryInc | darshan-util/darshan-logutils-accumulator.c:193-217 | the increment keeps a category's count, volumes, maxima, offsets and processes those of its files |
| Accumulator.Categorize | darshan-util/darshan-logutils-accumulator.c:231-256 | a file is counted in all files, by its access and by its sharing, and nowhere else |
| Accumulator.State.Emit | darshan-util/darshan-logutils-accumulator.c:219-294 | the categories, totals and slowest times of the whole stream |
| Accumulator.State.Slowest | darshan-util/darshan-logutils-accumulator.c:265-277 | the greatest of the per-rank sums, with the first rank that has it and that rank's parts |
| Accumulator.CategoriesConserve | darshan-util/darshan-logutils-accumulator.c:231-266 | unique, shared and partly shared make up all files in number and both volumes, reads and writes make up the total, and without negative counts read-only and read-write files did all reading |
| Accumulator.HashOrderDoesNotMatter | darshan-util/darshan-logutils-accumulator.c:231-256 | no category depends on the order of the hash, its number of processes included, but for its offsets |
| Accumulator.OffsetOrderIff | darshan-util/darshan-logutils-accumulator.c:203-211 | its offsets do not, either, if and only if all of its files have one or none has |
| Accumulator.OffsetsAreExact | darshan-util/darshan-logutils-accumulator.c:203-211 | if all have one, they are the sum and the greatest of them |
| JsonString.PutUtf8 | darshan-util/darshan-mofka-reconstruct.c:144-163 | the bytes written for a code point |
| JsonString.UnicodeEscape | darshan-util/darshan-mofka-reconstruct.c:110-170 | an escape with four digits, a surrogate pair or neither, and how far it reaches |
| JsonString.GetString | darshan-util/darshan-mofka-reconstruct.c:72-184 | the decoded bytes up to the closing quote; the buffer of one byte more than the input always suffices |
| JsonString.TokenShrinks | darshan-util/darshan-mofka-reconstruct.c:112-117 | no step writes more than it has read |
| JsonString.Utf8IsWellFormed | darshan-util/darshan-mofka-reconstruct.c:144-163 | the bytes of a scalar value are well formed by section 4 of RFC 3629 and stand for it |
| JsonString.Utf8IsUnique | darshan-util/darshan-mofka-reconstruct.c:144-163 | no other well-formed bytes do |
| JsonString.EscapedStringDecodes | darshan-util/darshan-mofka-reconstruct.c:72-184 | every string of scalar values, escaped in any way section 7 of RFC 8259 permits in ASCII, decodes to its UTF-8 encoding |
| JsonString.KnownUtf8 | darshan-util/darshan-mofka-reconstruct.c:144-163 | the examples of section 7 of RFC 3629 |
| JsonString.KnownEscapes | darshan-util/darshan-mofka-reconstruct.c:92-109 | the escapes of section 7 of RFC 8259 |
| JsonString.KnownPair | darshan-util/darshan-mofka-reconstruct.c:110-170 | and its example of a surrogate pair |
| JsonString.WholeIffNoNul | darshan-util/darshan-mofka-reconstruct.c:181-183 | a C caller sees the whole of it if and only if the string holds no U+0000 |
| JsonString.NulCutsOff | darshan-util/darshan-mofka-reconstruct.c:181-183 | otherwise the caller sees exactly what comes before the first U+0000 |
| JsonString.EncodingsDiffer | darshan-util/darshan-mofka-reconstruct.c:144-163 | different strings have different encodings |
| JsonString.DecodeHex | darshan-util/darshan-mofka-reconstruct.c:266-295 | a record decodes exactly if its digits are even in number, all hexadecimal and of the expected size |
| JsonString.HexRoundTrip | darshan-util/darshan-mofka-reconstruct.c:266-295 | a record written in digits of either case is accepted exactly at its size and decodes to itself and nothing else |
| Reconstruct.Records.ShouldReplace | darshan-util/darshan-mofka-reconstruct.c:385-391 | a snapshot replaces the one kept if it is later by sequence number and then end time, or if there is none |
| Reconstruct.Records.AddRecord | darshan-util/darshan-mofka-reconstruct.c:393-431 | the table stays that of the latest snapshots |
| Reconstruct.Records.ReadEvents | darshan-util/darshan-mofka-reconstruct.c:493-564 | after any stream the table holds, for each record, the greatest snapshot taken up, the earliest on ties |
| Reconstruct.LatestInNumbers | darshan-util/darshan-mofka-reconstruct.c:385-391 | no snapshot of a record has a greater sequence number than the one kept, nor a later end with the same number; it is the first with that number and end |
| Reconstruct.ArrivalInNumbers | darshan-util/darshan-mofka-reconstruct.c:523-546 | an event brings in its record exactly if the size it gives is none or its module's, and its digits are hexadecimal and make up that size; and the bytes are those of the pairs of digits |
| Reconstruct.EmittedExactlyOnce | darshan-util/darshan-mofka-reconstruct.c:642-667 | each surviving record of the stream is emitted exactly once, in ascending order of module |
| Reconstruct.EmittedInFull | darshan-util/darshan-mofka-reconstruct.c:642-667 | a record is emitted if and only if its module is one of 1 to 17 but 13 and 14 and it is not that of a standard stream without reads and writes |
| Reconstruct.WritesAreInOrder | darshan-util/darshan-logutils.c:1624-1630 | so the writer's check of the region order never rejects |
| Reconstruct.PartialFlag | darshan-util/darshan-mofka-reconstruct.c:604-609 | a module's flag is set if and only if it has a surviving record |
| Reconstruct.SetFlagSets | darshan-util/darshan-mofka-reconstruct.c:608 | setting one flag leaves all others |
| Reconstruct.KeysToWrite | darshan-util/darshan-mofka-reconstruct.c:642-667 | the loops over modules and table emit the survivors module by module |
| Reconstruct.WriteReconstructed | darshan-util/darshan-mofka-reconstruct.c:591-676 | the log holds the latest snapshots of all survivors and flags exactly the modules that have some; none comes out exactly if some region ends with the staging buffer full |
| CleanPath.FilterDoubles | darshan-runtime/lib/darshan-common.c:148-153 | terminates without a doubled slash, keeping the names and the last component |
| CleanPath.FilterDots | darshan-runtime/lib/darshan-common.c:155-160 | terminates without an inner ".", bringing back no doubled slash |
| CleanPath.NoNewDouble | darshan-runtime/lib/darshan-common.c:155-160 | shifting out a "." component leaves no doubled slash where there was none |
| CleanPath.CleanFilePath | darshan-runtime/lib/darshan-common.c:105-163 | a path or none by the branches on the input; a cleaned path is clean, keeps its names and last component, and a clean one stays as it is |
| CleanPath.CleanInLetters | darshan-runtime/lib/darshan-common.c:148-160 | a path is clean exactly if nowhere two slashes, nor a slash, a dot and a slash, follow each other |
| CleanPath.CleanIsUnique | darshan-runtime/lib/darshan-common.c:148-160 | a clean absolute path is the only one with its names and its last component |
| Timer.Counter.IncNoOverlap | darshan-runtime/lib/darshan-common.h:18-27 | the counter after one more operation |
| Timer.NeverExceedsUnion | darshan-runtime/lib/darshan-common.h:18-27 | for any run, ended in whatever order, the timer never exceeds the measure of the union of the intervals; it is negative only if they end out of order |
| Timer.EqualsUnionIff | darshan-runtime/lib/darshan-common.h:18-27 | for any run it equals that measure if and only if the operations end in order and none reaches back into time that no earlier one spent |
| Timer.EqualsUnion | darshan-runtime/lib/darshan-common.h:18-27 | in particular if they start and end in order |
| Timer.NestedIsTakenBack | darshan-runtime/lib/darshan-common.h:18-27 | it falls short for an operation nested in one counted before it, by the time between the ends |
| Timer.EarlyStartIsMissed | darshan-runtime/lib/darshan-common.h:18-27 | and for one that encloses one counted before it, by the time between the starts |
| Timer.UnionInNumbers | darshan-runtime/lib/darshan-common.h:18-27 | the union holds the ticks within some operation, both of whose times were taken |
| Timer.UntimedIsIgnored | darshan-runtime/lib/darshan-common.h:19-21 | an operation one of whose times was not taken changes nothing |

## Left out

- The insides of zlib; the promises in `Codec` stand for it, among them that a stream's last byte is taken exactly when all its output is out.
- The bzip2 form of the writer and reader, and with it its behaviour after a failed flush.
- LogWriter.Writer.Close: closing a log to which nothing was written is excluded, since it would index the module maps with the header's region id; storing the header's bytes, its version string and magic number is left out.
- LogReader.Reader.DzRead: leaving a region before a read of it came short is excluded, because the decompressor is not reset then; the zeroing of the rest of the caller's buffer after a short read (a workaround for another library) is left out, as are failing reads and seeks.
- LogReader.Reader.LibzRead: regions of 4 GiB and more of compressed bytes are excluded; `LogReader.Reader.LoadRegion` says what the loader gives of them.
- NameTable.GetNameHash: the loop that never ends is modelled by its first read of no bytes. The overlapping copy of what is left over is modelled as a move.
- Lookup3.U32: a length cut to 32 bits is defined by counting that wraps.
- Lookup3.DigestWords: the variant built for a memory checker, which reads the last block byte by byte, is left out.
- StripeWalk.CompleteIffFits: for layouts whose components follow one another without gaps and end on stripe boundaries, as the file system makes them; soundness and the case of one component need neither.
- ThreadCount.CountThreads: the sorting by the C library is an insertion sort on values.
- Variance.ReduceIsExact: over real numbers, without rounding.
- PosixAggregate.Aggregate.AddRecord: maxima, timestamps, sizes of the slowest operations, and fields that are copied or zeroed are left out; the common values are the subject of `PosixCommonValues`.
- Merge.SharedRecords.Take: the hash holds aggregate records as values that are loaded and stored, not objects updated through a reference.
- Merge.MergeModule: the job, mount and name tables of the merged log are left out, among them the name hash reused across input files.
- Accumulator.State.InjectOne: the running aggregate record, which a function of the module computes, is left out.
- Accumulator.State.Emit: the summation record, a copy of the running aggregate, is left out.
- Reconstruct.Records.ReadEvents: finding keys in a line and reading numbers are left out, an event has its fields already; an end time that is not a number is excluded.
- Reconstruct.WriteReconstructed: the job, command line, mounts and names are given as the writes that precede the modules.
- CleanPath.CleanFilePath: asking for the working directory is a parameter.
- Timer.NeverExceedsUnion: in integer clock ticks.
- The reader of uncompressed logs, the parser of 3.00 name tables, the up-conversion of old records and the repair of heatmap bins.
- The aggregation of common values for HDF5 and PnetCDF records, which stops early at a zeroed duplicate.
- Per-module printing, diffing and describing, argument parsing, locking and the MPI calls themselves.
