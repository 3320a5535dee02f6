# dhcpd-pools: a verified model

dhcpd-pools reads the address ranges of an ISC `dhcpd.conf`, replays a `dhcpd.leases` log, counts for every
range and shared network how many addresses are in use, sorts the table, and in alarm mode turns it into an
exit value. This project models that pipeline in Dafny and proves what it computes.

`dafny verify dfyconfig.toml` checks all files.

## How the model is built

| module | models | form |
|---|---|---|
| `Address` | address order, 32-bit and 128-bit range sizes | functions over numbers and their bytes; the size loop as a method |
| `Pools` | the records of `src/dhcpd-pools.h`; permutations | datatypes, lemmas |
| `Ordering` | field comparators and the key chain of `merge` | functions; `Merge` is the loop over the key list |
| `StableSort`, `Sorting` | what the hybrid sort computes, and its laws for any order that is transitive on the table | functions and lemmas |
| `CountedTables` | the tables the sort is given, and its laws on them for every key list | predicates and lemmas |
| `PrintOrder` | the order of the printed table | functions and lemmas |
| `RangeTable` | `mergesort_ranges` and `flip_ranges` in place | methods over arrays with the shared scratch buffer |
| `Classifier` | `xstrstr_v4`, `xstrstr_v6` on a line buffer with stale contents | functions and lemmas |
| `LeaseLog` | the lease hash and `parse_leases` | class `LeaseTable` and methods |
| `Preparation` | `prepare_data` | methods |
| `Tally` | the naive nested count the sweep stands for | functions and lemmas |
| `Counting` | `do_counting` with its cursor | methods over arrays |
| `Scanner`, `ConfigParser` | `parse_config` as a step function, and the parser that runs it | functions; class `Parser` |
| `ConfigTree` | structured configurations and their text | datatypes, functions, lemmas |
| `Alarm` | classification and exit value of `output_alarming` | functions and methods |
| `FinalCounts` | what the tables should hold, from the declared ranges and the last states | functions and lemmas |
| `Pipeline` | `main` from the configuration text to the printed table and the exit value | methods and lemmas |

Conventions:

* The function pointers of `set_ipv_functions` are a `Version`; with the library's conversion of words to
  addresses, an arbitrary partial function, it forms the `Env` of a run. An IPv4 conversion yields 32 bits.
* Counts are natural numbers, percentages exact reals extended with infinity and the undefined quotient 0/0,
  which the code reaches for the full IPv4 space because its 32-bit size wraps to 0.
* The lease list is a sequence and the cursor an index into it, with a value for NULL.
* Indeterminate values are arbitrary in the methods. Where `parse_config` would go on with one, the scan stops
  in the status `Undefined` and nothing further is claimed.
* `HASH_SORT` and `qsort` may return any permutation their comparators accept; `qsort` is not assumed stable.

## Where the code and its documentation differ

The model follows the code.

* `src/sort.c:215-217` calls the sort stable. It reverses equal elements (`CountedTables.CountedSort`), which
  `tests/expected/sorts` shows, and is stable exactly on tables whose ties read the same backwards
  (`CountedTables.CountedSortIsStableIff`; `CountedTables.TiedPairIsReversed` is a table where it is not). What is
  true of several sorts in a row is `CountedTables.CountedKeyListFactors`.
* The manual describes `--warn-count` and `--crit-count` as numbers of free leases. For shared networks the code
  compares the used ones. `Alarm.NetClassDocumentedIff` says when the class is the documented one all the same,
  `Alarm.NetClassMonotoneIff` when more leases do not make it milder; `Alarm.FreeLeasesNotCompared` and
  `Alarm.MoreUsedMilderAlarm` are instances where these fail, the latter down to the exit value.
* The manual says `--snet-alarms` keeps the ranges outside shared networks. The code examines only those before
  the first range inside one (`Alarm.SnetAlarmsIff`, with the instance `Alarm.SnetAlarmsMissRange`).
* The backups of "All networks" count ranges outside shared networks twice (`Counting.AllNetworksTotals`, with
  the instance `Counting.OneBackupReportedTwice`).
* `README.md:44` says the number of ranges makes no significant difference. Over disjoint ranges, declared in any
  order, that holds as long as the leases do not run out before the highest range: then the cursor moves at most
  L + 2R times for L leases and R ranges. Every further range above all leases costs one more scan of the list. For
  2R < L the bound L + 2R is met exactly in the first case (`Counting.DoCounting`, `Pipeline.Analyse`);
  `Counting.ScannedTwice` is a table where it is not.
* `xstrstr_v6` never recognises an Ethernet line (`Classifier.XstrstrV6Answers`).
* A comment in `parse_config` says that a brace joined to a word, as in `shared-network DSL{`, is detected. The brace
  becomes part of the name, the first statement inside is lost, and the closing brace does not end the network
  (`ConfigTree.JoinedNetworkNeverEnds`).

## Model

| member | source | states |
|---|---|---|
| Address.AddressBytesRoundTrip | src/dhcpd-pools.h:75-78 | the sixteen bytes of an address and its number determine each other |
| Address.MemCmpIsNumeric | src/sort.c:73-76 | byte-lexicographic order of equally long byte strings is numeric order |
| Address.IpComp | src/sort.c:64-76 | the sign of the comparison orders addresses as numbers, for both versions |
| Address.HornerIsDifference | src/other.c:227-230 | accumulating signed byte differences in base 256 gives the difference of the two values |
| Address.RangeSize | src/other.c:214-232 | the size is last - first + 1; the IPv4 size wraps at 32 bits and is 0 exactly for the full space among ordered ranges |
| Pools.SizeIsAddresses | src/other.c:214-232 | the size computed for an ordered range is its number of addresses, and 0 for 0.0.0.0 to 255.255.255.255 |
| Address.GetRangeSizeV6 | src/other.c:219-232 | the loop computes that size, and it is at least 1 exactly when first is not above last in memcmp order |
| Address.SizeV6IsExact | src/other.c:219-232 | for sizes from 1 to 2^53 every intermediate value of the loop is a number a double holds exactly |
| Ordering.Merge | src/sort.c:254-274 | the loop answers yes exactly when the field comparison of some key is negative and those of all earlier keys are zero |
| Ordering.ChainMeaning | src/sort.c:259-271 | the order of a key list: the first key that does not compare equal decides, and ranges tie when none does |
| Ordering.StrCmpIsLexicographic | src/sort.c:262 | names are ordered by proper prefix or the smaller character at the first difference |
| Ordering.KeyMeanings | src/sort.c:118-211 | what each key compares: network names lexicographically, first addresses, numbers of addresses, the counters, and percentages by cross multiplication of integers, which covers the sizes 0 as well |
| Ordering.UndefinedPercentIff | src/sort.c:190-193 | the percentage of an ordered range is 0/0 exactly for the full IPv4 space without active leases |
| Ordering.ChainConcat | src/sort.c:259-271 | a concatenated key list compares by the first part and then by the second |
| Ordering.PositiveSizesOrder | src/sort.c:254-274 | on ranges of positive size, whatever their counters: irreflexive, transitive, and ties are transitive |
| StableSort.StableSortIsUnique | src/sort.c:213-219 | two sorted tables with the same tie classes in the same order are equal |
| Sorting.SortIsPermutation | src/sort.c:282-328 | for every order, even an inconsistent one, no range is lost, invented or changed |
| CountedTables.SweepLeavesCounted | src/dhcpd-pools.c:308-311 | the table the sort is given is a counted one: ordered ranges with the naive counts of one lease list |
| CountedTables.UndefinedTiesAll | src/sort.c:190-211 | if one range of a counted table has the percentage 0/0, that key ties all its ranges |
| CountedTables.MergeIsStrictWeakOrder | src/sort.c:254-274 | on counted ranges, for every key list: irreflexive, transitive, and ties are transitive |
| CountedTables.CountedSort | src/sort.c:282-328 | the result is the stable ascending sort of the reversed table, for every key list and size, in both branches |
| CountedTables.CountedSortIsTheOnlyOne | src/sort.c:282-328 | and a table has that property exactly when it is the one the program produces |
| CountedTables.CountedSortIsStableIff | src/sort.c:215-217 | it is the stable sort of the table itself exactly when every class of ties reads the same backwards; without repeated entries, when no two ranges tie |
| CountedTables.TiedPairIsReversed | src/sort.c:291-299 | a table on which it is not |
| CountedTables.CountedSortThenFlip | src/dhcpd-pools.c:310-313 | sort and flip give the stable descending sort, ties in the order they came in |
| CountedTables.CountedSortTwice | src/sort.c:282-328 | two sorts by the same keys give the stable ascending sort of the table |
| CountedTables.CountedKeyListFactors | src/sort.c:215-217 | keys weigh from left to right: sorting by K1 followed by K2 equals sorting by K2, flipping, and sorting by K1 |
| StableSort.ReverseReverse | src/other.c:393-400 | flipping twice restores the table |
| RangeTable.ShiftUp | src/sort.c:293-297 | the inner loop opens the gap behind the last element strictly before the one held |
| RangeTable.InsertInPlace | src/sort.c:291-299 | one insertion round, nothing outside the run changed |
| RangeTable.MergeBoth | src/sort.c:304-316 | what is in the scratch buffer when one run is used up |
| RangeTable.MergeHalves | src/sort.c:304-326 | the scratch buffer receives the merge of the two halves |
| RangeTable.MergesortRanges | src/sort.c:282-328 | the segment becomes the sort of what it held; the rest of the table and of the scratch buffer is unchanged |
| RangeTable.FlipRanges | src/other.c:393-400 | the table is reversed, with the unsigned index that wraps below zero |
| Classifier.XstrstrV4Answers | src/other.c:267-308 | each of the eight answers is given exactly for the lines that start with the text of that line, spelled out, whatever an earlier line left in the buffer |
| Classifier.XstrstrV6Answers | src/other.c:320-361 | the same for seven texts; PREFIX_HARDWARE_ETHERNET is never answered |
| LeaseLog.LeaseTable.FindLease | src/dhcpd-pools.h:318-321 | finds the entry of an address, or none exists |
| LeaseLog.LeaseTable.Record | src/getdata.c:107-127 | addresses stay unique and the state of one address is replaced |
| LeaseLog.LeaseTable.SetEthernet | src/getdata.c:128-135 | the entry of the address receives the string; every other entry, and all states, are unchanged |
| LeaseLog.TableIsLastState | src/getdata.c:91-139 | an address has state k exactly when the last state line seen while it was current says k |
| LeaseLog.LastLineTwice | src/getdata.c:91-93 | handling the final line a second time leaves the table as it was |
| LeaseLog.ClassifiedEvent | src/getdata.c:94-138 | each answer of the classifier leads to the event the line starts with |
| LeaseLog.HandleLine | src/getdata.c:94-138 | one pass of the loop keeps the table in step with the log read so far; an IPv4 Ethernet line notes its seventeen characters on the current entry |
| LeaseLog.EthernetOfLine | src/getdata.c:128-135 | those are the address of a complete Ethernet line |
| LeaseLog.ParseLeases | src/getdata.c:61-145 | after any log addresses are unique; after a well-formed one the table holds exactly the last states; backups_found is right |
| LeaseLog.LeaseWritten | src/getdata.c:94-118 | the lines lease W { and binding state active;, spelled out for each version and appended to a log, are the two events they say |
| Preparation.HashSort | src/analyze.c:53 | the lease list is strictly ascending and represents the same states |
| Preparation.QsortRanges | src/analyze.c:55 | the ranges are a permutation sorted by first address |
| Preparation.PrepareData | src/analyze.c:50-56 | both of these, as the sweep needs them |
| Tally.CountersAddUp | src/analyze.c:72-100 | counters of the ranges in a network, or of all, sum to the naive count over them |
| Tally.ScopeSizeIsAddresses | src/analyze.c:102-104 | the sizes summed up for a network or for all ranges are their numbers of addresses |
| Tally.Pigeonhole | src/analyze.c:72-86 | at most as many distinct addresses are in use as lie in the range |
| Tally.RangeOccupancy | src/analyze.c:72-104 | count + touched + backups never exceed the computed size of a range other than the full IPv4 space |
| Tally.OccupancyIff | src/other.c:214-217 | and exactly then, unless nothing in the range is in use |
| Tally.ScopeOccupancy | src/analyze.c:87-104 | the same summed over a network or all ranges, when the ranges summed over are proper |
| Tally.ExactCover | src/analyze.c:67-120 | for disjoint ranges the naive counts sum to the leases in their union, each once |
| Tally.CountersCoverExactly | src/analyze.c:67-120 | so do the counters of the counted table |
| Tally.CountIsCardinality | src/analyze.c:72-86 | counting entries counts distinct addresses by their state in the table |
| Counting.Rewind | src/analyze.c:68-71 | afterwards the lease at the cursor and the one before it are not above the range, and the moves are bounded |
| Counting.Walk | src/analyze.c:72-100 | the walk adds the naive counts to the range and to its network and to nothing else |
| Counting.CountRange | src/analyze.c:68-100 | rewind and walk together, from any cursor, with their cost |
| Counting.Sweep | src/analyze.c:65-106 | the sweep equals the naive count for every range sequence and credits every network |
| Counting.SumAllNetworks | src/analyze.c:107-120 | entry 0 is recomputed from all ranges, except that backups is added to |
| Counting.DoCounting | src/analyze.c:59-121 | both loops; available is the number of addresses of a network's ranges, or of all; cursor moves at most 2LR; over sorted disjoint ranges with n of them above all leases, between nL and nL + 2(R - n + 1), or at most L + 2R for n = 0; for 2R < L, L + 2R is met exactly when a lease lies above the last range but one; exactly LR when all leases lie below |
| Counting.NetworkOccupancy | src/analyze.c:87-104 | used + touched + backups stay within available for shared networks 1, 2, ... |
| Counting.AllNetworksTotals | src/analyze.c:107-120 | totals of "All networks" are plain sums over all ranges, and backups is one exactly when ranges outside shared networks have none |
| Counting.OneBackupReportedTwice | src/analyze.c:107-120 | a table where they are not: one backup lease outside shared networks is reported as two |
| Counting.DisjointInOrder | src/analyze.c:55 | disjoint ranges declared in any order meet the sweep sorted and disjoint |
| Counting.ScannedTwice | src/analyze.c:68-71 | a table on which L + 2R is not met |
| Counting.RunOutsPermutes | src/analyze.c:65-72 | how many ranges lie above all leases does not depend on the order of the ranges |
| Scanner.Reorder | src/getdata.c:169-178 | the two addresses, the smaller one first |
| Scanner.ClauseMeaning | src/getdata.c:150-166 | a first word announces a range exactly when it contains "range", a network when it contains "shared-network" and not that, a file when it contains "include" and neither, and nothing otherwise |
| Scanner.RunKeepsSound | src/getdata.c:211-431 | on any text, stored ranges are ordered, within the address space, uncounted, and belong to a registered network, and the network table does not overflow |
| Scanner.RunStoresAtMost | src/getdata.c:349-361 | a character completes at most one range |
| ConfigTree.RunRangeOfTwo | src/getdata.c:332-371 | a statement whose first word contains "range", with optional flags and two addresses, stores that range and returns between items |
| ConfigTree.RunRangeOfOne | src/getdata.c:244-246 | the same for a statement with one address |
| ConfigTree.RunSharedHead | src/getdata.c:372-397 | the head of a shared network registers its name and enters it |
| ConfigTree.RunInclude | src/getdata.c:416-421 | an include statement followed by a blank records its file and returns between items |
| ConfigTree.ScannerRecoversTree | src/getdata.c:184-435 | on the text of a structured configuration exactly its ranges are stored, in document order, ordered, each with its enclosing network; its networks and included files are recorded in document order |
| ConfigTree.ScannerAcceptsIff | src/getdata.c:388-391 | such a text is accepted exactly when it declares at most 8190 shared networks |
| ConfigTree.RangeWithoutAddress | src/getdata.c:256-261 | a range statement closed twice without an address ends the program |
| ConfigTree.SpacedRangeOfOne | src/getdata.c:256-263 | with a blank before the semicolon the one-address range is stored, but the scanner goes on expecting a last address |
| ConfigTree.LongWordIsDropped | src/getdata.c:311-319 | a first word of 1024 characters is dropped with what it announces |
| ConfigTree.JoinedBlock | src/getdata.c:266-279 | a brace joined to the first word of a block opens it like any other |
| ConfigTree.JoinedNetworkHead | src/getdata.c:266-279 | a brace joined to the name of a shared network becomes part of the name |
| ConfigTree.JoinedNetworkNeverEnds | src/getdata.c:266-293 | such a network swallows its first statement, and its closing brace leaves the scanner in it |
| ConfigParser.Parser.constructor | src/dhcpd-pools.c:322-335 | the tables start empty with "All networks" registered |
| ConfigParser.Parser.StoreRange | src/getdata.c:349-359 | the range is appended; the buffer doubles exactly when no room for one more would be left |
| ConfigParser.Parser.Grow | src/getdata.c:355-358 | reallocation doubles the buffer and keeps the stored ranges |
| ConfigParser.Parser.StoreNetwork | src/getdata.c:380-387 | the network is appended with zero counters and entered |
| ConfigParser.Parser.ParseConfig | src/getdata.c:184-435 | the loop over a whole file, with the end-of-file value it sees, leaves the tables the step function leaves |
| Alarm.ClassifyRanges | src/output.c:952-971 | the four range counters count the ranges examined by class |
| Alarm.ClassifyNets | src/output.c:972-989 | the four network counters count shared networks 1, 2, ... by class |
| Alarm.OutputAlarming | src/output.c:928-1012 | counters and exit value |
| Alarm.ExitMeaning | src/output.c:952-996 | with every combination of options: 2 exactly when a critical range or network is examined, else 1 exactly when one at warning level is, else 0; --snet-alarms examines the ranges before the first one in a shared network |
| Alarm.RangesInIsCardinality | src/output.c:952-971 | a range counter is the number of ranges of that class |
| Alarm.NetsInIsCardinality | src/output.c:972-989 | a network counter is the number of shared networks of that class |
| Alarm.RangePartition | src/output.c:953-970 | every range examined is in exactly one class |
| Alarm.NetPartition | src/output.c:973-988 | every shared network is in exactly one class |
| Alarm.OrderIsIrrelevant | src/output.c:953-970 | the range counters depend on the ranges and not on their order |
| Alarm.ExitIgnoresOrder | src/output.c:991-996 | without --snet-alarms no sort or flip changes the exit value |
| Alarm.ExitIgnoresNets | src/output.c:972-996 | with shared networks excluded by --limit they do not matter for the exit value |
| Alarm.SnetAlarmsIff | src/output.c:954-956 | with --snet-alarms the counters are those of the ranges outside shared networks exactly when none of these follows a range inside one |
| Alarm.SnetAlarmsMissRange | src/output.c:954-956 | a table where one does: a full range goes unreported |
| Alarm.RangeClassMeaning | src/output.c:957-967 | for every size, also 0: above --minsize a class needs both its percentage, by cross multiplication, and its number of free addresses crossed |
| Alarm.NetClassMeaning | src/output.c:975-987 | above --minsize a class of a shared network needs its percentage crossed, by cross multiplication, and fewer used addresses than its count; a network without addresses counts as full |
| Alarm.RangeClassMonotone | src/output.c:957-967 | more active leases in a range never make its class milder |
| Alarm.NetClassMonotoneIff | src/output.c:975-987 | more used addresses leave the class at least as severe exactly when, for the alarm the percentage raises, the used addresses stay below the count threshold |
| Alarm.BelowCountsKeepsAlarm | src/output.c:975-987 | that condition holds while the used addresses stay below both count thresholds |
| Alarm.NetClassDocumentedIff | src/output.c:975-987 | the class is the documented one, free leases against the thresholds, exactly when for each alarm the percentage raises used and free addresses lie on the same side of the threshold |
| Alarm.FreeLeasesNotCompared | src/output.c:979-984 | an instance where it is not |
| Alarm.MoreUsedMilderAlarm | src/output.c:979-996 | an instance where one more lease ends the alarm of a critical network and the exit value falls from 2 to 0 |
| Alarm.ExitMonotone | src/output.c:952-996 | the exit value is monotone in active and used counts where shared networks, if they are examined, meet the condition of NetClassMonotoneIff |
| FinalCounts.CountedIsFinal | src/analyze.c:50-106 | each range's counters are the numbers of distinct addresses in it by last recorded state |
| FinalCounts.NetIsFinal | src/analyze.c:87-104 | so are those of each shared network, summed over its ranges in any order |
| FinalCounts.TotalIsFinal | src/analyze.c:107-120 | "All networks" sums all ranges, with the backups of ranges outside shared networks twice |
| FinalCounts.LeaseAboveAllButOneIff | src/analyze.c:68-71 | at most one range lies above all leases exactly when a recorded address lies above all ranges but one |
| FinalCounts.AvailableOfDecls | src/analyze.c:101-116 | the available addresses of every network follow from the declared ranges, in any order |
| PrintOrder.ArrangedInPrintOrder | src/dhcpd-pools.c:307-313 | the printed table ascends by first address without keys; with keys it is in their order with ties by descending first address; --reverse turns it round |
| PrintOrder.PrintOrderDetermines | man/dhcpd-pools.1.in:75-78 | two permutations in that order are equal when first addresses are distinct |
| PrintOrder.PrintedIff | src/dhcpd-pools.c:307-313 | a permutation of counted ranges with distinct first addresses is in that order exactly when it is the printed table |
| Pipeline.ReadLeases | src/dhcpd-pools.c:306-307 | after parse_leases and prepare_data the list is ascending and holds the last states, and the ranges are sorted by first address |
| Pipeline.Analyse | src/dhcpd-pools.c:306-308 | log to counters, for all ranges, shared networks and "All networks"; occupancy stays within the sizes; the ranges stay sorted; for disjoint ranges declared in any order the cost bounds of DoCounting, and for 2R < L at most L + 2R cursor moves exactly when a recorded address lies above all declared ranges but the highest |
| Pipeline.Arrange | src/dhcpd-pools.c:309-314 | the optional sort and flip of the counted table |
| Pipeline.Report | src/dhcpd-pools.c:306-317 | from the declared ranges, the log and the options to the tables and the exit value, in the terms of the next row |
| Pipeline.AnalysePools | src/dhcpd-pools.c:303-317 | for every log the printed table is in print order, networks have the addresses of their ranges available, occupancy of proper ranges and of networks stays within their sizes, and the exit value is that of the tables; for a well-formed log the tables hold the numbers of addresses by last state, the printed table is a function of text, log and options when first addresses are distinct, and without --snet-alarms the exit value does not depend on keys or --reverse |
| Pipeline.AnalyseTree | src/dhcpd-pools.c:303-317 | the same from a structured configuration without included files, with its declared ranges and shared networks |
| Pipeline.LeaseRecorded | src/getdata.c:94-118 | two lines more in the log make one address active and change nothing else |
| Pipeline.RunWithOneMoreLease | src/output.c:952-996 | of two runs, the one whose log has an active lease appended does not have the lower exit value: when shared networks are not examined, when both count thresholds are above what each of them uses, or under the condition of Alarm.NetClassMonotoneIff |

## Left out

- Files and processes: opening, `fgets` and `feof` beyond their effect on the line buffer, option parsing, error messages, memory release. Inputs are texts and sequences of chunks.
- Report printers, the text of alarms and their performance data: formatting only.
- `--all-as-shared`, with its subnet and netmask clauses and the renaming of networks: off in the scanner.
- `include`: the name of the file is recorded, the included file is not scanned.
- `inet_aton`, `inet_pton`: an arbitrary partial function from words to addresses. The conversion lemmas assume only that the empty word is no address.
- The start in an unknown IP version (`parse_ipaddr_init`, `xstrstr_init`): the version is fixed from the start.
- `src/hash.c` and uthash are not part of this model: the table follows the prototypes of `src/dhcpd-pools.h:313-324` and is a sequence of entries in insertion order; buckets and pointers are not modelled. The list links are index steps.
- IEEE rounding, apart from the exactness of IPv6 sizes up to 2^53; the cast to float in percentages.
- Configurations the grammar of `ConfigTree` does not produce, such as comments inside range statements or nested shared networks: the scanner is modelled on them, but what they declare is not stated, apart from the single statements at the end of `ConfigTree`.
- ConfigTree.ScannerRecoversTree: words have at most 1023 characters and a one-address range is followed by white space, because the code loses longer words and waits for a blank after such a range.
- LeaseLog.HandleLine: which Ethernet string an entry carries after a whole log is not stated; the code copies seventeen bytes that may lie behind the end of the line.
- LeaseLog.ParseLeases: for a log with a state line before any parsed address only uniqueness is stated, because the code then uses an indeterminate address.
- Counting.Sweep: the available addresses of a network with a range of 2^64 addresses or more are not specified, because the conversion to unsigned long is undefined there.
- Pipeline.OneMoreLease: the longer log is given by its chunks, which are those of the longer file when the log ends with a newline; an unfinished last line would run into the appended one.
- Pipeline.AnalysePools: ranges with equal first addresses are printed in an order the library decides, because `qsort` is not stable; texts are shorter than 2^32 characters, so that the unsigned number of ranges does not wrap.
