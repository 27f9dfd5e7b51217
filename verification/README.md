# Verified models of lmap's algorithms and protocols

lmap is a passive LAN mapper written in C. This project models the parts of it that hold
algorithms and state machines, in Dafny, and proves what they promise.

- **The getopt scanner.** `GetoptModel` says on values what one call does, `Getopt` has the calls
  as they are: statics that survive from call to call and an `argv` permuted in place. Every method
  is proved against the value model. `GetoptRuns` and `GetoptOrders` are about whole runs, from the
  first call to the one that returns -1, against a reference that reads the command line once from
  left to right and moves nothing. `GetoptMinusOne` and `GetoptPrefix` say exactly for which options
  two promises of getopt hold, about the value -1 and about the prefix of `optstring`;
  `GetoptInOrder` is the mode that returns operands too.
  `GetoptCommands` goes from lists of option uses to written command lines and back. `Rotation` is the block exchange, down to its number of swaps.
- **The recursive mutex.** `MutexModel` is a system of any number of threads and mutexes that take
  turns at every point where the C code can be interrupted, the window between inserting the owner
  entry and acquiring the mutex included. `MutexProofs` has the invariant, `MutexTheorems` what
  follows for every reachable state and every step, `MutexCalls` what a call does until it returns.
  A failing `malloc` is a step of the system.
- **IPv6 printing.** `Inet6Model` has the text, a parser for section 2.2 of RFC 4291 and the choice
  of section 4.2 of RFC 5952; `Inet6` has the scan, the formatter in its fixed buffer and the two
  callers.
- **Lists and their clients.** `Queues` has the lists of `queue.h` as heap structures: the address of
  a pointer (a back pointer, or the last next field) is a value that names the object whose field it
  is, and macros store through it. `Statistics` and `UserInterface` use them, and add the history of
  a counter and the interleaving of producers with the flusher.
- **The decoder driver.** `Decoding` has the table and the loop. A decoder may return any decoder;
  that the loop ends needs a ranking of them, and lmap's own decoders are shown to have one.
- **The hex dump.** `HexDump` has the text, a reader, the precomputed size and the loops.
- **Passive fingerprinting.** `Fingerprints` has the 28-character layout and its updates,
  `TcpOptions` the encoded options of section 3.2 of RFC 9293 and the features they add, `TcpOctets`
  the same octet by octet, with literal kinds,
  `TcpDecoder` the two decoders on an array changed in place, `Hash` and `FingerprintTable` the
  chained table.

Main results: a PERMUTE run of getopt is a stable partition that reports what a plain left-to-right
reading reports, exactly so long as no option returns the -1 that ends a run, and then goes like a
REQUIRE_ORDER run on the `argv` it leaves unless an argument is missing with something left over; a
written command line is reported back as it was meant; no two threads are inside one recursive
mutex; printed IPv6 addresses read back; the decoders' fingerprint says exactly what the packet
says; the hash table is a newest-first list; messages are shown once each in lock order; hex dumps
read back and fit their buffer; the driver makes at most four calls.

## Where the code differs from what is said about it

The models follow the code.

- The `+` or `-` in front of `optstring` is taken off for the first call only. Later calls see it
  as an option letter: `PlusIsAnOptionLater` is such a session, `PrefixSeenExactly` says which
  letters are read otherwise then, `PrefixMattersExactly` for which option strings it never shows.
- getopt promises -1 at the end of the options, but a long option may have the value -1 itself, and
  so has the letter 0xff as a signed char. `MinusOneTooEarly` is a session that ends so, with argv
  unsorted; `MinusOneEndsOnly`, `SessionsPartitionExactly` and `OrdersAgreeExactly` say for which
  options -1 means the end and what is promised of whole runs holds.
- If `malloc` fails, `recursive_mutex_lock` returns with the list lock held, and no lock or unlock
  gets past it again (`FailedAllocationSticks`); `ListHolderProceeds` says that this is the only way
  to lose the list lock.
- `ui_msg_flush` says it shows up to `max` messages; for `max` of 0 or less it shows all.
- `TTL_PREDICTOR` is said to round up to a power of two; it turns 0 into 2 and everything above 128
  into 255 (`TtlRoundsUp`).
- The loader of known fingerprints copies one character less than the length of a key, so every key
  holds a NUL and no fingerprint of a packet is ever found (`LoadedComesFrom`, `NothingRecognized`).
- The printer gives up on addresses that embed an IPv4 address, since the inner printer never
  returns a null pointer (`EncapsulatedExactly` says which addresses those are).
- A finished cycle of `get_all_stats` is meant to start over, but its cursor is the first element by
  then: a type registered between two cycles is left out of the second (`RegisterStat`).
- `free_stats` empties the list and leaves the count of its entries as it was.

## Model

| member | source | states |
|---|---|---|
| Rotation.RotateTradesBlocks | src/missing/getopt.c:300-308 | the exchanged argv is the prefix, the upper block, the lower block and the suffix, each in its own order |
| Rotation.RotatePermutes | src/missing/getopt.c:309-382 | the exchange neither loses nor duplicates an element |
| Rotation.SwapsIsSumLessGcd | src/missing/getopt.c:332-365 | exchanging blocks of b and t elements takes exactly b + t - gcd(b, t) swaps |
| Rotation.GcdUnique | src/missing/getopt.c:332-365 | the gcd in the swap count names one number |
| Rotation.SwapBlocks | src/missing/getopt.c:339-345 | the inner loop trades two disjoint blocks, touches nothing else and makes one swap per element |
| Rotation.PlaceShorter | src/missing/getopt.c:332-365 | one round sends the shorter block to its final place and leaves a smaller exchange with the same outcome |
| Rotation.ExchangeBlocks | src/missing/getopt.c:309-365 | in place, the array becomes the rotated one, everything outside untouched, with exactly L + R - gcd(L, R) swaps |
| Getopt.Scanner.Exchange | src/missing/getopt.c:309-382 | the statics are relocated to the moved block of non-options |
| Getopt.Scanner.Initialize | src/missing/getopt.c:391-454 | ordering from the prefix of optstring and the environment; the skipped block starts empty at optind |
| Getopt.Scanner.Gather | src/missing/getopt.c:561-577 | PERMUTE: the skipped block is settled behind the options and extended over the next non-options |
| Getopt.Scanner.PassDashes | src/missing/getopt.c:584-595 | `--` joins the options, everything behind it joins the non-options |
| Getopt.Scanner.Settle | src/missing/getopt.c:552-595 | argv and the indices are brought to the next element; indices left behind by a caller who moved optind back, and perhaps passes a shorter argv, are pulled along |
| Getopt.FindLong | src/missing/getopt.c:665-694 | the matching loop finds what the position-free resolution says |
| Getopt.FindNameEnd | src/missing/getopt.c:661-663 | the name ends at the first `=` or at the end |
| Getopt.Scanner.DecodeFoundLong | src/missing/getopt.c:696-751 | argument taking, flags and the missing or unwanted argument of a long option |
| Getopt.Scanner.DecodeShortOption | src/missing/getopt.c:781-974 | letters, clusters, required and optional arguments, missing arguments and unknown letters |
| Getopt.Scanner.DecodeOption | src/missing/getopt.c:642-974 | which of the two forms an element is read as, and what the call reports through result and globals |
| Getopt.Scanner.ScanSettled | src/missing/getopt.c:600-634 | what a call does at the element it has found |
| Getopt.Scanner.ScanElement | src/missing/getopt.c:550-974 | one call takes the statics and argv exactly to the state of the value model and reports its event |
| Getopt.Scanner.GetoptInternal | src/missing/getopt.c:512-976 | the same with initialization and an empty argv |
| GetoptModel.Step | src/missing/getopt.c:550-625 | first_nonopt <= last_nonopt <= optind <= argc between calls, an open cluster lies in argv |
| GetoptModel.Decode | src/missing/getopt.c:642-974 | decoding leaves an element exactly when nothing of it is left, shortens it otherwise, takes at most the next element, and misses an argument only at the end of argv; what it reports is stated by ReadUse and SessionReportsUses |
| GetoptModel.Gathered | src/missing/getopt.c:561-577 | the gathered block ends at optind, in order |
| GetoptModel.PastDashes | src/missing/getopt.c:584-595 | after `--` the scan is at the end of argv |
| GetoptModel.Resolve | src/missing/getopt.c:665-694 | a name resolves only to an entry it is a prefix of |
| GetoptCommands.ResolutionFails | src/missing/getopt.c:665-694 | ambiguous if and only if there is no exact match and two prefix matches disagree, wherever they sit; unknown if and only if nothing starts with the name |
| GetoptCommands.ResolutionFinds | src/missing/getopt.c:665-694 | otherwise the first exact match, or else the first prefix match, which all prefix matches agree with |
| GetoptRuns.StepProgress | src/missing/getopt.c:550-974 | every call that does not return -1 moves on, so every run ends |
| GetoptRuns.StepPermutes | src/missing/getopt.c:550-625 | after every call argv is a permutation of what it was |
| GetoptRuns.RunPermutes | src/missing/getopt.c:550-625 | so it is after every run, in every ordering mode |
| GetoptRuns.RunIsCut | src/missing/getopt.c:600-607 | a run, which ends at the first -1 a caller sees, is the run to the end of the options cut there, and is all of it if and only if no option returned -1 |
| GetoptRuns.ReadSplitsStably | src/missing/getopt.c:554-607 | the reference reading splits every command line into consumed elements and skipped non-options, shuffled together in order, and the `--` with what follows it |
| GetoptRuns.PermuteRun | src/missing/getopt.c:550-625 | from any state between two calls, a PERMUTE run that goes on to the end of the options, whatever values they return, reports what the reference reports on the unread part and sorts argv accordingly |
| GetoptOrders.PermuteSession | src/missing/getopt.c:550-625 | a session up to the first -1 does so, with the final optind, if and only if no option it reads has the value -1 |
| GetoptOrders.PermuteSessionIsStablePartition | src/missing/getopt.c:554-607 | at -1, if no option read has that value, argv up to optind is the consumed elements and the `--` in original order, argv from optind on is the skipped non-options and what followed the `--` in original order |
| GetoptOrders.SessionPermutes | src/missing/getopt.c:550-625 | every session in every mode leaves a permutation of argv |
| GetoptOrders.RequireOrderRun | src/missing/getopt.c:550-625 | a REQUIRE_ORDER run to the end of the options moves nothing and stops at the first non-option or behind the `--` |
| GetoptOrders.SortedReadsTheSame | src/missing/getopt.c:550-625 | sorted options read strictly as the unsorted command line read |
| GetoptOrders.SortedReadsOtherwise | src/missing/getopt.c:730-742 | with a missing argument and something behind it, the strict reading differs before it has reported all of the first |
| GetoptOrders.OrdersAgree | src/missing/getopt.c:550-625 | where no option read has the value -1, a PERMUTE session and a REQUIRE_ORDER session on the argv it leaves return the same, leave the same argv and optind, if and only if no argument was missing or nothing was left over |
| GetoptMinusOne.MinusOneEndsOnly | src/missing/getopt.c:744-751 | -1 means the end of the options in every state, if and only if no entry that some written name reaches, and no option letter, has that value |
| GetoptMinusOne.SessionsPartitionExactly | src/missing/getopt.c:554-607 | for a table of options, every PERMUTE session partitions argv stably if and only if no option can return -1 |
| GetoptMinusOne.OrdersAgreeExactly | src/missing/getopt.c:550-625 | for a table of options, the two orders agree on every session up to missing arguments if and only if no option can return -1 |
| GetoptMinusOne.ReadNeverMinusOne | src/missing/getopt.c:642-974 | with such a table no command line makes a reading report -1 |
| GetoptMinusOne.MinusOneTooEarly | src/missing/getopt.c:744-751 | a table, an argv and the two sessions on it in which an option of value -1 ends the run before argv is sorted |
| GetoptCommands.KindByColons | src/missing/getopt.c:928-930 | no colon behind a letter of optstring means no argument, one a required and two an optional one |
| GetoptCommands.ReadUse | src/missing/getopt.c:642-974 | each use and each misuse is read as its literal events, whatever follows: operands, clusters with known and unknown letters and an attached, separate or omitted argument, long options under any name that resolves to them, and names that start no entry, are ambiguous, or are given an argument the entry does not take, which report `?` with 0 or the entry's value in optopt |
| GetoptCommands.OneHyphenInLongOnly | src/missing/getopt.c:640-642 | in long-only mode `-text` is read as `--text`, unless it is a letter of optstring alone or starts with one and with no entry's name |
| GetoptCommands.ReadAll | src/missing/getopt.c:512-976 | reading a written list of uses, with nothing behind it, or a `--`, or an option that misses its argument, gives the options in order, the operands apart, and what followed the `--` |
| GetoptCommands.SessionReportsUses | src/missing/getopt.c:512-976 | a session on a written command line reports the uses, the misuses and a missing argument in order, if and only if none of them has the value -1, and then leaves the operands, and what followed the `--`, from optind on |
| GetoptCommands.UnknownNameIsReported | src/missing/getopt.c:758-775 | the session on one unknown long option reports `?` with optopt 0, whatever the table |
| GetoptInOrder.ItemsAreTheReading | src/missing/getopt.c:612-618 | the options among what RETURN_IN_ORDER reports are those the other modes report, the operands those they pass over |
| GetoptInOrder.InOrderRun | src/missing/getopt.c:612-618 | a RETURN_IN_ORDER run moves nothing and reports every operand, as the argument of value 1, and every option in the order of argv |
| GetoptInOrder.HyphenReturnsInOrder | src/missing/getopt.c:408-412 | a hyphen in front of optstring chooses that mode |
| GetoptInOrder.PlusRequiresOrder | src/missing/getopt.c:413-419 | a plus sign chooses REQUIRE_ORDER as the environment variable does |
| GetoptPrefix.PrefixSeenExactly | src/missing/getopt.c:408-417 | optstring with and without its prefix reads a letter, the prefix included, the same if and only if the kinds it has in both read alike there and no argument is missing that the stripped string reports by a colon |
| GetoptPrefix.HarmlessSession | src/missing/getopt.c:408-417 | in every mode, if the prefix letter is an option of the same kind in the stripped string, and no argument can be missing in case that starts with a colon, the session is the one in which every call reads the stripped string |
| GetoptPrefix.PrefixMattersExactly | src/missing/getopt.c:408-417 | without long-only mode that condition is exact: all sessions with the prefix are those with the stripped string if and only if it holds |
| GetoptPrefix.PlusIsAnOptionLater | src/missing/getopt.c:408-417 | a session with optstring `+a` in which `-+` passes for an option, where the stripped string would reject it |
| MutexProofs.RunKeepsInv | src/lmap_recursive_mutex.c:40-98 | the invariant holds in every state of every interleaving |
| MutexTheorems.StepReachable | src/lmap_recursive_mutex.c:40-98 | every enabled step leads from a reachable state to one, so what is stated of steps holds in all runs |
| MutexTheorems.OwnersHold | src/lmap_recursive_mutex.c:51-73 | at most one entry per mutex and thread; an entry's thread holds the mutex if and only if it is not between inserting and acquiring |
| MutexTheorems.MutualExclusion | src/lmap_recursive_mutex.c:47-73 | no two threads are inside the same mutex, and whoever is inside holds it |
| MutexTheorems.CountBalances | src/lmap_recursive_mutex.c:51-56 | unless the thread is in a call on that mutex, the count is completed locks less completed unlocks; there is an entry, and the mutex is held, exactly if that is positive |
| MutexTheorems.ReleasedAtZero | src/lmap_recursive_mutex.c:87-94 | the real mutex is released by one step only, its holder's, right after the count went to 0 |
| MutexTheorems.NonOwnerUnlockChangesNothing | src/lmap_recursive_mutex.c:83-97 | unlocking a mutex one does not own changes no entry and no holder, at any step |
| MutexTheorems.ListHolderProceeds | src/lmap_recursive_mutex.c:47-71 | whoever has the list lock can take its next step if and only if no allocation has failed |
| MutexTheorems.ListIsLeft | src/lmap_recursive_mutex.c:51-71 | and gives it back after finitely many of its own steps, whatever others do |
| MutexTheorems.WaitsForAnother | src/lmap_recursive_mutex.c:47-71 | a blocked thread waits for the list lock or for a mutex another thread holds, never its own |
| MutexTheorems.FailedAllocationSticks | src/lmap_recursive_mutex.c:58-61 | after a failed allocation the list lock is never given back |
| MutexTheorems.AllocationCanFail | src/lmap_recursive_mutex.c:58-61 | such a state is reached, by the first call already |
| MutexCalls.CallsAnswered | src/lmap_recursive_mutex.c:40-98 | in every run, the calls a thread has made are the calls of its that returned, in the same order, and then the one it is in |
| MutexCalls.RunHasSteps | src/lmap_recursive_mutex.c:40-98 | every run is made of such steps |
| MutexCalls.UnlockReturns | src/lmap_recursive_mutex.c:77-98 | an unlock runs from its call to its return: count and depth are one less, the mutex is held afterwards only if the count was above 1, and nothing else is different |
| MutexCalls.LockReturns | src/lmap_recursive_mutex.c:40-74 | a lock of a free mutex, or of the thread's own, runs to its return: the thread holds it, count and depth are one more, and nothing else is different |
| MutexCalls.LockWaits | src/lmap_recursive_mutex.c:58-71 | a lock of a mutex another thread holds goes on to wait for it, with its entry inserted and the list lock given back |
| Inet6.ToWords | src/lmap_inet.c:146-148 | the sixteen bytes as eight words in network order |
| Inet6.WordOctets | src/lmap_inet.c:146-148 | the even byte is the high octet of its word, the odd byte the low one |
| Inet6.WordsAreInjective | src/lmap_inet.c:146-148 | different addresses have different words |
| Inet6.FindBestRun | src/lmap_inet.c:149-170 | the scan finds the leftmost of the longest zero runs, and only one of two words or more |
| Inet6Model.BestIsUnique | src/lmap_inet.c:149-170 | there is one such run only |
| Inet6Model.EncapsulatedExactly | src/lmap_inet.c:187-194 | the branch for embedded IPv4 addresses is taken exactly on mapped addresses and compatible ones above 0.0.255.255 |
| Inet6.EmbedsExactly | src/lmap_inet.c:187-194 | those addresses byte by byte |
| Inet6.Format | src/lmap_inet.c:175-201 | the formatter stays in its buffer and writes the canonical text, or gives up exactly on embedded IPv4 addresses |
| Inet6Model.TextLength | src/lmap_inet.c:136-201 | the text with its NUL takes at most 40 bytes |
| Inet6Model.TextReadsBack | src/lmap_inet.c:175-201 | the text parses back to the same eight words |
| Digits.HexHasNoLeadingZero | src/lmap_inet.c:195-195 | groups are printed without leading zeros, as section 4.1 of RFC 5952 asks |
| Digits.HexInCase | src/lmap_inet.c:195-195 | and with letters of one case |
| Inet6Model.PrintingIsInjective | src/lmap_inet.c:126-213 | equal texts come from equal addresses |
| Inet6.InetNtop6 | src/lmap_inet.c:126-213 | succeeds exactly when the address embeds no IPv4 address and the text fits; on failure the destination is untouched |
| Inet6.IpAddr.Init | src/lmap_inet.c:37-56 | takes over the four or sixteen bytes of a known family, leaves the rest, and refuses other families with the address untouched |
| Inet6.IpAddr.Ntoa6 | src/lmap_inet.c:77-93 | the destination gets the canonical text, which read by section 2.2 of RFC 4291 is the address byte by byte: there is always room; it is untouched exactly for addresses that embed an IPv4 address |
| Queues.SingleList.InsertHead | include/missing/queue.h:130-133 | cons on the contents |
| Queues.SingleList.RemoveHead | include/missing/queue.h:135-137 | tail of the contents |
| Queues.SimpleQueue.InsertTail | include/missing/queue.h:270-280 | append to the contents, through the pointer to the last next field, which stays right |
| Queues.SimpleQueue.RemoveHead | include/missing/queue.h:282-285 | tail of the contents; an emptied queue points to its own first field again |
| Queues.LinkedList.BackPointer | include/missing/queue.h:204-224 | what a node's back pointer points to is the node |
| Queues.LinkedList.InsertHead | include/missing/queue.h:204-209 | cons on the contents with all back pointers kept |
| Queues.LinkedList.Unlink | include/missing/queue.h:211-215 | the pointers around a node are made to lead past it |
| Queues.LinkedList.Remove | include/missing/queue.h:211-215 | deletes the node at its place, wherever it stands |
| Queues.LinkedList.Splice | include/missing/queue.h:217-223 | the pointers around a node are made to lead through another |
| Queues.LinkedList.Replace | include/missing/queue.h:217-223 | updates the contents in place |
| Statistics.ReplayCounts | src/lmap_stat.c:51-101 | after every history types are distinct, a type has an entry exactly if it was registered, and its count is the sum modulo 2^32 of its updates since it last was |
| Statistics.ReplayLength | src/lmap_stat.c:51-77 | the registry has as many entries as types were ever registered |
| Statistics.Registry.FindStat | src/lmap_stat.c:55-62 | the walk finds the entry of a type if there is one |
| Statistics.Registry.RegisterStat | src/lmap_stat.c:51-72 | a known type starts again at 0 in its place, a new one comes first; the entry count stays the list length; the cursor is still at the start of the list if and only if the iteration has not begun or the type stood behind another one, and one off it before a new type |
| Statistics.Registry.UpdateStat | src/lmap_stat.c:80-89 | adds to the entry of the type modulo 2^32 and to no other |
| Statistics.Registry.GetStat | src/lmap_stat.c:92-102 | the count of a type, 0 if it is unknown |
| Statistics.Registry.GetStatCount | src/lmap_stat.c:74-77 | the number of entries of the list, modulo 2^32, until `free_stats` is called |
| Statistics.Registry.GetAllStats | src/lmap_stat.c:111-133 | each call gives the entry at the cursor and moves it; at the end it gives none and starts over |
| Statistics.Registry.RefreshStatistics | src/lmap_ncurses_menu.c:155-158 | one cycle of calls yields every entry from the cursor on once, in list order, and is ready for the next cycle; from the start of the list that is all of them |
| Statistics.Registry.FreeStats | src/lmap_stat.c:137-149 | empties the list and leaves the entry count |
| UserInterface.UiMsg | src/lmap_ui.c:146-151 | the message goes to the end of the queue |
| UserInterface.UiMsgFlush | src/lmap_ui.c:160-193 | shows and counts the oldest min(max, n) messages for max >= 1, all of them otherwise, and leaves the rest in order |
| UserInterface.RunConserves | src/lmap_ui.c:146-193 | in every interleaving, shown messages followed by queued ones are the sent ones in lock order |
| UserInterface.SentIsAsked | src/lmap_ui.c:103-153 | in every run, the messages a thread has called ui_msg with are its messages among the sent ones, in order, and then the one it is about to queue |
| UserInterface.SendReturns | src/lmap_ui.c:146-151 | a send runs from its call to its return, with the message at the end of the queue and nothing else different |
| UserInterface.FlushReturns | src/lmap_ui.c:160-193 | a flush runs from its call to its return: it shows the oldest messages, as many as its limit allows and all for a limit below 1, and leaves the rest |
| UserInterface.FlushBegins | src/lmap_ui.c:170-172 | a flush finds what waits when it gets the lock, which no other thread has then |
| UserInterface.FlushShowsOldest | src/lmap_ui.c:170-188 | a flush under way among other threads shows the oldest messages of those it found under the lock, as many as its limit allows |
| Decoding.LookupFindsNewest | src/lmap_decode.c:158-187 | lookup gives the latest entry added for level and type, nothing exactly if there is none |
| Decoding.DecoderTable.AddDecoder | src/lmap_decode.c:158-170 | the new entry comes first |
| Decoding.DecoderTable.GetDecoder | src/lmap_decode.c:176-187 | the walk is the lookup |
| Decoding.DecoderTable.SetL2Decoder | src/lmap_decode.c:133-152 | the first link layer entry that fits, the raw one included if wanted; without one the old choice stays |
| Decoding.DecoderTable.LmapDecode | src/lmap_decode.c:76-115 | with decoders that return higher ranked ones only, the loop ends after at most four calls, each handing the rest of the packet to the decoder that was returned, and stops only without data or without a decoder |
| Decoding.LevelsClimb | src/lmap_decode.c:84-115 | call k is made k layers above the first or higher |
| Decoding.KnownClimb | src/lmap_decoder_ip.c:103-103 | what a decoder of lmap returns stands exactly one layer above it |
| Decoding.KnownAreRanked | src/lmap_decoder_eth.c:68-68 | so the decoders of lmap are ranked as the loop needs it, whatever the packet and whichever of them are registered |
| Decoding.AtMostFourCalls | src/lmap_decode.c:84-115 | from the link layer there are at most four calls, whatever lengths are reported |
| Decoding.DecodersSeeTheirData | src/lmap_decode.c:95-109 | the calls depend on what the decoders do with the data at the recorded offsets and lengths, and on nothing else |
| Decoding.NextCallIs | src/lmap_decode.c:95-113 | the report of a decoder on the data it was given says where the next call stands, what remains and who gets it |
| Decoding.OffsetsAddUp | src/lmap_decode.c:97-113 | offset plus remaining length is the captured length at every call, and after the first call something remains |
| Decoding.OffsetsStayInside | src/lmap_decode.c:97-113 | without negative lengths every later call starts inside the packet |
| HexDump.DumpReadsBack | src/lmap_debug.c:142-163 | a dump reads back as lines at the offsets 0, 16, 32 and so on, full but for the last; their columns are the bytes in order, and the text on the right shows each printable byte, and a dot for any other |
| HexDump.DumpFits | src/lmap_debug.c:130-139 | the text with its NUL fits the precomputed size for every length |
| HexDump.DimFitsInt | src/lmap_debug.c:130-139 | the precomputed size is an int exactly up to 28633114 rows |
| HexDump.ComputeDim | src/lmap_debug.c:130-139 | the loop computes the size, and overflows exactly above that |
| HexDump.AppendColumns | src/lmap_debug.c:148-156 | the two loops append the 16 columns of a row, blanks behind its end |
| HexDump.AppendAscii | src/lmap_debug.c:159-163 | the printable characters of the row |
| HexDump.HexFormat | src/lmap_debug.c:121-168 | the size overflows if and only if the buffer is above that limit; else the result has exactly the precomputed size and holds the dump, and no write falls outside |
| Fingerprints.CutText | src/lmap_fingerprint.c:157-162 | the ten fields stand at their places between the colons |
| Fingerprints.OverwriteField | src/lmap_fingerprint.c:188-237 | overwriting one field leaves the others and the colons alone |
| Fingerprints.TtlRoundsUp | src/lmap_fingerprint.c:244-259 | the predicted TTL is the least power of two not below it up to 128, 255 above, and 2 for 0 |
| TcpDecoder.PredictTtl | src/lmap_fingerprint.c:244-259 | the loop on unsigned bytes, with the shifted bit falling off, computes that prediction |
| TcpDecoder.FingerprintAlloc | src/lmap_fingerprint.c:150-165 | the initial fields and the terminator |
| TcpDecoder.FingerprintPush | src/lmap_fingerprint.c:181-238 | in place, one field changes; layout and terminator stay |
| TcpDecoder.DecodeIp | src/lmap_decoder_ip.c:69-104 | addresses, protocol and TTL; a TCP packet gets a new fingerprint with its TTL, DF bit and header length, any other keeps what it had |
| TcpDecoder.PassOption | src/lmap_decoder_tcp.c:116-148 | one round passes exactly one option and makes its update |
| TcpDecoder.WalkOptions | src/lmap_decoder_tcp.c:115-149 | the loop visits exactly the option boundaries and the end marker, which by the octets alone are one walk: kind 0 ends it, kind 1 is passed alone, any other by its length octet; it makes all updates in order |
| TcpDecoder.DecodeTcp | src/lmap_decoder_tcp.c:80-157 | ports, length and next type; a SYN completes the fingerprint, any other segment drops it |
| TcpDecoder.FingerprintSyn | src/lmap_decoder_tcp.c:80-157 | after both decoders every character of the fingerprint is what the octets say: window, rounded TTL, DF, flag and the sum of the header lengths from the headers; NOP, SACK and timestamp exactly if kind 1, 4 or 8 is visited, the segment size and the scale of the last visited kind 2 and 3, or their placeholders |
| TcpOctets.Decoded | src/lmap_decoder_tcp.c:115-148 | every area that is well formed by its octets encodes a list of options |
| TcpOctets.EncodedIsWellFormed | src/lmap_decoder_tcp.c:115-148 | and every encoded list is well formed by its octets |
| TcpOctets.EncodedOctets | src/lmap_decoder_tcp.c:53-58 | kinds 1, 2, 3, 4 and 8 are NOP, segment size, scale, SACK and timestamp, and the second octet of all but the first is the length |
| TcpOctets.WalkIsUnique | src/lmap_decoder_tcp.c:115-148 | the octets determine the walk |
| TcpOctets.PlacesWalk | src/lmap_decoder_tcp.c:115-148 | the places of the encoded options, and of the end marker, are that walk |
| TcpOctets.NotedIsSeen | src/lmap_decoder_tcp.c:121-143 | the fold over the options says what the visited octets say |
| TcpOctets.SeenHasLast | src/lmap_decoder_tcp.c:129-138 | a kind that is visited at all is visited a last time, so the segment size and the scale are told |
| TcpOptions.PlacesAre | src/lmap_decoder_tcp.c:116-148 | the places to be visited go up by the sizes of the options, so the walker strictly advances |
| TcpOptions.RestsAre | src/lmap_decoder_tcp.c:115-120 | at each place what is left of a well-formed area is an encoded option and the rest behind it, and at the last place the padding |
| TcpOptions.FeaturesReadBack | src/lmap_fingerprint.c:181-238 | the ten fields of a fingerprint read back as the ten features |
| TcpOptions.FingerprintsTellFeatures | src/lmap_fingerprint.c:150-165 | two fingerprints are equal exactly when the ten features are |
| TcpOptions.NoteAllIs | src/lmap_decoder_tcp.c:121-143 | NOP, SACK and timestamp are set exactly if such an option occurs |
| TcpOptions.LastSizeWins | src/lmap_decoder_tcp.c:129-133 | of several segment sizes the last stays |
| TcpOptions.LastScaleWins | src/lmap_decoder_tcp.c:134-138 | of several window scales the last stays |
| TcpOptions.UpdateAllNotes | src/lmap_decoder_tcp.c:115-149 | updating the text option by option is noting the features option by option |
| TcpOptions.HeaderSlots | src/lmap_decoder_tcp.c:110-113 | after both headers the text says window, rounded TTL, DF, flag and the sum of both header lengths |
| Hash.Fnv32 | src/lmap_hash.c:62-83 | the loop is the fold of multiply and xor over the octets |
| Hash.FnvValues | src/lmap_hash.c:59-67 | the fold of nothing is the offset basis, and the 32-bit fold of the letter a is 050c5d7e |
| Hash.OneMoreOctet | src/lmap_hash.c:68-79 | an octet is xored, bit by bit, to the low octet of the product with the prime and changes nothing else of it |
| Hash.TruncationCommutes | src/lmap_hash.c:62-83 | the 64-bit hash cut to 32 bits is the 32-bit hash |
| Hash.BucketIgnoresWidth | src/lmap_fingerprint.c:114-114 | the chain of a key is the same for both widths of unsigned long |
| FingerprintTable.FindNewestIs | src/lmap_fingerprint.c:133-144 | the list gives the value of the latest load with an equal key, nothing exactly if there is none |
| FingerprintTable.ChainSuffices | src/lmap_fingerprint.c:137-140 | looking in one chain finds what looking in all loads finds |
| FingerprintTable.Table.Load | src/lmap_fingerprint.c:112-114 | the entry becomes the newest load, in its own chain only |
| FingerprintTable.Table.Search | src/lmap_fingerprint.c:133-144 | the walk of one chain is the search of the newest-first list of all loads |
| FingerprintTable.Table.Discard | src/lmap_fingerprint.c:61-80 | no load is left in any chain |
| FingerprintTable.LoadedComesFrom | src/lmap_fingerprint.c:100-112 | what is loaded is the lines that say something, the last first: 27 characters and a NUL at the start of the key, 59 characters as the name |
| FingerprintTable.CopyKey | src/lmap_fingerprint.c:109-109 | the copy ends in a NUL within the key, and what the buffer held stays behind it |
| FingerprintTable.Table.LoadLines | src/lmap_fingerprint.c:96-118 | the loop puts exactly that in front of the loads, and counts it |
| FingerprintTable.LiveFingerprintNotFound | src/lmap_fingerprint.c:109-114 | a fingerprint of a packet is found under none of the keys that hold a NUL |
| FingerprintTable.NothingRecognized | src/lmap_fingerprint.c:96-144 | whatever the file says, no fingerprint of a packet is found |

## Left out

- GetoptInternal: option strings with `W;` are excluded by the type `Config`, since lmap's option string never enables that branch.
- DecodeShortOption: option strings with `W;`, likewise.
- DecodeOption: option strings with `W;`, likewise.
- ScanElement: option strings with `W;`, likewise.
- SessionReportsUses: command lines for long-only mode, in which `-name` stands for `--name` and clusters may be taken for names.
- PrefixMattersExactly: long-only mode, in which a prefix that is not harmless may still never show, because letters are read only after no name fits; that a harmless one never shows is `HarmlessSession`, in every mode.
- OrdersAgree: sessions in which an option has the value -1, on which the agreement is accidental; `OrdersAgreeExactly` says which option tables have none.
- getopt: `_LIBC` code, error messages and the test programs.
- MutualExclusion: the owner list is a sequence here; its pointers are those of `LinkedList`. Counts do not wrap around as an unsigned long would.
- Mutex steps: threads are not destroyed and their identifiers are not reused; a mutex is used through the recursive functions only.
- Format: dotted-quad output, which the code never produces; `inet_ntop4`, `ip_addr_cmp` and the details text.
- Parse: the mixed form with an embedded dotted quad, which the printer never writes.
- Queues: TAILQ, CIRCLEQ and the macros lmap does not use; a freed element is not distinguished from an unlinked one.
- GetAllStats: a first call on an empty registry, which follows a null pointer, and a cursor on an element that was replaced or freed; `RegisterStat` says when a registration between two cycles does that to it.
- UiMsgFlush: formatting of messages and freeing of memory.
- RunConserves: each step is atomic, also the look at the queue that a flush takes before it has the lock.
- LmapDecode: a decoder is a function of the number of the call, the offset and the length. Dumping, the bucket and the thread tests are not part of this model.
- HexFormat: reuse and freeing of the static result, and negative lengths.
- HexDump: what happens after the size has overflowed, which C leaves undefined; `isprint` is that of the C locale.
- WalkOptions: areas that are not well-formed, in which a zero length octet or a truncated option makes the loop stall or read past the end.
- DecodeTcp: packets shorter than their headers, big-endian hosts, the address arithmetic through int, and a SYN without a fingerprint, on which the C code exits.
- FingerprintPush: `strtoul` also skips blanks and takes a sign or `0x`; the field it reads holds none of these.
- LoadLines: `fgets` and lines longer than its buffer, opening the file, and running out of memory.
- Table: keys are compared with `memcmp`, here as equality of 28 characters.
- Capture, ncurses, signals, threads, interfaces, manufacturers, ARP, ICMP and DHCP.
