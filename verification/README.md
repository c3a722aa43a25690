# Verified cores of demos-os-linux

Dafny models of the parts of this collection of Linux programming examples that carry
real invariants, with proofs of what those parts are meant to guarantee. Run
`dafny verify dfyconfig.toml` to check everything. The main results:

- **MersenneTwister** (`random_utils.hh`). The 624-word circular buffer refines the
  unbounded MT19937 recurrence of section [rand.eng.mers] of ISO C++, for every seed and
  every call, with every constant written out in a contract. The output stream is linear
  over exclusive or, the swizzle is a bijection, 624 outputs determine all later ones, and
  two seeds never share 624 outputs in a row.
- **Counters** (`trying_to_break.cc`). For any number n of threads and k of attempts, the
  values a load-then-store counter can end at are characterised exactly; with two or more
  threads and two or more attempts the range is 2 to n\*k. The mutex version excludes,
  cannot get stuck, and ends at n\*k; the atomic version is exact at every step.
- **Push clusters** (`ci_image_list.py`, `ci_image_prune.py`). The one-pass grouping
  computes connected components of the stably sorted rows, its groups do not depend on
  input order, and pruning over any number of runs with any failures leaves exactly what
  failed every time.
- **Protocols**. In `mod_poll.c` the whole state after any run is read off the actions: who
  returned, who sleeps and who was woken. No wakeup is lost, and of the four possible
  orders of its steps only the one it uses has that property. `gettid_cached` without a
  lock returns the right id once per call, takes a number of steps that is accounted for
  exactly, and wastes at most one record per thread and key, a bound that is attained. The
  eventfd hand-off conserves the sum, a write can be refused exactly when all the numbers
  together exceed 2^64 - 2, and the possible wakeup counts are exactly known.
- **Sequential cores**. `CircularPipe` is a FIFO queue; `echomidi` agrees with a
  message-level reading of running status; `ipow`, page pinning, register promotion and
  timespec arithmetic are each proved with the exact condition under which they are right.

Some things turned out not to hold in general, and are stated as if-and-only-if results,
the first three with a concrete input beside them.

- `ipow` gives the power, or 0 when it does not fit, exactly when the last squared base
  fits an int and the call is not (-2)^63. For 2^62 a squaring overflows although the
  result would fit.
- `echomidi` writes each note just when MIDI 1.0 asks for it, and nothing else, exactly
  when no read goes astray. A failed read, after which the byte before it is processed
  again, is astray when a note number below 122 is pending. A data byte is astray when
  such a number is pending and either a real-time byte has cut it off from its status
  byte or nobody sent that status byte; or when an odd number of data bytes was repeated
  since the status byte and the byte before it is below 122. If failed reads only repeat
  status bytes or come while no note status is in force, the whole output is right
  exactly when no real-time byte cuts off a note.
- Adding to a timespec gives normal form exactly when the sum of nanoseconds is not
  negative or is a whole number of seconds. Every timespec operation also says exactly
  when a signed 64-bit step overflows.
- The number of data bytes `getArgsExpected` gives is MIDI 1.0's except after pitch bend
  and the system messages 0xf1 to 0xf3. That does not change which notes are echoed.

Modelling choices: concurrent programs are step machines over sequentially consistent
memory, with a schedule naming who moves. System calls enter as parameters under their
documented contract (bytes read or accepted, numbers drawn, deletions that fail). A
timestamp is an integer number of seconds and a row is its id, its time and whether it
has tags. A row's id identifies it. `oldest` in the listing is kept as a time rather than
as text.

## Model

| member | source | states |
|---|---|---|
| MersenneStream.MersenneTwister.constructor | src/include/random_utils.hh:53-61 | after filling with the seed and stirring, exactly 62400 words of the recurrence have been consumed and the buffer is the window there |
| MersenneStream.MersenneTwister.Integer | src/include/random_utils.hh:63-81 | call number k returns the swizzled word k + 624 of the MT19937 recurrence and slides the circular window by one |
| MersenneStream.MersenneTwister.Advance | src/include/random_utils.hh:64-73 | the word stored is the next of the recurrence and the buffer becomes the next window |
| MersenneStream.Indices | src/include/random_utils.hh:64-67 | the two other indices are those of the words one and 397 ahead, mod 624 |
| MersenneStream.TwistWord | src/include/random_utils.hh:69-73 | the branch-free twist is the standard's transition |
| MersenneStream.SwizzleWord | src/include/random_utils.hh:75-80 | the four in-place updates are the tempering function |
| MersenneWords.TwistIsTransition | src/include/random_utils.hh:69-71 | multiplying by the low bit equals the standard's conditional constant, for all words |
| MersenneWords.TransitionImages | src/include/random_utils.hh:69-71 | the images of single words in each of the three places, in numbers; with TransitionLinear they fix the twist on all words |
| MersenneWords.SwizzleTempers | src/include/random_utils.hh:75-80 | for every word the swizzle is the four tempering lines of mt19937, with shifts 11, 7, 15, 18 and masks 9d2c5680, efc60000 |
| MersenneWords.SwizzleImages | src/include/random_utils.hh:75-80 | the images of all 32 single bits, in numbers; with SwizzleLinear they fix the swizzle on all words |
| MersenneWords.SwizzleBijection | src/include/random_utils.hh:75-80 | the swizzle has an explicit two-sided inverse |
| MersenneWords.SwizzleLinear | src/include/random_utils.hh:75-80 | the swizzle distributes over exclusive or |
| MersenneWords.TransitionLinear | src/include/random_utils.hh:69-71 | the twist distributes over exclusive or |
| MersenneWords.UntwistTransition | src/include/random_utils.hh:69-71 | the joined word can be read back from the result of the twist |
| CircularRecurrence.Slide | src/include/random_utils.hh:64-73 | overwriting the oldest word with the feedback turns the image of words k.. into that of words k+1.. |
| CircularRecurrence.Recurrence | src/include/random_utils.hh:40-73 | word j + 624 is the feedback of words j, j + 1 and j + 397, and the first 624 are given |
| CircularRecurrence.WordAt | src/include/random_utils.hh:64-67 | word j of the current window sits at index j mod 624 |
| CircularRecurrence.WrapAround | src/include/random_utils.hh:65-67 | the wrap-around by comparison and subtraction computes residues mod 624 |
| CircularRecurrence.Restart | src/include/random_utils.hh:63-81 | any window of the sequence, taken as a start, continues the same sequence |
| MersenneStream.OutputsRevealState | src/include/random_utils.hh:63-81 | un-swizzling any 624 consecutive outputs gives every word of the buffer at its index, and so every later output |
| MersenneStream.UserOutputIs | src/include/random_utils.hh:53-81 | call n after construction gives the swizzled word 62400 + n + 624 of the sequence that starts with 624 copies of the seed |
| MersenneStream.StreamLinear | src/include/random_utils.hh:53-81 | the stream for seed a^b is the pointwise exclusive or of the streams for a and b |
| MersenneStream.ZeroSeed | src/include/random_utils.hh:53-81 | seed 0 yields 0 on every call |
| MersenneStream.Backwards | src/include/random_utils.hh:63-73 | each word is determined by the window after it: the sequence runs backwards |
| MersenneStream.SeedsNeverCollide | src/include/random_utils.hh:53-81 | seeds that agree on 624 consecutive calls, anywhere, are equal |
| RacyCounter.FinalValues | src/examples/atomics/trying_to_break.cc:71-119 | for all n, k, v: some complete interleaving of load-then-store increments ends at v iff v is between the stated least value (2 for n, k >= 2) and n*k |
| RacyCounter.StepInv | src/examples/atomics/trying_to_break.cc:71-119 | every load or store keeps the bounds that relate the counter, the values held by threads and the iterations owed |
| RacyCounter.LoseMany | src/examples/atomics/trying_to_break.cc:71-119 | a schedule for every total from k to n*k |
| RacyCounter.LoseNearlyAll | src/examples/atomics/trying_to_break.cc:71-119 | a schedule for every total from 2 to k+1 with n, k >= 2 |
| MutexCounter.MutexRuns | src/examples/atomics/trying_to_break.cc:120-130 | in every run at most one thread is between lock and unlock, a run is stuck only when complete, it is complete exactly after 4*n*k steps, and the total then is n*k |
| MutexCounter.NoDeadlock | src/examples/atomics/trying_to_break.cc:120-130 | while some thread is unfinished, some unfinished thread can move |
| AtomicCounter.AtomicRuns | src/examples/atomics/trying_to_break.cc:62-70 | the value equals the number of increments at every point, and a run that cannot continue is at n*k |
| PushClusters.Cluster | scripts/ci_image_prune.py:49-58 | the loop computes the grouping of the stably sorted rows |
| PushClusters.SortSorts | scripts/ci_image_prune.py:50-50 | the sorted list is ordered by time and has the same rows |
| PushOrder.SortStable | scripts/ci_image_prune.py:50-50 | rows of the same time keep their order |
| PushOrder.StableUnique | scripts/ci_image_prune.py:50-50 | only one list is ordered by time and keeps the order within each time, so these two facts determine the sorted list |
| PushClusters.GroupsShape | scripts/ci_image_prune.py:51-58 | the groups, concatenated, are the rows in order, and none is empty |
| PushClusters.GroupsWell | scripts/ci_image_prune.py:52-57 | steps inside a group are at most 60 seconds, gaps between groups are longer |
| PushClusters.ClustersAreComponents | scripts/ci_image_prune.py:49-58 | two rows share a group iff a chain of rows with steps of at most 60 seconds links them |
| PushClusters.GroupBag | scripts/ci_image_prune.py:49-58 | a group holds each row linked to its members exactly as often as the input lists it |
| PushClusters.OrderIrrelevant | scripts/ci_image_prune.py:49-58 | any reordering of the input gives the same groups, as multisets, in the same order |
| ImagePrune.Prune | scripts/ci_image_prune.py:86-113 | which ids are asked to be deleted, in order, which are gone afterwards, and how many deletions fail; a dry run deletes nothing |
| ImagePrune.TargetsUnpinned | scripts/ci_image_prune.py:86-93 | the targets, in order of deletion, are the sorted rows that no chain of short steps links to a tagged row |
| ImagePrune.TargetIff | scripts/ci_image_prune.py:87-93 | a row is targeted iff no row of its group is tagged |
| ImagePrune.SecondRun | scripts/ci_image_prune.py:86-109 | after any pattern of failures the next run targets exactly the failed rows, in order |
| ImagePrune.AfterRuns | scripts/ci_image_prune.py:86-109 | after any number of runs the targets are the rows whose deletion failed every time |
| ImagePrune.PruneIdempotent | scripts/ci_image_prune.py:86-109 | a run without failures leaves nothing to prune |
| ImagePrune.GroupsSurvive | scripts/ci_image_prune.py:86-109 | deleting never merges two groups and leaves tagged groups as they were |
| ImageList.ListRows | scripts/ci_image_list.py:88-102 | one row per group, newest first, with the least time of the group and its status |
| ImageList.StatusIs | scripts/ci_image_list.py:97-102 | a listed group is orphaned iff a prune selects it; of the others the first is live and the rest are tagged |
| ImageList.Oldest | scripts/ci_image_list.py:94-94 | the least time in a group, attained by a row |
| ImageList.NewestFirst | scripts/ci_image_list.py:52-63 | groups are listed strictly newest first, more than a minute apart |
| ImageList.ListAgreesWithPrune | scripts/ci_image_list.py:92-102 | the groups labelled orphaned are exactly those pruning selects, in reverse |
| ImageList.LiveIsNewest | scripts/ci_image_list.py:97-102 | something is reported live iff the group of the newest row carries a tag |
| CircularPipe.Counts | src/include/CircularPipe.hh:55-106 | data + room is size - 1, and a transfer can move bytes iff there is data or room |
| CircularPipe.TwoPullsDrain | src/include/CircularPipe.hh:100-115 | two full-length pulls ask for all the data together and leave none |
| CircularPipe.TwoPushesFill | src/include/CircularPipe.hh:81-98 | two full-length pushes ask for all the room together and leave none |
| CircularPipe.Pipe.PullTwice | src/include/CircularPipe.hh:100-115 | two full-length pulls deliver all the contents and leave the pipe empty |
| CircularPipe.Pipe.PushTwice | src/include/CircularPipe.hh:81-98 | two full-length pushes append the head of the input and leave size - 1 bytes inside |
| CircularPipe.Pipe.constructor | src/include/CircularPipe.hh:45-50 | starts empty, and is a working pipe iff the size is at least 1 |
| CircularPipe.Pipe.Occupied | src/include/CircularPipe.hh:55-60 | the number of bytes inside |
| CircularPipe.Pipe.Vacant | src/include/CircularPipe.hh:62-67 | size - 1 less the bytes inside |
| CircularPipe.Pipe.HaveData | src/include/CircularPipe.hh:68-79 | true iff some byte is inside |
| CircularPipe.Pipe.HaveRoom | src/include/CircularPipe.hh:71-76 | true iff another byte fits |
| CircularPipe.Store | src/include/CircularPipe.hh:91-91 | the bytes read replace a run of the buffer and no other byte |
| CircularPipe.Pipe.Push | src/include/CircularPipe.hh:81-98 | any short read is appended; bytes in are bytes out followed by the contents |
| CircularPipe.Pipe.Pull | src/include/CircularPipe.hh:100-115 | any short write removes a prefix; bytes in are bytes out followed by the contents |
| MidiReads.EchoMidi | src/examples/alsa/midi_echo.cc:68-109 | what each iteration writes, for every pattern of bytes and failed reads: each note when its last byte arrives and nothing else iff no read goes astray, and then the total is what MIDI 1.0 asks for the bytes received |
| MidiReads.ReadLoop | src/examples/alsa/midi_echo.cc:75-108 | iteration n writes what the message-level reading of the bytes processed so far emits at its last byte |
| MidiReads.Timing | src/examples/alsa/midi_echo.cc:75-104 | at every read of every run, what is written is what is due iff the read is not astray: a stale byte or unsent status completing a note, a note cut off by a real-time byte, or pairs shifted by an odd number of stale bytes |
| MidiReads.HarmlessFailures | src/examples/alsa/midi_echo.cc:77-91 | if failed reads only repeat status bytes or come outside note statuses, the echo is that of the received bytes, and is MIDI 1.0's iff no real-time byte cuts off a note |
| MidiReads.NoFailures | src/examples/alsa/midi_echo.cc:77-79 | without failed reads the bytes processed are the bytes received |
| MidiReads.FirstHarmful | src/examples/alsa/midi_echo.cc:77-91 | the first other failed read writes a note that is not due iff a note number below 122 is pending, and shifts the pairs so that the next data byte is astray iff the repeated byte is below 122 |
| MidiReads.StaleCompletesNote | src/examples/alsa/midi_echo.cc:77-91 | a failed read inside a note: the wrong note is written |
| MidiReads.EarlyIsNotOnTime | src/examples/alsa/midi_echo.cc:77-91 | a run whose total is right although a note was written early and not when due |
| MidiEcho.Feed | src/examples/alsa/midi_echo.cc:80-107 | one byte through the parser writes what the message-level reading emits, and its variables follow the status in force and the data bytes since, the write index staying at most 3 |
| MidiEcho.NoteEchoed | src/examples/alsa/midi_echo.cc:80-103 | after any bytes a whole note message adds its echo six semitones up iff the note is below 122, and so does a further pair under running status |
| MidiEcho.ByteRanges | src/examples/alsa/midi_echo.cc:80-92 | which bytes are status bytes, notes on or off, and real-time bytes, in numbers |
| MidiEcho.ArgsAgainstMidi | src/examples/alsa/midi_echo.cc:115-127 | the data bytes expected are those of MIDI 1.0 except after pitch bend (one too few) and 0xf1 to 0xf3 (none) |
| MidiEcho.TrackData | src/examples/alsa/midi_echo.cc:84-103 | a data byte advances the parser as running status says and emits iff it completes an echoable note |
| MidiEcho.EchoFollowsMidi | src/examples/alsa/midi_echo.cc:68-127 | for the bytes processed, the echo is what MIDI 1.0 asks for iff no byte is an even-numbered data byte after a note status with a real-time byte in between and a note number below 122 |
| MidiEcho.LostIsCutOff | src/examples/alsa/midi_echo.cc:80-103 | that condition, read off the bytes, says exactly where MIDI 1.0 emits a note and the parser has lost its status |
| MidiEcho.ClockSwallowsNote | src/examples/alsa/midi_echo.cc:80-83 | a timing clock inside a note on: nothing is echoed where one note is due |
| PollWake.NoLostWakeup | src/kernel/mod_poll.c:83-122 | in every reachable state, an unwoken sleeper with state POLLIN means some WAKE has stored but not yet woken |
| PollWake.StateOfRun | src/kernel/mod_poll.c:83-122 | after every run: the state is POLLIN iff some WAKE stored it and no RESET stored since; a poller has returned iff it last saw that, else sleeps; it is woken iff a call woke the queue since it registered; a caller is busy iff in mid-call |
| PollWake.PollOutcome | src/kernel/mod_poll.c:109-122 | a poller that looks returns iff the last store was a WAKE's, and sleeps if it was a RESET's or there was none |
| PollWake.HeldUp | src/kernel/mod_poll.c:83-122 | a poller is blocked iff it saw no POLLIN and nobody has woken the queue since it registered; calls never block |
| PollWake.OrderMatters | src/kernel/mod_poll.c:90-116 | no wakeup is ever lost iff pollers register before sampling and callers store before waking |
| PollWake.Delivered | src/kernel/mod_poll.c:109-122 | once all calls are done with POLLIN set, every waiting poller returns within two steps of its own |
| TidCache.CacheRuns | src/include/pthread_utils.h:108-134 | in every run calls return the caller's id, and just when they end, no record is overwritten, a thread allocates at most once per key, and keys are at most as many as threads |
| TidCache.StepReturns | src/include/pthread_utils.h:124-133 | a step returns the caller's id iff it ends a call, and returns nothing otherwise |
| TidCache.StepsOfThread | src/include/pthread_utils.h:119-134 | in every run a thread has one result per finished call, its steps are 2 per call, 3 if it made a key and 2 per allocation, and it has allocated once a call is finished |
| TidCache.StepInv | src/include/pthread_utils.h:119-134 | every step of every thread keeps the cache consistent and replaces no record |
| TidCache.WorstCase | src/include/pthread_utils.h:119-129 | for every number of threads some run creates that many keys and makes one thread allocate that often |
| EventFd.HandOff | src/examples/eventfd/simple.cc:58-108 | for all draws and interleavings no write is refused, child sum = counter + parent sum, reads never exceed nonzero writes, the last read finds nothing, the sums agree at exit |
| EventFd.SumsAgree | src/examples/eventfd/simple.cc:60-107 | for numbers of any size, refused writes included: the child's sum is that of the numbers written modulo 2^64, and the parent ends with the same |
| EventFd.RefusedIff | src/examples/eventfd/simple.cc:101-105 | some interleaving makes a write fail iff the numbers add up to more than 2^64 - 2 |
| EventFd.ReadCounts | src/examples/eventfd/simple.cc:64-105 | the parent's counter can end at c iff c is between 1 and the number of nonzero writes, or 0 if there are none |
| Ipow.Power | src/examples/arithmetic/ipow.c:32-105 | signed overflow happens iff the last square leaves int32; otherwise the result is base^exp below 63; from 63 on it is exact for -1, 0, 1; documented behaviour holds iff no overflow and not (-2)^63 |
| Ipow.FallThrough | src/examples/arithmetic/ipow.c:80-103 | the cases of the switch compute the power modulo 2^64, for negative bases too |
| Ipow.PowerFits | src/examples/arithmetic/ipow.c:80-103 | when the last square fits, the power is below 2^62 in magnitude for exponents from 2 on |
| Ipow.TwoBits | src/examples/arithmetic/ipow.c:33-41 | the table gives the bit length |
| Ipow.MarkedOverflow | src/examples/arithmetic/ipow.c:41-79 | from exponent 63 on no base beyond -1, 0, 1 has a power in int64 except -2 at exactly 63 |
| Ipow.Shortfalls | src/examples/arithmetic/ipow.c:72-99 | 2^62 overflows on the way although it fits, and (-2)^63 fits although 0 is returned |
| UserPages.RunTouched | src/kernel/mod_get_user_pages.c:140-158 | the pages pinned are exactly those containing a byte of the range |
| UserPages.Aliases | src/kernel/mod_get_user_pages.c:140-201 | ptr + i and user byte i are the same physical byte |
| UserPages.HitsImage | src/kernel/mod_get_user_pages.c:240-243 | for any page table, the physical bytes written are exactly those behind the user range |
| UserPages.HitsUserRange | src/kernel/mod_get_user_pages.c:240-243 | with no frame mapped twice, the addresses written are exactly those of the user range |
| UserPages.Driver.constructor | src/kernel/mod_get_user_pages.c:42-53 | nothing mapped, no reference taken |
| UserPages.Driver.Map | src/kernel/mod_get_user_pages.c:132-207 | pins the run touched, takes one reference per page, and records what an earlier mapping loses |
| UserPages.PinRange | src/kernel/mod_get_user_pages.c:140-174 | the offset and page arithmetic leads to exactly the run of pages touched, with one reference taken on each |
| UserPages.Driver.Unmap | src/kernel/mod_get_user_pages.c:213-223 | gives each reference back once and clears the mapping; idle without a mapping |
| UserPages.PagesUnmap | src/kernel/mod_get_user_pages.c:86-96 | dirties unreserved pages and drops one reference per entry |
| UserPages.Driver.Read | src/kernel/mod_get_user_pages.c:229-235 | shows the first bytes of the range, at most ten, none without a mapping |
| UserPages.Driver.Write | src/kernel/mod_get_user_pages.c:240-243 | sets exactly the bytes of the range, none without a mapping |
| UserPages.Balanced | src/kernel/mod_get_user_pages.c:132-223 | all references are returned iff nothing is mapped and no MAP replaced one still in force |
| UserPages.MapAndUnmap | src/kernel/mod_get_user_pages.c:132-223 | any number of mappings, each undone before the next, returns every reference |
| UserPages.MapTwiceThenUnmap | src/kernel/mod_get_user_pages.c:132-223 | a second MAP before UNMAP leaves references of the first that are never returned |
| Restrict.AddNoRestrict | src/examples/compiler_internals/restrict.cc:50-55 | in-place accumulation ends at the plain sum, or at 2*sum before + sum after when the result is element k; exactly so when that is an int, else wrapped |
| Restrict.AddTemp | src/examples/compiler_internals/restrict.cc:66-72 | accumulating in a temporary gives the true sum wherever the result lies, exactly so when that is an int, else wrapped |
| Restrict.WrapIs | src/examples/compiler_internals/restrict.cc:50-72 | the wrapped sum is the one int congruent to the exact sum modulo 2^32, and the exact sum itself when that is an int |
| Restrict.PromotionSound | src/examples/compiler_internals/restrict.cc:50-80 | both agree iff the result is outside the array or equals the sum of the elements before it |
| Timespec.Time.AddNanos | src/include/timespec_utils.h:42-46 | overflows iff the nanosecond sum or the new seconds leave 64 bits; otherwise conserves the value, and normal form comes out iff the nanosecond sum is >= 0 or a whole number of seconds |
| Timespec.Time.Add | src/include/timespec_utils.h:57-61 | the same for two timespecs, also when both are one object |
| Timespec.Sub | src/include/timespec_utils.h:89-96 | overflows iff a difference or the borrow leaves 64 bits; otherwise the value is the difference under any aliasing, and normal inputs give a normal result |
| Timespec.SubThenAdd | src/include/timespec_utils.h:57-96 | adding a difference back never overflows and restores a normalised end field by field |
| Timespec.AssertGe | src/include/timespec_utils.h:63-77 | accepts normalised inputs iff value(x) >= value(y) |
| Timespec.ToNanos | src/include/timespec_utils.h:137-139 | overflows iff the signed product or sum leaves 64 bits; otherwise the value iff it is not negative |
| Timespec.DiffNano | src/include/timespec_utils.h:82-84 | overflows iff a signed difference, the product or the sum leaves 64 bits; otherwise the true difference iff end is not before start |
| Timespec.OrderedDiffFits | src/include/timespec_utils.h:82-84 | for normalised times in order there is no overflow iff the seconds differ by at most 9223372036 and the difference fits |
| Timespec.DiffTwoWays | src/include/timespec_utils.h:82-139 | timespec_diff_nano and timespec_to_nanos of timespec_sub agree where neither overflows, with the exact overflow condition of each; in order, the second never overflows where the first does not |
| Timespec.OneBeforeZero | src/include/timespec_utils.h:42-46 | subtracting a nanosecond from zero leaves normal form |
| Timespec.BorrowAvoidsOverflow | src/include/timespec_utils.h:82-96 | a pair of times whose difference only the second way computes |

## Left out

- RacyCounter.FinalValues: the counter is an unbounded integer, so n*k is taken not to overflow int.
- UserPages.Driver.Map: failed mappings are not modelled, because they rest on allocator behaviour; an empty range at the start of a page is one of them.
- CircularPipe.Pipe.Push: a pipe of size 0 can be constructed but not used, since its room wraps around.
- MidiReads.EchoMidi: a failed write ends the program and is not modelled; neither is the message it prints.
- Restrict.AddNoRestrict: int sums wrap around modulo 2^32, where C leaves signed overflow undefined.
- Restrict.AddTemp: int sums wrap around in the same way.
- Restrict.PromotionSound: compares the two forms under the same wrap-around.
- EventFd.HandOff: a max_rand of 0 divides by zero and is outside the model; a refused write is taken to end the child.
- TidCache.CacheRuns: fork, thread exit and failure of key creation or malloc are not modelled.
- The loop of `regular_worker` as optimised by a compiler, and the observer thread: they depend on the compiler or only print.
- Weak memory, barriers and compiler reordering: memory is sequentially consistent, as noted above.
- Fetching versions, argument parsing, formatting of ages, digests and tag lists: input and output only.
- The other examples, kernel modules and helper headers: mostly single system calls with nothing to relate.
