# Kernel modules, verified

A Dafny model of the modules in this repository that hold real state: the per-source packet list
(`network_procfs.c`), the key logger's interrupt, read and unload handshakes
(`keyboard_interrupt_misc_device.c`), the circular intrusive lists (`kernel_linked_list.c`,
`thread_tree.c`, `seq_file_procfs.c`), the windowed video memory (`hardware_map.c`) and the procfs
accumulator (`file_proc.c`). `dafny verify dfyconfig.toml` checks all of it.

| file | what it holds |
|---|---|
| `Common.dfy`, `Words.dfy`, `Decimal.dfy` | shared types; wrap-around arithmetic; decimal printing and its inverse |
| `PacketTotals.dfy`, `PacketSums.dfy` | the packet list on values: what a history of packets and clears should leave, and what the shown lines add up to |
| `AddressText.dfy`, `PacketHook.dfy`, `PacketRace.dfy` | the printed IPv4 source as the key; the list as the netfilter hook feeds it; hooks racing for the globals they pass their packet through |
| `PacketList.dfy`, `PacketWalk.dfy`, `PacketPrinted.dfy`, `PacketSystem.dfy` | the list on the heap; hooks, clears and one unlocked reader interleaved; what a walk prints in all; the same with every source an IPv4 address |
| `KeyLog.dfy`, `KeyLogRead.dfy`, `KeyLogStores.dfy`, `KeyLogUnload.dfy`, `KeyLogRuns.dfy` | the key logger as a transition system; its read handshake; where the handler stores in any run; its unload handshake; where its reader is and what may happen in any run |
| `KeyLogDriver.dfy` | its callbacks on arrays, wait queues and waiting tasks |
| `LinkRing.dfy`, `KoolList.dfy`, `TaskRing.dfy` | rings of links; the list module; walks over the task ring |
| `Vram.dfy`, `VramDevice.dfy` | the memory window on values; the byte loops |
| `DigitRuns.dfy`, `Accumulator.dfy`, `AccumulatorDevice.dfy` | sums of the numbers in a text; what a write leaves and the one-pass loop; the callbacks on their buffers |

## How the model is made

- **Packet list.** A `spin_lock`..`spin_unlock` section is one atomic step. A hook takes two steps,
  since it reads `root` before it takes the lock. Each reader callback is one step, taken without the
  lock. The steps a hook takes before that, through the globals `sock_buff` and `ip_header`, are in
  `PacketRace.dfy`; elsewhere a hook knows its own packet. Allocation succeeds. Counters wrap as `atomic_t` and `atomic64_t` do, and an `skb` length
  becomes negative when it does not fit an `int`.
- **Key logger.** Interrupts may come at any time while a file is open, also before `keys` is set and
  after it has reached 0. The handler stores at `kbuf[keys--]`, so a read of `len` keys uses slots
  `len` down to 1 of a buffer of `len` bytes, and goes on downwards; `kbuf` is the memory around the
  pointer, as far as an `int` index reaches, and holds every store. Any number of opens may overlap.
  A read keeps its file open, and there is one reader. `init_completion` empties the completion's
  wait queue, whoever is in it; a task in `wait_for_completion` queues once, on entry. The device is
  in use until `misc_deregister`, which is a step of its own after the guard and the wait.
- **Rings.** A link and the structure that embeds it are one object. The constant 5 of
  `kernel_linked_list.c` is any `unsigned int`. The poison addresses of `list_del` are null.
- **Window.** Each call is told the first byte of the user's buffer that faults. `*off` is not
  negative and `*off + len` does not wrap, as the VFS guarantees.
- **Accumulator.** The character constant in the source, an HTML-escaped `'\0'`, is NUL. `input_buf` has
  one cell more than the source declares, for the byte just past it: a write of 1024 bytes or more
  stores its terminator there. `result` has five more, which is as far as 20 digits reach.

## What holds, and what does not

These expectations turn out to fail for the code as it stands. Each is given with the exact condition
under which it holds.

- *The byte figure of a source is its traffic.* It is, modulo 2^64, if and only if the number of its
  packets of 2 GiB or more since the last clear is a multiple of 2^32
  (`PacketHook.BytesRightIff`, `PacketHook.OversizedExample`).
- *The shown counts add up to the packets.* They do modulo 2^32, and exactly if and only if no source has
  sent 2^31 packets since the last clear (`PacketSums.ShownPacketsConserved`,
  `PacketSums.ShownPacketsExactIff`).
- *A packet is counted for its own source and length.* Every packet is counted once, however hooks
  race. It is counted for its own if and only if `ip_header` was at a header with its source when the
  hook printed that, and `sock_buff` at a packet with its length when the hook read that
  (`PacketRace.RacingCountsConserved`, `PacketRace.BooksRightIff`, `PacketRace.MixedExample`).
- *A completed read returns the scancodes.* It returns them backwards and without the first. In its
  place is the code that came after the last one asked for, if any did before the copy, or else the
  stale byte 0 of the buffer. They are in the order typed if and only if the first equals that byte
  and the rest is a palindrome (`KeyLogRead.ReadReturns`, `KeyLogRead.InOrderIff`,
  `KeyLogRead.OneKeyRead`). The comment in the handler speaks of 10 keys; the code waits for as many
  as the user asked for.
- *The handler writes inside its buffer.* `keys` is what it was last set to less the stores since,
  also while the next buffer is allocated and after one was freed. A store hits allocated bytes if and
  only if the latest buffer has not been freed and that difference, modulo 2^32, is less than its
  length and than 2^31 (`KeyLogStores.StoreIsLiveIff`; `KeyLogStores.StaleKeysExample`,
  `KeyLogStores.AfterFreeExample`, `KeyLogStores.EarlyStoreExample`). So in a read it does if and only if it
  is neither the first nor past the `len`-th after it, modulo 2^32 (`KeyLogStores.InReadLiveIff`).
- *A reader that has all its keys goes on.* It does if and only if nothing is missing, modulo 2^32, at
  the moment it tests; a code between the wake-up and the test sends it back to sleep
  (`KeyLogRead.PassesIff`, `KeyLogRead.MissingExactly`, `KeyLogRead.WokenInVain`).
- *The exit function does not pass its guard under an open file.* It can if and only if it has tested
  the guard and is not stranded, files are open, and the latest open or close was a close; without
  overlapping opens that cannot be (`KeyLogUnload.PassesUnderFileIff`, `KeyLogUnload.OverlapExample`,
  `KeyLogUnload.GuardIsSafe`).
- *The device is not deregistered under an open file.* Even without overlapping opens it is, if and
  only if a file was opened after the guard was passed and not closed again
  (`KeyLogUnload.DeregistersUnderFileIff`, `KeyLogUnload.GapExample`).
- *Unloading goes on once all files are closed.* It does if and only if the exit function is not
  stranded: an open after it queued takes it out of the queue, and if it sleeps then or falls asleep
  again, nothing wakes it ever (`KeyLogUnload.PassesIff`, `KeyLogUnload.StrandedForever`,
  `KeyLogUnload.HangExample`).
- *All numbers in a write are added.* Those before the first NUL are if and only if the text ends
  inside the buffer, or the digits that run into its end together with all that follows are worth 0
  modulo 2^64 (`Accumulator.CountsAllIff`, `Accumulator.FullOfDigits`, `Accumulator.LostTail`).
- *The result stays in its buffer.* It does if and only if it is below 10^15
  (`AccumulatorDevice.Device.WriteProc`, `Accumulator.ResultFits`).
- *The listing of kernel_linked_list.c ascends.* For a general count it does if and only if its largest
  value still fits an `int` (`KoolList.AscendingIff`, `KoolList.DescendsExample`).

## Model

| member | source | states |
|---|---|---|
| `PacketTotals.RunIsFaithful` | network_procfs.c:42-75 | after every sequence of packets and clears: the sentinel first, then each source seen, once, in order of first arrival over the whole run; each count and byte total is that source's since the last clear, modulo 2^32 and 2^64 |
| `PacketTotals.FaithfulIsUnique` | network_procfs.c:42-75 | that description has exactly one solution, the list the code builds |
| `PacketTotals.Find` | network_procfs.c:51-62 | the search meets the first node with the address and no earlier one has it |
| `PacketTotals.ClearedAt` | network_procfs.c:142-157 | the position after the last clear: only packets follow it and a clear stands before it |
| `PacketTotals.SourcesStep` | network_procfs.c:63-73 | one more packet or clear keeps the sources right: distinct, complete, in first-arrival order |
| `PacketTotals.TotalsStep` | network_procfs.c:56-60 | one more packet or clear keeps every row's totals right |
| `PacketTotals.SeenHasRow` | network_procfs.c:51-73 | a source seen so far has a row other than the sentinel's, holding its own totals |
| `PacketSums.ShownPacketsConserved` | network_procfs.c:122-128 | in every run the shown counts sum, modulo 2^32, to the packets since the last clear |
| `PacketSums.ShownPacketsExactIff` | network_procfs.c:122-128 | they sum exactly if and only if no source has sent 2^31 packets since the last clear |
| `PacketSums.TruncatedMeaning` | network_procfs.c:125-126 | the kilobytes shown are the quotient cut toward zero, for either sign |
| `PacketSums.ShownKilobytesBound` | network_procfs.c:125-126 | the shown kilobytes times 1024 never exceed the byte total and fall short by at most 1023 a line |
| `PacketSums.ShownRows` | network_procfs.c:102-128 | the nodes after the sentinel are exactly the proper sources, each once with its totals |
| `PacketSums.Partition` | network_procfs.c:56-60 | adding up traffic source by source equals adding it up packet by packet |
| `AddressText.ParseOfText` | network_procfs.c:90 | parsing undoes printing an IPv4 source |
| `AddressText.Parse` | network_procfs.c:90 | printing undoes parsing: what parses to an address is that address's text |
| `AddressText.TextInjective` | network_procfs.c:53 | two addresses compare equal as text exactly when they are equal |
| `AddressText.TextIsGrammar` | network_procfs.c:90 | the printed addresses are exactly the IPv4address strings of section 3.2.2 of RFC 3986 |
| `AddressText.TextReads` | network_procfs.c:90 | the four numbers of a printed source are its octets, in the order they have in memory |
| `AddressText.TextFits` | network_procfs.c:82-90 | every address prints in 7 to 15 characters, so `source[16]` never truncates and never is "" |
| `PacketHook.OneNodePerAddress` | network_procfs.c:78-100 | two sources share a node exactly when their addresses are equal, and it is never the sentinel |
| `PacketHook.RowHasAddress` | network_procfs.c:78-100 | every node after the sentinel belongs to an address that sent a packet |
| `PacketHook.SentinelStaysZero` | network_procfs.c:174-179 | however the hook is driven, the sentinel keeps address "" and zero counters |
| `PacketHook.NodeBytes` | network_procfs.c:97 | a source's byte figure is its true bytes less 2^32 for each packet whose length is negative as an `int`, modulo 2^64 |
| `PacketHook.BytesRightIff` | network_procfs.c:97 | the byte figure is true modulo 2^64 if and only if the number of such packets since the last clear is a multiple of 2^32 |
| `PacketHook.OversizedExample` | network_procfs.c:97 | one packet of 2^31 bytes leaves a negative byte figure |
| `PacketRace.HooksGoOn` | network_procfs.c:78-100 | a hook can go on until it is finished, whatever the others do; each step brings it one further and leaves the others where they are |
| `PacketRace.AllBooked` | network_procfs.c:78-100 | however hooks race, each that finishes has booked exactly one packet |
| `PacketRace.BookedIsMixed` | network_procfs.c:83-97 | each packet booked has the source of one of the packets and the length of one of them |
| `PacketRace.RacingCountsConserved` | network_procfs.c:78-128 | the shown counts sum, modulo 2^32, to the hooks that have finished |
| `PacketRace.BooksRightIff` | network_procfs.c:83-97 | a hook books its own source and length if and only if the packets the globals led to, when it printed and when it read, have the same |
| `PacketRace.UndisturbedBooksRight` | network_procfs.c:83-97 | it does so whenever no other hook sets `sock_buff` between its own setting it and its booking |
| `PacketRace.MixedExample` | network_procfs.c:83-97 | two hooks at once: the first books the second's source and length |
| `PacketList.Log.constructor` | network_procfs.c:168-179 | set-up: one sentinel, `tail == root`, empty list |
| `PacketList.Log.Search` | network_procfs.c:51-62 | the search loop ends at the first node with the address, or at NULL when there is none |
| `PacketList.Log.Bump` | network_procfs.c:56-60 | the matching branch changes that node's two counters and nothing else |
| `PacketList.Log.Append` | network_procfs.c:64-73 | the other branch adds a fresh last node and keeps the chain acyclic, ended by `tail` |
| `PacketList.Log.AddLocked` | network_procfs.c:42-75 | the locked section acts on the chain as one packet does on the rows; `root` and earlier nodes stay in place |
| `PacketList.Log.ClearLocked` | network_procfs.c:142-157 | the clearing loop zeroes every node's counters and keeps chain and addresses |
| `PacketList.Log.Start` | network_procfs.c:102-106 | a walk begins at the first node after the sentinel, or at NULL |
| `PacketList.Log.Next` | network_procfs.c:108-115 | it goes on to the next node in the chain, or NULL at its end |
| `PacketList.Log.Free` | network_procfs.c:33-40 | the destructor ends, frees the rest of the chain from last to first, each node once, and reads no freed node |
| `PacketList.Log.Cleanup` | network_procfs.c:195-199 | after it the slab cache is empty and all nodes, the sentinel last, were freed once |
| `PacketWalk.NothingLost` | network_procfs.c:42-75 | under any interleaving, every hook that entered is in flight or has added one packet, and every clear is on record |
| `PacketWalk.AllTakePlace` | network_procfs.c:42-75 | when each locked section belongs to a hook that entered before and has not added yet, all sections take place, in that order, and no other |
| `PacketWalk.ListIsRun` | network_procfs.c:42-75 | under any interleaving the list is what its locked sections alone make it |
| `PacketWalk.ListIsScheduled` | network_procfs.c:42-157 | under such a schedule the list is what its packets and clears, as scheduled, make it |
| `PacketWalk.ListGrows` | network_procfs.c:63-73 | no node ever leaves its position or changes its address |
| `PacketWalk.AlwaysOnTrack` | network_procfs.c:102-115 | at every moment a walk has shown exactly the nodes up to where it stands, in list order |
| `PacketWalk.WalkIsComplete` | network_procfs.c:102-115 | a finished walk lists the sources on the list when it met NULL: those present at its start first, in order, each once, none twice |
| `PacketWalk.LineIsSnapshot` | network_procfs.c:122-128 | every line shows its source's totals as they stood when it was shown: the count in 32 bits, the bytes in 64 bits cut to kilobytes toward zero |
| `PacketWalk.WalkEnds` | network_procfs.c:102-115 | two reader turns a source and one more always end the walk, however hooks and clears interleave |
| `PacketWalk.Module.EnterHook` | network_procfs.c:44 | a hook that enters is one more in flight, with the `root` it reads before the lock, which is the one it finds after it |
| `PacketWalk.Module.AddPacket` | network_procfs.c:50-74 | a hook in flight, adding late, does on the heap what the interleaved model says |
| `PacketWalk.Module.MoveReader` | network_procfs.c:102-128 | the reader's next callback does on the heap what the interleaved model says |
| `PacketWalk.RunSchedule` | network_procfs.c:42-157 | for every schedule the heap ends as the interleaved model says, with hooks in flight and packets added making up the hooks entered; under a proper schedule the nodes are what its packets and clears make them |
| `PacketWalk.RunThenCleanup` | network_procfs.c:33-199 | unloading after any schedule frees every node the run made once, last to first, and leaves none |
| `PacketPrinted.LineBetween` | network_procfs.c:122-128 | in a walk with no clear, a line shows a count between its source's at the start and at the end, short of 2^31 |
| `PacketPrinted.PrintedSum` | network_procfs.c:102-128 | a walk with no clear and no wrap prints counts that sum to at least the packets when it began and at most those when it met NULL |
| `PacketSystem.EventsOf` | network_procfs.c:78-100 | every schedule whose packets come through the hook is a history of IPv4 arrivals and clears |
| `PacketSystem.RunHooks` | network_procfs.c:42-157 | under any such schedule the heap matches the model, the sentinel node is "" with zero counters, and the other nodes hold distinct IPv4 addresses |
| `KeyLogRead.HandshakeAlways` | keyboard_interrupt_misc_device.c:123-134 | every run keeps the handshake: `keys` counts down, every slot holds the latest code that went to it or what it held before, and no reader sleeps at 0 |
| `KeyLogRead.CountsDown` | keyboard_interrupt_misc_device.c:67-73 | in every run `keys` is `len` less the scancodes delivered, and the j-th of them (from 0) is in slot `len - j` |
| `KeyLogRead.SlotsDistinct` | keyboard_interrupt_misc_device.c:68 | no two of the first 2^32 scancodes of a read share a slot |
| `KeyLogRead.WriterExactly` | keyboard_interrupt_misc_device.c:68 | short of 2^32 scancodes, slot i is written by number `len - i` alone |
| `KeyLogRead.StoreInBoundsIff` | keyboard_interrupt_misc_device.c:67-68 | in a read of fewer than 2^31 keys, a store is inside its `len` bytes if and only if it is neither the first of the read nor past the `len`-th after it, modulo 2^32 |
| `KeyLogRead.PassesIff` | keyboard_interrupt_misc_device.c:127-134 | the reader passes its test exactly when nothing is missing at that moment, and sleeps otherwise |
| `KeyLogRead.MissingExactly` | keyboard_interrupt_misc_device.c:128-132 | short of 2^32 interrupts, nothing is missing exactly when as many came as were asked for |
| `KeyLogRead.WakesIff` | keyboard_interrupt_misc_device.c:69-72 | an interrupt wakes the sleeper exactly when it brings the last code missing, and a sleeper always misses some |
| `KeyLogRead.WokenInVain` | keyboard_interrupt_misc_device.c:69-73 | a run in which the reader is woken with all its keys and sleeps again |
| `KeyLogRead.ReadReturns` | keyboard_interrupt_misc_device.c:136-143 | in every run, byte i of a completed read is the latest code that went to slot i, or what was there when `keys` was set |
| `KeyLogRead.ReturnedBackwards` | keyboard_interrupt_misc_device.c:136-143 | short of 2^32 scancodes that is number `len - i`, so the codes come out backwards and the first not at all |
| `KeyLogRead.PassedHasEnough` | keyboard_interrupt_misc_device.c:128-136 | a reader of fewer than 2^32 keys past its wait has got at least as many codes as it asked for |
| `KeyLogRead.InOrderIff` | keyboard_interrupt_misc_device.c:136-143 | in every run, also with more codes between test and copy, the read is in the order typed if and only if the first code equals the stray byte and the rest is a palindrome |
| `KeyLogRead.OneKeyRead` | keyboard_interrupt_misc_device.c:123-144 | a read of one key returns the stale byte, whatever was typed |
| `KeyLogStores.CountsAlways` | keyboard_interrupt_misc_device.c:67-68 | in every run `keys` is what it was last set to less the stores since, modulo 2^32, and `kbuf` is set from the first `kmalloc` on |
| `KeyLogStores.StoreIsLiveIff` | keyboard_interrupt_misc_device.c:67-68 | in every run a store goes to slot `keys` of the latest buffer, and hits allocated bytes if and only if that is not freed and what is left to ask for, modulo 2^32, is less than its length and than 2^31 |
| `KeyLogStores.NoBufferNoStore` | keyboard_interrupt_misc_device.c:67 | before any `kmalloc` an interrupt changes nothing |
| `KeyLogStores.InReadLiveIff` | keyboard_interrupt_misc_device.c:67-68 | in a read that is: neither the first store nor past the `len`-th after it, modulo 2^32 |
| `KeyLogStores.StaleKeysExample` | keyboard_interrupt_misc_device.c:127-134 | after a signal ended a read of 3, a store goes to slot 2 of the next read's one byte |
| `KeyLogStores.AfterFreeExample` | keyboard_interrupt_misc_device.c:142 | a store after a read has returned goes to the freed buffer |
| `KeyLogStores.EarlyStoreExample` | keyboard_interrupt_misc_device.c:127-128 | a store before `keys` is set can hit the new buffer |
| `KeyLogRuns.ReaderAlways` | keyboard_interrupt_misc_device.c:123-144 | in every run the reader is where its own steps and the scancodes put it: after a test, past the wait if nothing was missing then, woken if nothing was missing at a moment since, and otherwise asleep |
| `KeyLogRuns.ReadEnds` | keyboard_interrupt_misc_device.c:133-143 | a read ends at once by a signal, a fault or a full copy; by the first two the user gets nothing |
| `KeyLogRuns.Untouched` | keyboard_interrupt_misc_device.c:123-144 | only a full copy changes what the user has, and only `kmalloc` and the handler the buffer, which begins as the memory `kmalloc` found |
| `KeyLogRuns.BaseIsAllocated` | keyboard_interrupt_misc_device.c:127-128 | with no store between `kmalloc` and `keys = len`, the stale bytes of a read are those of the memory `kmalloc` found |
| `KeyLogRuns.EnabledIff` | keyboard_interrupt_misc_device.c:47-180 | what may happen next in any run, told from what has happened: nothing that the callbacks allow is shut out |
| `KeyLogUnload.RegisteredAlways` | keyboard_interrupt_misc_device.c:104-119 | in every run `intr_registered` is opens less closes, a completion is pending exactly when the latest of them was a close, and a read has a file open |
| `KeyLogUnload.ExitAlways` | keyboard_interrupt_misc_device.c:170-178 | in every run, where the exit function is follows from the opens, closes and its own turns; in the queue it is awake exactly when the latest open or close was a close |
| `KeyLogUnload.ListeningMeaning` | keyboard_interrupt_misc_device.c:107-108 | the exit function is in the queue exactly when no open came after its first turn there |
| `KeyLogUnload.WokenMeaning` | keyboard_interrupt_misc_device.c:118-119 | it has been woken exactly when a close came while it was in the queue and it has not run since |
| `KeyLogUnload.CanPassMeaning` | keyboard_interrupt_misc_device.c:173-177 | "can pass" is exactly that one of its own steps leads past guard and wait now, and no other step does |
| `KeyLogUnload.PassesUnderFileIff` | keyboard_interrupt_misc_device.c:173-177 | in any run, it can pass with a file open if and only if the guard was tested, files are open, the latest open or close was a close, and it is not stranded |
| `KeyLogUnload.PassesIff` | keyboard_interrupt_misc_device.c:173-177 | with no file open, it can pass if and only if it is not stranded |
| `KeyLogUnload.StrandedForever` | keyboard_interrupt_misc_device.c:107-108 | a stranded exit function never passes, whatever happens |
| `KeyLogRuns.DoneAlways` | keyboard_interrupt_misc_device.c:107-119 | until the exit function is past its wait, the completions pending are the closes since the latest open |
| `KeyLogRuns.TurnTakesOne` | keyboard_interrupt_misc_device.c:173-177 | a turn in the wait passes exactly when there is such a close, and takes one completion |
| `KeyLogRuns.LeavesOnce` | keyboard_interrupt_misc_device.c:173-178 | past its wait the exit function stays there until `misc_deregister`, which is the last step of all |
| `KeyLogUnload.HangExample` | keyboard_interrupt_misc_device.c:104-119 | without overlapping opens, a run that ends with all files closed, a completion pending, and the exit function asleep for good |
| `KeyLogUnload.GuardIsSafe` | keyboard_interrupt_misc_device.c:30-38 | with opens that do not overlap, it passes only when no file is open and no read is in progress |
| `KeyLogUnload.OverlapExample` | keyboard_interrupt_misc_device.c:173-177 | two overlapping opens and one close let it pass under a reader of any length |
| `KeyLogUnload.DeregistersUnderFileIff` | keyboard_interrupt_misc_device.c:173-178 | with opens that do not overlap, `misc_deregister` finds a file open if and only if one was opened after the guard was passed and not closed again |
| `KeyLogUnload.GapExample` | keyboard_interrupt_misc_device.c:173-178 | an open between guard and `misc_deregister` is such a run |
| `KeyLogDriver.Driver.OpenFile` | keyboard_interrupt_misc_device.c:87-110 | the open callback, emptying the completion's queue, is an open of the transition system |
| `KeyLogDriver.Driver.CloseFile` | keyboard_interrupt_misc_device.c:112-121 | the close callback, waking the first waiter in that queue, is a close of the transition system |
| `KeyLogDriver.Driver.HandleInterrupt` | keyboard_interrupt_misc_device.c:47-84 | the handler, storing into the array and waking all of `key_wait` at 0, is an interrupt of the transition system |
| `KeyLogDriver.Driver.WakeReaders` | keyboard_interrupt_misc_device.c:71-72 | a wake-up empties `key_wait` and wakes the reader exactly if it was there |
| `KeyLogDriver.Driver.BeginRead` | keyboard_interrupt_misc_device.c:123-127 | a read gets memory of its own, and the queues and counters stay |
| `KeyLogDriver.Driver.TestCondition` | keyboard_interrupt_misc_device.c:128-132 | one round of the wait passes at 0 and otherwise leaves the reader asleep in the queue |
| `KeyLogDriver.Driver.GetSignal` | keyboard_interrupt_misc_device.c:132-134 | a signal takes the reader out of the queue and the read returns -ERESTARTSYS |
| `KeyLogDriver.Driver.FinishRead` | keyboard_interrupt_misc_device.c:136-143 | the byte loop fills the user's buffer with the first `len` bytes and returns `len` as an `int`, or -EFAULT and nothing on a fault; either way the read is over |
| `KeyLogDriver.Driver.WaitForCompletion` | keyboard_interrupt_misc_device.c:173-177 | one round of the wait takes a pending completion, or sleeps, queued on entry only |
| `KeyLogDriver.Driver.DeregisterDevice` | keyboard_interrupt_misc_device.c:178 | deregistering, after guard and wait, ends the exit function and changes nothing else |
| `KeyLogDriver.RunDriver` | keyboard_interrupt_misc_device.c:47-180 | every possible run of the callbacks is a run of the transition system |
| `LinkRing.InitHead` | kernel_linked_list.c:31 | an initialised head is a ring of one |
| `LinkRing.ListAdd` | kernel_linked_list.c:40 | linking a new node between any two neighbours gives the ring with it at that place |
| `LinkRing.ListDel` | kernel_linked_list.c:58 | deleting any link of a longer ring leaves the ring of the others |
| `LinkRing.NextPrevInverse` | kernel_linked_list.c:31-50 | on a ring `next` and `prev` undo each other |
| `LinkRing.RingUnique` | kernel_linked_list.c:31-50 | the pointers determine the ring: two descriptions from the same link are equal |
| `KoolList.Build` | kernel_linked_list.c:31-42 | for every n, a ring of n + 1 distinct links: the head, then the entries in reverse order of insertion; entry j holds 10 + j and 20 j while 20 n fits an `int` |
| `KoolList.MadeMeaning` | kernel_linked_list.c:36-37 | the entry for i holds 10 + i and 20 i modulo 2^32, and exactly those while 20 i fits an `int` |
| `KoolList.ForEach` | kernel_linked_list.c:44-50 | the walk ends after exactly the other links of the ring, in order |
| `KoolList.HelloInit` | kernel_linked_list.c:23-53 | what is printed: 11 and 20, 12 and 40, and so on to 10 + n and 20 n, modulo 2^32, and exactly that while 20 n fits an `int` |
| `KoolList.AscendingIff` | kernel_linked_list.c:33-40 | `to` and `from` ascend in the listing if and only if the largest of them fits an `int` |
| `KoolList.DescendsExample` | kernel_linked_list.c:37 | with 107374183 entries the last `from` is negative |
| `KoolList.HelloExit` | kernel_linked_list.c:55-59 | unlinking the head leaves the entries as a ring of their own in the same cyclic order, data unchanged |
| `KoolList.AddThenDel` | kernel_linked_list.c:40-58 | linking in and deleting again restores every pointer |
| `TaskRing.WalkTasks` | thread_tree.c:57-103 | the do-while visits every task of the ring once, `init_task` first, and ends |
| `TaskRing.IterNext` | seq_file_procfs.c:33-43 | the iterator goes one link forward and never returns NULL |
| `TaskRing.IterShow` | seq_file_procfs.c:50-61 | it shows the task after the one it stands on |
| `TaskRing.IterateShows` | seq_file_procfs.c:22-61 | line j is the task j + 1 places after `current`, for every j |
| `TaskRing.OneLap` | seq_file_procfs.c:22-61 | as many lines as tasks show the ring once, from the successor of `current` round to `current` |
| `TaskRing.NeverEnds` | seq_file_procfs.c:22-43 | after each lap the same lines come again |
| `Vram.Progress` | hardware_map.c:28-69 | the position never moves back or leaves the window, a call returns 0 exactly at the end or for no bytes, and moves by what it returns |
| `Vram.Returns` | hardware_map.c:28-69 | for every call and fault, on a window of 0x20000 bytes: the return value, the position, and for a read exactly the bytes before the fault or all that fit |
| `Vram.WriteTwice` | hardware_map.c:49-69 | two writes in a row equal one write of both pieces |
| `Vram.ChunkedWrite` | hardware_map.c:49-69 | any cutting into chunks writes the same memory and ends at the same position as one call |
| `Vram.ChunkedRead` | hardware_map.c:28-48 | any cutting of a read delivers the same bytes and ends at the same position as one call |
| `Vram.RoundTrip` | hardware_map.c:28-69 | chunked reads after chunked writes from any start find the data as far as it fits, then the old contents; the memory is the old with just that data put in |
| `Vram.FaultForgotten` | hardware_map.c:60-68 | a fault leaves the position and overwrites just the bytes before it; the same write, repeated, ends as if it had never been |
| `Vram.SessionIsOneWrite` | hardware_map.c:49-69 | a session of writes, each faulting any number of times before it succeeds, equals the session without faults |
| `VramDevice.Device.MyWrite` | hardware_map.c:49-69 | the write loop: return value, position and whole memory, with every fault |
| `VramDevice.Device.MyRead` | hardware_map.c:28-48 | the read loop: return value, position and bytes delivered, with every fault |
| `VramDevice.Device.ReadToEnd` | hardware_map.c:28-48 | from any position, reading until 0 in pieces of any positive size ends and delivers all that is left of the window |
| `Decimal.DigitsAscend` | file_proc.c:45-46 | the ten digits are worth 0 to 9 in their order |
| `Decimal.ValueSnoc` | file_proc.c:46 | one more digit makes a number ten times as large and adds the digit |
| `Decimal.ValueOfPrint` | file_proc.c:52 | the printed digits of a number are worth that number |
| `Decimal.PrintOfValue` | file_proc.c:52 | a digit string without leading zeros is what its value prints as |
| `DigitRuns.TotalJoin` | file_proc.c:42-50 | a non-digit splits the sum of a text into the sums of its sides |
| `DigitRuns.TotalSplit` | file_proc.c:42-50 | the sum of a text is the runs its first part has closed plus the sum of that part's open run with the rest |
| `DigitRuns.ClosedIsTotal` | file_proc.c:42-50 | the sum of the maximal digit runs is the runs already ended plus the one still open |
| `Accumulator.WrapsOnce` | file_proc.c:42-50 | wrapping `num` and `sum` at every step equals wrapping them once at the end |
| `Accumulator.ExactlyTracks` | file_proc.c:42-50 | without wrapping, `num` is the open run and `sum` the closed ones |
| `Accumulator.LoopComputes` | file_proc.c:39-50 | whatever the buffer held before, the loop computes the sum of the numbers before the first NUL that end inside the buffer, modulo 2^64 |
| `Accumulator.CountsAllIff` | file_proc.c:32-50 | every number before the first NUL is counted if and only if the text ends inside the buffer, or what crosses and follows the buffer's end is worth 0 modulo 2^64 |
| `Accumulator.ShortAccumulates` | file_proc.c:32-50 | a NUL-free text of fewer than 1024 bytes is counted in full |
| `Accumulator.FullOfDigits` | file_proc.c:32-50 | 1024 digits count for nothing |
| `Accumulator.LostTail` | file_proc.c:32-50 | a digit behind 1024 other characters is lost |
| `Accumulator.JoinAdds` | file_proc.c:42-52 | joining two texts with a separator adds their results modulo 2^64 |
| `Accumulator.WriteBack` | file_proc.c:17-23 | writing back what was read gives the same value, for every `unsigned long` |
| `Accumulator.ResultFits` | file_proc.c:14 | `result[16]` holds a sum and its terminator exactly below 10^15 |
| `AccumulatorDevice.Device.ReadProc` | file_proc.c:17-23 | the page read is the held value's text with a newline, and accumulates to that value when written back |
| `AccumulatorDevice.Device.Scan` | file_proc.c:41-50 | the do-while leaves the sum of the loop on the buffer's contents |
| `AccumulatorDevice.Device.Sprintf` | file_proc.c:52 | printing overwrites just the text's characters and one terminator |
| `AccumulatorDevice.Device.WriteProc` | file_proc.c:25-55 | for every text and fault: the value held; the return value, the length up to 1024 or -14; and memory behind `result` touched exactly from 10^15 on |
| `AccumulatorDevice.Device.Echo` | file_proc.c:17-55 | feeding the device its own output leaves the value it holds |

## Left out

- Reads and writes of a node by the unlocked reader in the middle of a locked section: the reader's callbacks fall between locked sections here.
- Allocation failure, hooks still running during cleanup, and the stack depth of the recursive destructor.
- Sources longer than 15 characters passed to the exported `add_to_list_network`, which would overrun `addr[16]`.
- A reader's restart: `my_start` ignores `pos`, and one walk from start to NULL is modelled.
- The text layout of a shown line: a line is its address, count and kilobytes.
- KeyLogUnload.RegisteredAlways: `intr_registered` and the completion's count are unbounded here, because fewer than 2^31 files are open.
- KeyLogRead.InOrderIff: a read of 2^31 keys or more, or with more than 2^32 scancodes, is covered by `KeyLogRead.ReadReturns` alone, because `kmalloc` serves no such request.
- What else uses the memory after `kfree(kbuf)` or around the buffer: stores made there are told apart and recorded, and the next read starts with memory of its own.
- What open files do after `misc_deregister`: no step of the key logger happens then.
- Hooks racing for `sock_buff` and `ip_header` while a reader walks or a clear runs: `PacketRace.dfy` has hooks alone, and the other files take a hook's packet as its own.
- The bytes that a faulting `copy_to_user` of the key logger may have delivered before the fault, and the file position, which its reads advance and never look at.
- The interrupt causes that `testirq_read_intr_cause_register` never reports, and a failing `request_irq`.
- What else lives in the bytes behind `input_buf` and `result`: they are only cells of their own here.
- The walk over the children of kthreadd inside the loop of `thread_tree.c`: it is the list walk of `KoolList.ForEach` again.
- The unused `list2` links, registration with procfs, netfilter, the misc and character device layers, logging and stack dumps.
- Unwinding when `vram_init` fails half way: a handful of fixed paths.
- The repository's other modules: single branches, constant replies, thin wrappers, or drivers of kernel code that is not here.
