# KnoxOS kernel: verified models of its hardest components

This project models eight parts of the KnoxOS kernel in Dafny and proves what they do over every input, every run or
every reachable state.

| file | component |
|---|---|
| `ticket_lock.dfy`, `rw_spin_lock.dfy`, `seq_lock.dfy` | the SMP lock protocols, as transition systems over any number of threads |
| `io_request.dfy`, `deadline.dfy`, `deadline_ids.dfy`, `deadline_rules.dfy`, `fair_queue.dfy`, `starvation.dfy`, `cfq.dfy`, `bfq.dfy`, `kyber.dfy` | the I/O schedulers, as classes proved against functions on their state |
| `ept_flags.dfy`, `ept_identity.dfy`, `software_ept.dfy` | the hardware EPT that maps guest memory to itself, and the software EPT with guest RAM |
| `ebpf.dfy`, `ebpf_meaning.dfy`, `ebpf_alu32.dfy` | the eBPF verifier and interpreter, what each instruction means, and 32-bit arithmetic |
| `xdr.dfy`, `xdr_wire.dfy` | the XDR codec and RPC record marking of the NFS server |
| `semver.dfy` | semantic versions and release selection |
| `modules.dfy` | the kernel module registry and its dependency graph |
| `bits.dfy`, `options.dfy` | bitwise operations on naturals and powers of two; optional results |

`dafny verify dfyconfig.toml` checks everything.

## What the proofs establish

Where the code keeps its promise only under a bound or a condition, the theorem is an equivalence: the promise holds
if and only if the condition does, with a run or an input that breaks it on the other side.

- **Ticket lock** (`TicketLock.FairExactly`): one guard at a time, guards in ticket order and no overtaking by
  `try_lock`, on every run, exactly when at most 2^32 tickets are outstanding and fewer than 2^32 are drawn between a
  `try_lock`'s load and its compare-exchange.
- **Reader-writer lock** (`RwSpinLock.Exclusion`, `RwSpinLock.EncodingNeedsFewerThan2To31Threads`): a writer excludes
  everyone for any number of threads; the word encodes readers and writer faithfully exactly below 2^31 threads.
- **Sequence lock** (`SeqLock.NeverTearsExactly`): a read returns one whole value that was current during the read
  exactly when it overlaps fewer than 2^63 writes.
- **Deadline scheduler** (`DeadlineIds.SoundExactly`, `Deadline.RunExact`, `Deadline.ExpiredReadLatency`): at every
  point of a run, and after any dispatches from there, the two indices of each side agree and no request is lost or
  returned twice, exactly when no submission shares its id with a request still pending on its side, where only flushes
  and discards may share one. A read and a flush with one id are enough to lose the flush (`DeadlineIds.FlushLost`).
  Which request goes next is told from the requests alone (`DeadlineRules.RunDecides`).
- **CFQ and BFQ** (`FairQueue.RefinesExactly`, `Starvation.StarvationExactly`, `Bfq.RefinesExactly`,
  `Bfq.StarvationFree`): each process sees a plain FIFO exactly when every merged size fits in 32 bits. With at most p
  processes queued at once (p >= 2), k dispatches are enough for a queued one exactly when k >= p * (p - 1). BFQ's
  budgets (`Bfq.ExhaustsExactly`) change nothing but where a newcomer joins (`FairQueue.RewindInvisible`,
  `FairQueue.ArrivalSeesRewind`).
- **Kyber** (`Kyber.RunInv`, `Kyber.NeverStuck`, `Kyber.FastRecovers`, `Kyber.SlowShrinks`): depths, per-lane order
  and in-flight counts, the drift of the integer running average, and how depths adapt, over every run.
- **Hardware EPT** (`EptIdentity.Vmx.NewIdentity`): the tables built in memory translate every address to itself, and
  nothing else, exactly up to 524288 MiB. Beyond that the directory links run over the first directory, and the first
  guest page maps to another frame.
- **Software EPT** (`SoftwareEpt.RefinesExactly`, `SoftwareEpt.FetchReturnsLastWritten`): it is a page map exactly on
  sets of at most one 1 GiB region, because leaf tables are keyed by the directory index alone; guest RAM still returns
  the byte last written at every address.
- **eBPF** (`Ebpf.VerifierSound`, `Ebpf.ForwardOnlyTerminates`, `EbpfAlu32.SimulatesExactly`): an accepted program never
  leaves its text or names a missing register; without backward jumps it never reaches the step budget; 64-bit
  arithmetic cut to 32 bits is 32-bit arithmetic exactly for the opcodes other than division, remainder and shifts.
  Every condition and every operation is characterised by what a program that uses it returns
  (`EbpfMeaning.BranchExactly`, `EbpfMeaning.ComputesExactly`).
- **XDR and framing** (`Xdr.RoundTripExactly`, `Xdr.FramingExactly`): exact round trips, with the sizes at which they
  stop holding.
- **SemVer** (`SemVer.RoundTripExactly`, `SemVer.PrecedenceOrder`, `SemVer.LatestIsGreatest`): parsing undoes printing
  exactly when the prerelease has no plus sign; the accepted texts (`SemVer.ParsesExactly`) and the order
  (`SemVer.PrecedenceExactly`) are spelled out; the latest release is the last of the greatest.
- **Modules** (`Modules.RunSound`, `Modules.DrainExactly`): hard dependencies are always met and never cyclic; all
  removable modules can be unloaded one by one exactly when none is referenced, no built-in names one, and no chain
  of them, soft dependencies included, closes a cycle.

## Assumptions

- Threads interleave under sequential consistency, one step per atomic operation; `try_lock` and the
  compare-exchange loops are split into their loads and exchanges, and the sequence lock copies word by word.
- Arithmetic wraps as in the release profile, which sets no overflow checks (Cargo.toml:16). Widths are written out
  where a result depends on them: tickets, the lock word, the sequence counter, merged sizes, program counters,
  registers, guest addresses, XDR and record lengths.
- The clock is a parameter of submit and dispatch; only the latency results ask that it does not run backwards. The
  results of eBPF helpers are an arbitrary function of the step, the helper number and the registers. The lockdown
  policy's answer is a parameter of `insert_module`.
- The pool of physical pages behind the hardware EPT holds arbitrary contents before a page is allocated.

Where the code and its comments differ the model follows the code: a starved write does not reset `writes_starved`
(kernel/src/io_sched.rs:324-326), and removing a drained process shifts the round-robin list under `rr_index`
(kernel/src/io_sched.rs:489-494).

## Model

| member | source | states |
|---|---|---|
| TicketLock.InvStep | kernel/src/rwlock.rs:36-85 | within the bounds every atomic step keeps the ticket invariant, a grant goes to the ticket being served, and a winning `try_lock` found the lock free with nobody waiting |
| TicketLock.InvAt | kernel/src/rwlock.rs:36-85 | the invariant holds in every state of every bounded run |
| TicketLock.InvExclusive | kernel/src/rwlock.rs:36-85 | under the invariant at most one thread holds a guard |
| TicketLock.HeldUntilServed | kernel/src/rwlock.rs:81-85 | a granted ticket stays held until `now_serving` has moved past it |
| TicketLock.GrantOrder | kernel/src/rwlock.rs:36-55 | of two grants the earlier one has the smaller ticket |
| TicketLock.LockExactly | kernel/src/rwlock.rs:36-42 | in every bounded run a waiter's turn has come exactly when nobody holds the lock or waits with an earlier ticket, and it then gets the lock |
| TicketLock.TryLockExactly | kernel/src/rwlock.rs:44-55 | an undisturbed `try_lock` gets the lock exactly when nobody holds it or waits for it, and otherwise changes nothing |
| TicketLock.ReleaseExactly | kernel/src/rwlock.rs:81-85 | dropping the guard makes its thread idle, moves nobody else and lets the next ticket in |
| TicketLock.FairWhenBounded | kernel/src/rwlock.rs:36-85 | a bounded run keeps all three promises: one guard, ticket order, no overtaking |
| TicketLock.StaleCasBreaks | kernel/src/rwlock.rs:44-55 | once 2^32 tickets may pass between load and exchange, a run exists in which a stale `try_lock` enters a held lock |
| TicketLock.CrowdBreaks | kernel/src/rwlock.rs:36-42 | with more than 2^32 outstanding tickets a run exists with two guards |
| TicketLock.FairExactly | kernel/src/rwlock.rs:36-85 | all runs are fair if and only if at most 2^32 tickets are outstanding and fewer than 2^32 pass during a `try_lock` |
| RwSpinLock.InvStep | kernel/src/rwlock.rs:110-213 | every atomic step keeps the link between the word, the readers and the writer, also when the count carries into bit 31 |
| RwSpinLock.InvAt | kernel/src/rwlock.rs:110-213 | the invariant holds in every state of every run with any number of threads |
| RwSpinLock.Exclusion | kernel/src/rwlock.rs:110-175 | a write guard never coexists with a read guard, another write guard or a second waiting writer |
| RwSpinLock.EncodesExactly | kernel/src/rwlock.rs:87-101 | in a reachable state the low 31 bits count the readers and bit 31 says there is one writer exactly when fewer than 2^31 read guards live |
| RwSpinLock.EncodingNeedsFewerThan2To31Threads | kernel/src/rwlock.rs:110-123 | the encoding holds in every reachable state of n threads if and only if n < 2^31 |
| RwSpinLock.DrainExactly | kernel/src/rwlock.rs:125-144 | a waiting writer gets in exactly when no reader is left |
| RwSpinLock.TryWriteExactly | kernel/src/rwlock.rs:159-172 | in every reachable state `try_write` returns a guard exactly when no thread reads, waits to write or writes, and otherwise changes nothing |
| RwSpinLock.ExchangeExactly | kernel/src/rwlock.rs:110-157 | the exchange of `read`, `try_read` and `write` enters exactly when the loaded value showed no writer, the word still has it and the failure is not spurious; otherwise the word is untouched |
| RwSpinLock.AloneExactly | kernel/src/rwlock.rs:110-157 | an undisturbed call enters exactly when no writer waits or is inside and fewer than 2^31 threads read |
| RwSpinLock.DropExactly | kernel/src/rwlock.rs:184-213 | dropping a guard makes its thread idle and moves nobody else; after a write guard's drop the lock is free |
| RwSpinLock.ReadersOnlyLeave | kernel/src/rwlock.rs:110-144 | while bit 31 stays set the set of readers only shrinks |
| RwSpinLock.CrowdReached | kernel/src/rwlock.rs:110-123 | any number of readers up to 2^31 can hold the lock at once |
| SeqLock.InvStep | kernel/src/rwlock.rs:239-272 | every step keeps the writer invariant, the counter only advances, and the data is untouched while it is even |
| SeqLock.InvAt | kernel/src/rwlock.rs:239-272 | the invariant holds in every state of every run |
| SeqLock.StableIsWritten | kernel/src/rwlock.rs:257-272 | whenever the counter is even the data is the initial value or one finished write's whole argument |
| SeqLock.CopyTracks | kernel/src/rwlock.rs:239-254 | while the counter has not moved since its first load, a reader's buffer is a prefix of unchanged data |
| SeqLock.LoadExactly | kernel/src/rwlock.rs:239-246 | a reader starts copying exactly when no write is in progress, and otherwise loads again |
| SeqLock.CheckExactly | kernel/src/rwlock.rs:246-254 | a reader returns exactly when the counter moved by a multiple of 2^64 since its first load, and otherwise starts over |
| SeqLock.ReturnedWhole | kernel/src/rwlock.rs:239-254 | a read that returns within the bound returns a whole value current at an instant inside its last attempt |
| SeqLock.TornRead | kernel/src/rwlock.rs:239-272 | with 2^63 overlapping writes allowed, a run exists in which a read returns a mix never stored |
| SeqLock.WholeWhenBounded | kernel/src/rwlock.rs:239-272 | data of any size is read whole when fewer than 2^63 writes overlap an attempt |
| SeqLock.NeverTearsExactly | kernel/src/rwlock.rs:239-272 | for two words or more, no run tears a read if and only if fewer than 2^63 writes overlap an attempt |
| Deadline.Position | kernel/src/io_sched.rs:270-274 | the insertion point: everything before it is smaller (or equal), the element at it is not |
| Deadline.FindPosition | kernel/src/io_sched.rs:270-274 | the search loop finds that point |
| Deadline.FindNext | kernel/src/io_sched.rs:341-356 | the elevator's choice: first at or beyond the head, else the first |
| Deadline.Retain | kernel/src/io_sched.rs:377-384 | the filter loop drops every request with the id and keeps the rest in order |
| Deadline.DeadlineScheduler.constructor | kernel/src/io_sched.rs:247-263 | a new scheduler is empty |
| Deadline.DeadlineScheduler.Submit | kernel/src/io_sched.rs:265-296 | the object ends in the specified state: deadline stamped, FIFO extended, sorted insertion for reads and writes only |
| Deadline.DeadlineScheduler.Dispatch | kernel/src/io_sched.rs:298-339 | the object follows the specified rule order and returns the specified request |
| Deadline.DeadlineScheduler.DispatchFromSorted | kernel/src/io_sched.rs:341-375 | the elevator step on either side, as specified |
| Deadline.WithoutAt | kernel/src/io_sched.rs:377-384 | where no other entry has its id, removal by id removes exactly one position |
| Deadline.SubmitAgrees | kernel/src/io_sched.rs:265-296 | submitting a request whose id does not clash on its own side keeps both indices of both sides in agreement |
| Deadline.DispatchTakes | kernel/src/io_sched.rs:298-384 | every rule takes the returned request out of both indices of its side and leaves the other side alone |
| Deadline.TakeAgrees | kernel/src/io_sched.rs:298-384 | such a removal keeps agreement and removes exactly that request from the pending ones |
| Deadline.PlayExact | kernel/src/io_sched.rs:265-384 | agreement and exactly-once accounting survive any clash-free continuation |
| Deadline.RunExact | kernel/src/io_sched.rs:265-384 | over every clash-free run: `write_sorted` permutes `write_fifo`, `read_sorted` permutes the reads of `read_fifo`, both are ordered by sector, and accepted = pending + returned |
| Deadline.DistinctIdsClashFree | kernel/src/io_sched.rs:265-384 | a run with distinct ids is clash-free |
| Deadline.WorkConserving | kernel/src/io_sched.rs:298-392 | after a clash-free run with zero flush deadlines dispatch returns nothing exactly when nothing is pending |
| DeadlineIds.ClashBreaks | kernel/src/io_sched.rs:265-384 | after a submission that clashes there is a row of dispatches that leaves the indices in disagreement or a request lost |
| DeadlineIds.SoundExactly | kernel/src/io_sched.rs:265-384 | agreement, sector order and exactly-once accounting hold at every point of a run and after any dispatches from there, if and only if the run is clash-free |
| DeadlineIds.FlushLost | kernel/src/io_sched.rs:358-368 | a read and a flush with one id: the dispatch that returns the read empties all four lists |
| Deadline.ExpiredInOrder | kernel/src/io_sched.rs:298-311 | while the first n FIFO entries are expired, dispatches return exactly those in order whatever is submitted |
| Deadline.ExpiredReadLatency | kernel/src/io_sched.rs:298-311 | after any run with a non-decreasing clock, an expired read with k entries ahead is returned by the (k+1)-th dispatch |
| DeadlineRules.AcceptedAre | kernel/src/io_sched.rs:265-296 | the accepted requests are the submitted ones in order, reads due 500 ms after submission, writes 5000 ms after, others as given |
| DeadlineRules.FollowRun | kernel/src/io_sched.rs:298-375 | after any clash-free run the starvation counter and the head are those told from the returned requests alone |
| DeadlineRules.RunDecides | kernel/src/io_sched.rs:298-375 | after any clash-free run dispatch returns the oldest read-side entry if due, else the oldest write if due, else the nearest write if two reads went ahead or no read waits, else the nearest read, else nothing |
| DeadlineRules.FewReadsWhileWritesWait | kernel/src/io_sched.rs:322-339 | after any clash-free run, while a write is pending and none is returned, at most two reads that are not due are returned, fewer if some already went ahead |
| Deadline.ElevatorOrder | kernel/src/io_sched.rs:341-375 | a dispatch by sector, of either side, returns that side's nearest request at or beyond the head, or the lowest of all when none is, and moves the head behind it |
| FairQueue.MergeExact | kernel/src/io_sched.rs:127-140 | a back merge keeps every sector in order if and only if the merged size fits in 32 bits |
| FairQueue.SubmitExactly | kernel/src/io_sched.rs:434-461 | a request that starts where its process's last one ends, in the same direction and class, lengthens it; any other joins its queue's end; a new process joins the list's end and nothing else moves |
| FairQueue.SubmitUnits | kernel/src/io_sched.rs:434-461 | a submission adds exactly its own sectors to its process's queue if and only if its merge, if any, fits |
| FairQueue.SubmitValid | kernel/src/io_sched.rs:434-461 | submitting keeps the round-robin list equal to the non-empty queues without repeats |
| FairQueue.DispatchValid | kernel/src/io_sched.rs:463-513 | dispatching keeps it too, returns the head of the chosen queue, and returns nothing only when the list is empty |
| FairQueue.EmptyAgrees | kernel/src/io_sched.rs:515-517 | all queues are empty exactly when the list is |
| FairQueue.PlayValid | kernel/src/io_sched.rs:434-513 | the list invariant holds after every run |
| FairQueue.NoneExactlyWhenEmpty | kernel/src/io_sched.rs:463-517 | after any run dispatch returns nothing exactly when `is_empty` holds |
| FairQueue.RefinesExactly | kernel/src/io_sched.rs:434-513 | at every point of a run each process's returned plus pending sectors are its submitted sectors in order, if and only if every merge so far fitted |
| FairQueue.RunConserves | kernel/src/io_sched.rs:434-498 | submitted minus merged requests equal returned plus pending ones |
| FairQueue.DispatchPatience | kernel/src/io_sched.rs:463-513 | a dispatch that passes a process by strictly decreases its remaining patience |
| FairQueue.PatienceRunsOut | kernel/src/io_sched.rs:463-513 | the number of dispatches that pass a process by is at most its patience, whatever arrives |
| FairQueue.StarvationFree | kernel/src/io_sched.rs:463-513 | with at most p >= 2 processes queued at once, a queued process is served within p * (p - 1) dispatches; with one, by the first |
| Starvation.ClimbStarves | kernel/src/io_sched.rs:485-513 | from any full list of p processes, the one at place q can be passed by as often as its bound allows, by draining its neighbour each round |
| Starvation.SlowRun | kernel/src/io_sched.rs:434-513 | for every p a CFQ run from the empty scheduler whose p * (p - 1) - 1 dispatches never serve a queued process |
| Starvation.StarvationExactly | kernel/src/io_sched.rs:434-513 | over all CFQ runs with at most p >= 2 processes queued, k dispatches serve every queued one if and only if k >= p * (p - 1) |
| FairQueue.SameTurnStep | kernel/src/io_sched.rs:500-513 | a dispatch gives the same request whether or not the index was rewound at the end of the list |
| FairQueue.RewindInvisible | kernel/src/io_sched.rs:639-666 | any row of dispatches without arrivals returns the same requests under every choice of rewinding, so BFQ's budgets change nothing between arrivals |
| FairQueue.ArrivalSeesRewind | kernel/src/io_sched.rs:639-666 | an arrival does see it: after a dispatch at the end of the list the newcomer is next unless the index was rewound |
| Cfq.RetainOthers | kernel/src/io_sched.rs:489-494 | the filter loop removes the drained process from the list |
| Cfq.CfqScheduler.constructor | kernel/src/io_sched.rs:423-432 | a new scheduler is empty |
| Cfq.CfqScheduler.Submit | kernel/src/io_sched.rs:434-461 | the object performs the fair queue's submission |
| Cfq.CfqScheduler.Dispatch | kernel/src/io_sched.rs:463-498 | the object performs the fair queue's dispatch without rewinding |
| Cfq.CfqScheduler.SelectNextPid | kernel/src/io_sched.rs:500-513 | the round-robin choice, wrapping past the end of the list |
| Bfq.SubmitRefines | kernel/src/io_sched.rs:574-605 | forgetting budgets, a BFQ submission is a fair-queue submission |
| Bfq.DispatchRefines | kernel/src/io_sched.rs:607-666 | forgetting budgets, a BFQ dispatch is a fair-queue dispatch that rewinds exactly as the budget decides |
| Bfq.RunRefines | kernel/src/io_sched.rs:574-666 | every BFQ run is a fair-queue run with the same queues, list and index and the same requests submitted, merged and returned |
| Bfq.NoneExactlyWhenEmpty | kernel/src/io_sched.rs:607-670 | after any BFQ run dispatch returns nothing exactly when `is_empty` holds |
| Bfq.RunConserves | kernel/src/io_sched.rs:574-654 | over every BFQ run submitted minus merged requests equal returned plus pending ones |
| Bfq.RefinesExactly | kernel/src/io_sched.rs:574-654 | at every point of a BFQ run each process's returned plus pending sectors are its submitted sectors in order, if and only if every merge so far fitted |
| Bfq.StarvationFree | kernel/src/io_sched.rs:607-666 | with at most p >= 2 processes queued at once, a process queued in BFQ is served within p * (p - 1) dispatches, however budgets run out |
| Bfq.WeighsExactly | kernel/src/io_sched.rs:565-572 | the weight of every priority: 500 less 50 a level in 32 bits, 200 less 25 a level down to 100, 10, or 100 |
| Bfq.RunBudgets | kernel/src/io_sched.rs:529-654 | in every run each queue has the weight of the request that opened it and the budget of that weight, and has used just the sectors served since it was granted |
| Bfq.ExhaustsExactly | kernel/src/io_sched.rs:615-650 | in every run the next dispatch uses up its queue's budget exactly when spent and requested sectors reach 128 per hundred of weight |
| Bfq.BfqScheduler.constructor | kernel/src/io_sched.rs:552-563 | a new scheduler is empty |
| Bfq.BfqScheduler.Submit | kernel/src/io_sched.rs:574-605 | the object performs the specified submission and counts submitted and merged requests |
| Bfq.BfqScheduler.Dispatch | kernel/src/io_sched.rs:607-666 | the object performs the specified dispatch |
| Kyber.KyberScheduler.constructor | kernel/src/io_sched.rs:704-719 | a new scheduler is empty with depths 256 and 128 |
| Kyber.KyberScheduler.Submit | kernel/src/io_sched.rs:721-729 | the object queues the request in its lane |
| Kyber.KyberScheduler.Dispatch | kernel/src/io_sched.rs:731-759 | reads before writes before discards, each within its depth |
| Kyber.KyberScheduler.Complete | kernel/src/io_sched.rs:762-794 | the object tunes depth, in-flight count and latencies as specified |
| Kyber.AverageStep | kernel/src/io_sched.rs:784-793 | one integer averaging step adds at most n to the accumulated error and never makes it negative |
| Kyber.AverageBelowMax | kernel/src/io_sched.rs:784-793 | the average never exceeds the maximum |
| Kyber.InvStep | kernel/src/io_sched.rs:721-794 | every operation keeps depths in 1..1024 and 1..512, per-lane FIFO order, in-flight = dispatched - completed, and the averaging error within n(n-1)/2 |
| Kyber.RunInv | kernel/src/io_sched.rs:721-794 | those facts hold along every run that completes each request at most once |
| Kyber.NeverStuck | kernel/src/io_sched.rs:731-759 | a non-empty lane with nothing in flight means the next dispatch returns a request |
| Kyber.DispatchPriority | kernel/src/io_sched.rs:731-759 | in every run a dispatched request heads its own lane, and each lane before it is empty or at its depth |
| Kyber.FastRecovers | kernel/src/io_sched.rs:762-780 | between any two points of a run, fast completions in a lane raise its depth by exactly one each up to its cap, whatever else happens |
| Kyber.FastFromStart | kernel/src/io_sched.rs:704-780 | with only fast completions a lane's depth is its initial 256 or 128 plus one for each, up to 1024 or 512 |
| Kyber.SlowCuts | kernel/src/io_sched.rs:766-780 | in every run a completion slower than 2000 or 10000 microseconds leaves three quarters of its lane's depth, rounded down but at least one, and nothing else lowers a depth |
| Kyber.SlowShrinks | kernel/src/io_sched.rs:762-780 | between any two points of a run n slow completions in a lane leave at most (3/4)^n of its depth, unless one is left, and no less than that minus four |
| EptIdentity.TableEntryValue | kernel/src/vmx.rs:743-750 | or-ing the rights into an aligned table address adds 7 |
| EptIdentity.LeafEntryValue | kernel/src/vmx.rs:771-783 | or-ing rights, memory type and page size into a 2 MiB frame adds 183 |
| EptIdentity.TranslateOne | kernel/src/vmx.rs:728-794 | under the built tables the processor's walk maps an address below the memory size to itself with full rights and write-back, and finds any other not present |
| EptIdentity.TablesTranslate | kernel/src/vmx.rs:728-794 | the same for every guest address, up to 524288 MiB |
| EptIdentity.NothingAbove512G | kernel/src/vmx.rs:728-794 | above that size nothing from 512 GiB on is mapped |
| EptIdentity.AstrayWalk | kernel/src/vmx.rs:753-768 | once the links have run over the first directory, every address of the first guest page maps to some other address |
| EptIdentity.TurnKeeps | kernel/src/vmx.rs:753-786 | a turn of the outer loop extends the tables while the links fit in their page; the 513th overwrites the first directory for good |
| EptIdentity.Vmx.AllocPage | kernel/src/vmx.rs:65-75 | the next page is handed out zeroed and no other word of memory changes |
| EptIdentity.Vmx.FillDirectory | kernel/src/vmx.rs:768-786 | the inner loop writes exactly the large pages of one directory |
| EptIdentity.Vmx.BuildDirectory | kernel/src/vmx.rs:755-786 | one turn of the outer loop writes one link and one directory and changes no other word below it |
| EptIdentity.Vmx.BuildDirectories | kernel/src/vmx.rs:753-786 | the outer loop builds the tables of every directory and leaves memory below the root untouched |
| EptIdentity.Vmx.NewIdentity | kernel/src/vmx.rs:728-794 | the built tables are the identity map if and only if memory is at most 524288 MiB, and beyond that lose the first guest page; memory below the pool position is untouched |
| EptIdentity.EptpFields | kernel/src/vmx.rs:797-799 | the pointer decodes to write-back, four levels and the root table |
| SoftwareEpt.BuildDescribes | kernel/src/kvm.rs:249-261 | after any mappings the upper tables record the used indices and each leaf entry the last mapping that aliases it |
| SoftwareEpt.WalkExact | kernel/src/kvm.rs:263-284 | exactly what a walk returns after any sequence of mappings anywhere |
| SoftwareEpt.WalkNeedsRead | kernel/src/kvm.rs:263-284 | whatever the tables hold, an address translates exactly when its leaf table exists and all four entries have the read bit, to the leaf's frame and the page offset |
| SoftwareEpt.OneRegionRefines | kernel/src/kvm.rs:249-284 | inside one 1 GiB region the walk is the last frame mapped for that page plus the offset, or nothing |
| SoftwareEpt.TwoRegionsClash | kernel/src/kvm.rs:229-261 | for any two regions there are two mappings that make an unmapped page translate |
| SoftwareEpt.RefinesExactly | kernel/src/kvm.rs:229-284 | the tables are a page map on a set of regions if and only if it has at most one |
| SoftwareEpt.EptTables.Map | kernel/src/kvm.rs:249-261 | the object performs the specified mapping |
| SoftwareEpt.MapGrows | kernel/src/kvm.rs:249-284 | a mapping makes its page walkable and takes no translation away |
| SoftwareEpt.VirtualMachine.WriteGuest | kernel/src/kvm.rs:436-446 | the write loop maps and stores byte by byte as specified, wrapping addresses included |
| SoftwareEpt.StoredBytes | kernel/src/kvm.rs:436-446 | a write stores each of its bytes and leaves every other byte of guest RAM unchanged |
| SoftwareEpt.StoredWalkable | kernel/src/kvm.rs:436-446 | every byte ever stored lies on a page that walks |
| SoftwareEpt.FetchNeedsWalk | kernel/src/kvm.rs:448-451 | a byte comes back exactly when it is stored and its address walks |
| SoftwareEpt.FetchReturnsLastWritten | kernel/src/kvm.rs:436-451 | after any writes anywhere, fetching an address returns the byte last written there or nothing |
| Ebpf.VerifyProgram | kernel/src/ebpf.rs:313-346 | the checking loop accepts exactly the programs whose registers exist, whose jumps land inside, and which end in EXIT |
| Ebpf.ProgLoad | kernel/src/ebpf.rs:287-310 | a program loads exactly when it has at most 4096 instructions and is accepted |
| Ebpf.Execute | kernel/src/ebpf.rs:406-503 | the interpreter loop computes the specified outcome from any registers and program counter |
| Ebpf.JumpThenIncrement | kernel/src/ebpf.rs:459-500 | a checked jump lands on its target although the counter may pass through its largest value |
| Ebpf.StepSafe | kernel/src/ebpf.rs:406-503 | one step of an accepted program ends it or moves on, or to a checked target, inside the program |
| Ebpf.VerifierSound | kernel/src/ebpf.rs:313-346 | an accepted program ends only by EXIT, an invalid opcode or the step budget, for any registers and helper results |
| Ebpf.ForwardVisits | kernel/src/ebpf.rs:406-503 | without backward jumps the visited program counters strictly increase |
| Ebpf.ForwardEnds | kernel/src/ebpf.rs:406-503 | such a program with enough budget left ends by EXIT or an invalid opcode |
| Ebpf.ForwardOnlyTerminates | kernel/src/ebpf.rs:292-299 | a loaded program without backward jumps visits each instruction at most once and never exhausts the budget |
| Ebpf.SpinAccepted | kernel/src/ebpf.rs:313-346 | a program that loops forever is accepted |
| Ebpf.SpinHitsBudget | kernel/src/ebpf.rs:406-503 | and only the budget ends it |
| EbpfMeaning.BranchExactly | kernel/src/ebpf.rs:456-498 | every conditional jump is taken exactly when its condition holds, unsigned, signed, equal, or a common bit, for all registers and immediates |
| EbpfMeaning.PicksLargest | kernel/src/ebpf.rs:456-498 | a program that jumps on above returns the larger of two registers, on below the smaller, signed or not |
| EbpfMeaning.ComputesExactly | kernel/src/ebpf.rs:420-455 | every arithmetic opcode yields its sum, difference, product, quotient, bits, shift or negation in 64 bits, cut to 32 in the 32-bit class, with the zero-divisor results; any other opcode is invalid |
| EbpfMeaning.CallExactly | kernel/src/ebpf.rs:459-463 | a call returns the helper's result in r0 |
| EbpfMeaning.JumpExactly | kernel/src/ebpf.rs:464-466 | a plain jump is always taken |
| EbpfMeaning.OthersSkip | kernel/src/ebpf.rs:495-500 | instructions of the other classes change nothing |
| EbpfMeaning.UnusedSkips | kernel/src/ebpf.rs:467-493 | an unused jump opcode on an immediate changes nothing, whatever register and offset it names |
| EbpfAlu32.AgreesAlways | kernel/src/ebpf.rs:420-455 | for the truncating opcodes the low half of the 64-bit result is the 32-bit result, for all operands |
| EbpfAlu32.Disagrees | kernel/src/ebpf.rs:420-455 | every other opcode has operands on which they differ |
| EbpfAlu32.SimulatesExactly | kernel/src/ebpf.rs:420-455 | an opcode simulates 32-bit arithmetic if and only if it is none of division, remainder and the shifts |
| EbpfAlu32.OneStep | kernel/src/ebpf.rs:420-455 | one ALU instruction, with register or sign-extended immediate operand, matches the 32-bit machine in every register |
| EbpfAlu32.StraightLineSimulates | kernel/src/ebpf.rs:406-455 | after n instructions of a straight-line ALU program every register's low half is the 32-bit machine's register |
| Xdr.Be32RoundTrip | kernel/src/nfs_server.rs:1252-1302 | the four big-endian bytes of a word rebuild it |
| Xdr.XdrEncoder.PutU32 | kernel/src/nfs_server.rs:1252-1254 | appends the encoded word |
| Xdr.XdrEncoder.PutU64 | kernel/src/nfs_server.rs:1256-1258 | appends the encoded double word |
| Xdr.XdrEncoder.PutBytes | kernel/src/nfs_server.rs:1260-1268 | appends length, bytes and zero padding |
| Xdr.XdrDecoder.NextU32 | kernel/src/nfs_server.rs:1290-1302 | reads a word and advances, or fails in place |
| Xdr.XdrDecoder.NextU64 | kernel/src/nfs_server.rs:1304-1308 | reads two words; a failure of the second keeps the first one's advance |
| Xdr.XdrDecoder.NextBytes | kernel/src/nfs_server.rs:1310-1321 | reads length and bytes and skips the padding, or fails after the length |
| Xdr.GetEncoded | kernel/src/nfs_server.rs:1241-1321 | wherever an encoded item stands, the matching getter returns it and stops right behind it |
| Xdr.OversizeLost | kernel/src/nfs_server.rs:1260-1268 | an opaque item of 2^32 bytes or more never comes back |
| Xdr.RoundTripExactly | kernel/src/nfs_server.rs:1241-1327 | decoding an encoded list returns it and consumes every byte if and only if every opaque item is below 2^32 bytes |
| Xdr.Aligned | kernel/src/nfs_server.rs:1260-1268 | any encoded list, hence every item's offset, is a multiple of 4 bytes |
| Xdr.FrameReply | kernel/src/nfs_server.rs:1395-1400 | builds the record; below 2^31 bytes the TCP side gets the reply back |
| Xdr.UnframeFrame | kernel/src/nfs_server.rs:1452-1461 | whatever follows on the stream, the TCP side returns the body cut to its length modulo 2^31 |
| Xdr.FramingExactly | kernel/src/nfs_server.rs:1395-1461 | record marking is undone if and only if the body is below 2^31 bytes |
| XdrWire.NumbersOnWire | kernel/src/nfs_server.rs:1252-1258 | a word is its four bytes and a double word its eight, most significant first |
| XdrWire.OpaqueOnWire | kernel/src/nfs_server.rs:1260-1268 | opaque data is its length as a word, its bytes, and zeros up to the next multiple of four |
| XdrWire.WordFromWire | kernel/src/nfs_server.rs:1290-1302 | on any bytes a word is the next four, or the getter fails and stays |
| XdrWire.LongFromWire | kernel/src/nfs_server.rs:1304-1308 | on any bytes a double word is the next eight, or the getter fails after the words that were there |
| XdrWire.OpaqueFromWire | kernel/src/nfs_server.rs:1310-1321 | on any bytes opaque data is as long as its length word says, with the padding skipped, or the getter fails after the length |
| XdrWire.RecordOnWire | kernel/src/nfs_server.rs:1395-1400 | a record starts with a word whose top bit is set and whose rest is the length, and then holds the body |
| XdrWire.RecordFromWire | kernel/src/nfs_server.rs:1447-1462 | on any bytes the TCP side ignores the top bit, takes as many bytes as the rest says, and fails when they are not all there |
| SemVer.PlainRoundTrip | kernel/src/release_sign.rs:46-130 | a version whose prerelease has no plus sign prints to a text that parses to it |
| SemVer.PlusCutsPrerelease | kernel/src/release_sign.rs:46-78 | any other version does not |
| SemVer.RoundTripExactly | kernel/src/release_sign.rs:46-130 | parse undoes print if and only if the prerelease has no plus sign |
| SemVer.ParsedRoundTrips | kernel/src/release_sign.rs:46-130 | every parsed version satisfies that condition and survives printing and parsing |
| SemVer.NumberExactly | kernel/src/release_sign.rs:60-70 | a number is accepted exactly when it is 32-bit and spelled in digits, after at most one plus sign |
| SemVer.ParsesExactly | kernel/src/release_sign.rs:46-78 | parsing accepts exactly three dotted numbers with an optional prerelease after a dash and build after a plus sign, and returns that version |
| SemVer.PrintsExactly | kernel/src/release_sign.rs:119-130 | printing writes that text, numbers without leading zeros |
| SemVer.StringOrder | kernel/src/release_sign.rs:81-101 | prerelease comparison is antisymmetric and equal only on equal strings |
| SemVer.StringTransitive | kernel/src/release_sign.rs:81-101 | and transitive |
| SemVer.PrecedenceOrder | kernel/src/release_sign.rs:81-101 | precedence is a total preorder that identifies exactly the versions equal up to build metadata |
| SemVer.PrecedenceExactly | kernel/src/release_sign.rs:81-101 | a version ranks below another exactly when its numbers come first, or they are equal and it is a prerelease of that release, or both are prereleases and its text is a proper prefix or has the smaller character at the first difference |
| SemVer.LatestIsGreatest | kernel/src/release_sign.rs:570-577 | the latest release exists exactly when the channel has one, and is the last of those that rank below no other |
| SemVer.ReleaseBeatsPrerelease | kernel/src/release_sign.rs:570-577 | a channel that holds a release never answers with a prerelease of the same numbers |
| Modules.ModuleRegistry.constructor | kernel/src/modules.rs:41-43 | the registry starts empty |
| Modules.ModuleRegistry.InsertModule | kernel/src/modules.rs:66-103 | the object inserts or refuses as specified, with the error of the first bad dependency |
| Modules.ModuleRegistry.RemoveModule | kernel/src/modules.rs:106-133 | the object removes or refuses as specified |
| Modules.ModuleRegistry.AddBuiltin | kernel/src/modules.rs:46-63 | registers or replaces a built-in with any hard or soft dependencies |
| Modules.ModuleRegistry.Start | kernel/src/modules.rs:201-298 | registers the nineteen built-ins in order |
| Modules.ModuleRegistry.AddElfModule | kernel/src/modules.rs:531-547 | registers or replaces the loaded image's entry |
| Modules.InsertExactly | kernel/src/modules.rs:66-103 | a module gets in exactly when the policy allows it or it is built in, its name is free and every hard dependency is loaded and live or built in; otherwise nothing changes and the error names the first of these that fails |
| Modules.RemoveExactly | kernel/src/modules.rs:106-133 | a module gets out exactly when it is loaded, not built in, unreferenced and named by nobody; otherwise nothing changes and the error names the first of these that fails |
| Modules.InitExactly | kernel/src/modules.rs:201-298 | over any registry the nineteen built-ins are registered with their dependencies, and no other name is touched |
| Modules.LoadElfExactly | kernel/src/modules.rs:531-547 | a loaded image is the live module `gate_ko` without dependencies or references, and nothing else changes |
| Modules.ReplaceRanked | kernel/src/modules.rs:46-63 | replacing a module by one that depends only on a closed base without it cannot close a cycle |
| Modules.InsertInv | kernel/src/modules.rs:66-103 | an insertion keeps every hard dependency met and the graph acyclic |
| Modules.RemoveInv | kernel/src/modules.rs:106-133 | so does a removal |
| Modules.InitInv | kernel/src/modules.rs:201-298 | so does registering the built-ins over any registry, early or late |
| Modules.LoadElfInv | kernel/src/modules.rs:543-547 | so does the unconditional insertion of a loaded image |
| Modules.RankedAcyclic | kernel/src/modules.rs:66-103 | a numbering that falls along dependencies rules out every cyclic chain |
| Modules.RunInv | kernel/src/modules.rs:46-133 | the invariant holds after every run of the four operations |
| Modules.RunSound | kernel/src/modules.rs:46-133 | in every reachable registry each hard dependency is loaded and usable and no chain of them is cyclic |
| Modules.InsertThenRemove | kernel/src/modules.rs:66-133 | a module just inserted can be removed exactly when it is unreferenced, not built in and named by nobody, and removal restores the registry |
| Modules.Topmost | kernel/src/modules.rs:106-133 | in a finite registry without such cycles, following dependents back from any module ends at one that nothing names |
| Modules.SomeRemovable | kernel/src/modules.rs:106-133 | in a drainable registry some non-built-in module is removable until none remain, and the rest stays drainable |
| Modules.DrainExactly | kernel/src/modules.rs:106-133 | all non-built-in modules can be unloaded one by one if and only if none is referenced, no built-in names one, and no chain of them along hard or soft dependencies closes a cycle |
| Modules.HardDrainExactly | kernel/src/modules.rs:66-133 | in a reachable registry without soft dependencies or references the only remaining condition is that no built-in names a removable module |
| Modules.BuiltinPins | kernel/src/modules.rs:66-103 | a reachable registry in which that condition fails and a module stays for good |
| Modules.SoftSelfPins | kernel/src/modules.rs:106-133 | a module with a soft dependency on itself can be inserted and never removed |

## Left out

- Locks: memory-order effects weaker than sequential consistency, `RcuState`, `IrqSpinLock`, `PerCpuData` and the barrier functions of kernel/src/rwlock.rs.
- Locks: liveness of the spin loops; the results are about safety and order.
- I/O schedulers: noop, mq-deadline, bandwidth limits, the device table and the statistics counters other than those the properties name; they only add easy members.
- I/O requests: the data pointer, timestamps and completion fields, and CFQ's per-queue time slices, which no modelled operation reads.
- Bfq.StarvationFree: states the bound; that it is attained is stated for CFQ runs only, in `Starvation.StarvationExactly`.
- Deadline.ExpiredReadLatency: deadlines and sector sums are unbounded; the 64-bit nanosecond clock and sector numbers are taken not to wrap.
- Kyber.RunInv: latencies and the completion count are unbounded; their 64-bit products are taken not to wrap.
- EptIdentity.Vmx.NewIdentity: the page pool's own end is not modelled; the caller must leave the tables below the physical address limit.
- vmx.rs and kvm.rs: VMXON, the VMCS, the run loop and everything that touches hardware.
- eBPF: the helpers themselves, maps, and the program and map registries.
- eBPF: memory load and store instructions, which the interpreter skips; the model skips them too.
- nfs_server.rs: file operations, COMPOUND, RPC headers and string items (opaque items with a UTF-8 check).
- release_sign.rs: hashing, signing, manifests and version bumps.
- SemVer.StringOrder: strings are compared by character code; UTF-8 byte order agrees with it.
- modules.rs: descriptive fields, parameters, listing, and mapping, relocating and calling an ELF image.
- The rest of the kernel (drivers, file systems, dynamic linking, boot, tables of system calls) is not part of this model.
