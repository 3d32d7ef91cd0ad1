# A verified model of the native Simula runtime

This project models the parts of a Simula compiler whose correctness depends on
state rather than on translation: the garbage collector, the coroutines with
their root lists, quasi-parallel sequencing, the discrete-event scheduler and
its linked sets, dense array addressing, integer and grouped text items, the
random stream, and the attribute visibility rules of the compiler's front end.
`dafny verify dfyconfig.toml` checks all of it.

Code that updates records in place is a class whose methods do the same updates
(`Heap`, `Stacks`, `Sequencing`, `Events`, `Simulation`, `Sets`, `ArrayI64`,
`Stream`, `TextFrame`). Each method is proved against a function or a relation on
values, and the promises of the Simula Standard and of the runtime's comments are
proved of those, over whole runs where they are about runs.

## The modules

- `Prelude`, `HeapGraph`, `HeapLayout`, `Collector`: the mark-sweep collector.
  Memory is a map from payload addresses to blocks at disjoint byte ranges. Any
  request to the host, for a block, for the index or for the gray stack, may be
  refused; whether it is, is left open. A collection keeps exactly the blocks
  reachable from the roots along traced words, interior pointers included.
- `RootStacks`: root lists, the list head handed over at each switch, and the
  record of a run that they are compared with.
- `Chapter7`, `Chapter7Runs`, `Chapter7Cases`, `Sequencer`: sequencing first as a
  machine on values with its invariant, then what follows over whole runs, programs
  that lose the invariant, then the records in memory that refine the machine.
- `SequencingSet`, `EventSet`, `SimulationRuns`, `Scheduling`, `Excursions`,
  `SimulationCases`, `TurnCases`, `Simulation`: event notices as sequences and as the
  array that holds them, the product of the sequencing set and chapter 7, what each
  scheduling statement means in it, runs that mix scheduling with anything chapter 7
  allows, programs on which scheduling goes wrong, and the scheduling calls that refine
  the product. Event times are reals.
- `Members`, `Simset`: sets as sequences of members, and the circular lists that
  refine them.
- `Arrays`, `Powers`, `RandomStream`, `NumericItems`, `ItemGrammar`, `RoundTrips`,
  `ItemShapes`, `TextFrames`: arithmetic, items character by character and round trips,
  with 64-bit limits written out.
- `Brackets`, `Visibility`: the binding stack of one name along a prefix chain, and
  a description of it by counting.

## What turned out not to hold, and exactly when it does

- An object can outlive the block its class is declared in, and nothing checks that
  the system of that block is still there when the object is resumed. Over any run
  whatever, linear ownership and "resumed iff operative" hold throughout if and only
  if every resume goes into an open system, every block is left with its main
  component operative, and every final end in favour of another process is made by an
  object that may hand over (`Chapter7Runs.RunInvIff`, `Chapter7Runs.ResumeExactly`,
  `Chapter7Cases.ResumedAfterExit`).
- An object may hand over, when the other process's system is open, if and only if it
  is the operative component of that system, or the main component is operative and
  the object keeps the very coroutine that component was parked as
  (`Chapter7Runs.HandoverExactly`, `Chapter7Cases.HandedOverFromOutside`).
- A SIMULATION block inside the body of an object that has its own stack is entered
  on that object's coroutine, and scheduling statements of the block then speak for
  the object: HOLD files the object and leaves MAIN at time 0. The correspondence of
  scheduling and sequencing starts out right, and MAIN's first HOLD takes its time, if
  and only if the coroutine that enters the block is no object's own and no object's
  reactivation point (`SimulationRuns.BeginIff`, `SimulationRuns.MainAsksIff`,
  `SimulationCases.FirstHoldIff`, `SimulationCases.EnteredByObject`).
- Nothing checks whom a program activates. When an object's turn comes the transfer
  succeeds and puts it in control if and only if it can be put in control: it is of the
  SIMULATION block's own system and waits detached on its own stack. Between pure
  scheduling calls that is every object of the system that has not terminated. A
  terminated object or one of a class in a procedure body stops the program with an
  error; a process of a class declared in an inner block is of another system, so that
  two of them can be resumed at once and one goes on before its time
  (`SimulationRuns.TransferIff`, `SimulationRuns.TerminateIff`,
  `SimulationRuns.RunLive`, `TurnCases.ClassOfInnerBlock`,
  `TurnCases.NoSystemOfItsOwn`, `TurnCases.EndedActivated`). Over any run the
  correspondence of scheduling and sequencing holds throughout if and only if every
  turn is one of those and control is back, in a sense made exact, whenever the program
  turns to scheduling again (`Excursions.ReachIff`). One that cannot be put in control
  and is cancelled before its turn does no harm; but everything that can still follow
  is safe if and only if everyone scheduled can be put in control, and an activation
  keeps it so if and only if it activates such a one (`Excursions.SafeIff`,
  `SimulationRuns.ActivationIff`).
- Simulated time goes backwards if and only if a statement takes the only scheduled
  process out of the sequencing set at a time other than 0: the clock then reads 0 and
  the next HOLD starts from there (`SimulationRuns.ClockStep`,
  `SimulationRuns.ClockRun`, `SimulationRuns.ClockCanRestart`).
- `count_ok` stops at the first dimension without elements, so later dimensions
  are unchecked, and an access to such an array can overflow before its empty
  dimension is noticed. It can if and only if the dimensions inside the innermost
  empty one have more elements than fit in 64 bits (`Arrays.OverflowIff`,
  `Arrays.EmptyArrayMayOverflow`).
- With up to 19 places GETFRAC reads back what PUTFRAC wrote in a wide enough field if
  and only if the value is not the least 64-bit integer. With 20 to 63 places the scale
  has wrapped around, and it does if and only if besides the value is below the wrapped
  scale and either there are at most 31 places or it is 0; from 64 places on the scale
  is 0 and PUTFRAC divides by it (`TextFrames.FracReadsBack`,
  `RoundTrips.WideRoundTrip`, `RoundTrips.ScaleIs`).
- A grouped item has one decimal mark by section 8.5 of the Standard. An item with a
  mark, with no further group behind it, is read to its end and no further if and only
  if it does not both start with its mark and stand in front of a second mark with
  digits (`ItemGrammar.SecondMarkIff`, `ItemGrammar.SecondMarkRead`).
- `group_fractional_part` closes its text with a NUL behind the buffer if and only if
  the buffer's size is one more than a multiple of four, above 1, and the fraction has
  more digits than the groups that fit; its one caller's buffer has 64 characters
  (`TextFrames.GroupFractionalPart`).
- `empty` looks at members and `first`, `suc` and `cardinal` at idle members, so a
  set whose members are all scheduled is not empty and yet has the cardinal 0
  (`Members.NoneIdleIff`).

## Model

| member | source | states |
|---|---|---|
| `HeapGraph.Lookup` | runtime/gc.c:329-354 | the linear search that interior pointer lookup is compared with: the block found covers the address, and nothing is found only if no block does |
| `HeapGraph.CoversIs` | runtime/gc.c:350-353 | a block answers for the addresses of its payload bytes and for its own |
| `HeapGraph.Zeroed` | runtime/gc.c:229-286 | a new payload has the kind and size asked for and is 0 throughout |
| `HeapGraph.SlotsAre` | runtime/gc.c:411-462 | which words of a block are traced, kind by kind; in a text array those behind the two bounds of each dimension |
| `HeapGraph.HitsLookup` | runtime/gc.c:382-393 | a word points into the one block a linear search finds and no other, since blocks are disjoint |
| `HeapGraph.ReachSetClosed` | runtime/gc.c:411-462 | what is reachable along traced words is closed under tracing |
| `HeapGraph.ReachSetIsLeast` | runtime/gc.c:464-484 | any closed set with the root hits contains everything reachable, so a closed marking of only reachable blocks is exact |
| `HeapLayout.SortedOk` | runtime/gc.c:292-326 | sorting the index keeps its blocks and puts them in ascending order |
| `HeapLayout.ReclaimOk` | runtime/gc.c:563-601 | unlinking a dead block keeps live blocks, free list and memory disjoint, whether the block goes to the free list or back to the host |
| `HeapLayout.PoisonedIs` | runtime/gc.c:563-601 | which words of a dead block are overwritten |
| `HeapLayout.AllocOk` | runtime/gc.c:229-286 | a block taken from the free list or from the host is disjoint from every other and inside the widened heap envelope |
| `HeapLayout.SettledAfterTrace` | runtime/gc.c:411-462 | the worklist invariant: a marked block is waiting, or all it traces is marked, or an overflow is on record |
| `HeapLayout.PassedAll` | runtime/gc.c:464-484 | a rescan without overflow leaves every marked block traced |
| `Collector.Heap.BesidePlace` | runtime/gc.c:329-354 | only the block in front of an address's place in the index can cover it |
| `Collector.Heap.BlockAt` | runtime/gc.c:329-354 | binary search over the sorted index behind the envelope test returns what linear search over the live blocks returns, for every address: the block whose payload it lies in, or none if it lies in none |
| `Collector.Heap.PushGray` | runtime/gc.c:360-380 | the block waits on the gray stack, or the stack could not grow and the overflow is on record |
| `Collector.Heap.Mark` | runtime/gc.c:382-393 | marks exactly the live block that a word points into and leaves it waiting or the overflow recorded |
| `Collector.Heap.Trace` | runtime/gc.c:411-462 | marks exactly what the block's kind-specific words point into |
| `Collector.Heap.DrainGray` | runtime/gc.c:464-484 | empties the gray stack, marks nothing unreachable, and keeps the worklist invariant |
| `Collector.Heap.Rescan` | runtime/gc.c:464-484 | traces marked blocks again after an overflow; if that marks nothing new there is no overflow left |
| `Collector.Heap.Drain` | runtime/gc.c:464-484 | terminates whatever growth fails, and on exit what marked blocks trace is marked and nothing unreachable is |
| `Collector.Heap.MarkRootChain` | runtime/gc.c:543-552 | marks what the slots of every frame on one root list point into |
| `Collector.Heap.VisitAllRoots` | runtime/gc.c:628-682 | after pinned, runtime, sequencing, pin-table, running and parked roots, exactly the blocks those words point into are marked; which words they are, and that parked coroutines are among them, is `Collector.Heap.RootedIff` |
| `Collector.Heap.RootedIff` | runtime/gc.c:628-682 | the visited words point into a block iff a root holds it: it is pinned or never swept, or a word of the runtime's roots, of sequencing's, of the pin table or of a slot of a frame that any coroutine, running or parked, has pushed and not popped lies in it |
| `Collector.Heap.ReachedHolds` | runtime/gc.c:628-682 | what a collection keeps has every block that a root holds and whatever a block it has points into |
| `Collector.Heap.ReachedLeast` | runtime/gc.c:628-682 | and nothing that any other set with these two properties does without |
| `Collector.Heap.MarkReachable` | runtime/gc.c:628-682 | the marked blocks are exactly the reachable ones |
| `Collector.Heap.Reclaim` | runtime/gc.c:563-601 | one dead block leaves the list for the free list, its leading words overwritten, or for the host when that is full; survivors' payloads stay |
| `Collector.Heap.Sweep` | runtime/gc.c:563-601 | keeps exactly the marked, pinned and unswept blocks, in their order and untouched, and clears the marks |
| `Collector.Heap.IndexBuild` | runtime/gc.c:301-326 | when it succeeds the index is ascending and names exactly the live blocks |
| `Collector.Heap.MarkAndSweep` | runtime/gc.c:628-682 | the block list afterwards is the old one restricted to the reachable blocks |
| `Collector.Heap.Collect` | runtime/gc.c:628-682 | a collection that runs leaves exactly the blocks that roots hold, directly or through others, in their old order with their payloads; otherwise nothing changes; whatever a root held is still listed with its contents |
| `Collector.Heap.TakeFree` | runtime/gc.c:201-217 | the first free block of exactly the size within the scan limit, and only it, leaves the free list |
| `Collector.Heap.TakeBlock` | runtime/gc.c:229-286 | a zeroed block at the front of the list, reused or new, or nothing changed; the books stay balanced |
| `Collector.Heap.MaybeAutoCollect` | runtime/gc.c:219-227 | no automatic collection inside a deferred region, when disabled, or below the threshold; at the threshold one runs unless the heap is empty or the index cannot grow |
| `Collector.Heap.AllocFlagged` | runtime/gc.c:229-286 | a refused or impossible request changes nothing but a possible collection; otherwise the new zeroed block heads the list with its flags, the rest being the old list or what was reachable in it |
| `HeapLayout.StoreOk` | runtime/gc.c:411-462 | a word written into a live payload leaves the layout as it was |
| `Collector.Heap.StoreWord` | runtime/gc.c:411-462 | the program writes one word of a live payload between two collections, and the heap stays valid |
| `Collector.Heap.DeferCollect` | runtime/gc.c:525-535 | opens a deferred region and keeps the heap valid |
| `Collector.Heap.AllowCollect` | runtime/gc.c:537-541 | closes one, never below none |
| `Collector.Heap.RefPin` | runtime/gc.c:732-749 | a pinned reference takes a free pin slot, which is a root from then on |
| `Collector.Heap.RefUnpin` | runtime/gc.c:751-756 | clears the pin slot and no other |
| `RootStacks.ChainUnique` | runtime/gc.c:543-552 | a list head determines the list |
| `RootStacks.ChainAcyclic` | runtime/gc.c:543-552 | a list visits no frame twice |
| `RootStacks.LawfulDisjoint` | runtime/gc.c:490-515 | over any run of registrations, pushes, pops and switches no frame is pending on two coroutines |
| `RootStacks.Stacks.RootPush` | runtime/gc.c:490-505 | the zeroed frame becomes the newest of the running coroutine |
| `RootStacks.Stacks.RootPop` | runtime/gc.c:507-515 | the newest frame is unlinked; popping any other is an error, and NULL from an empty list another |
| `RootStacks.Stacks.Switch` | runtime/coro.c:492-526 | the list head is saved with the coroutine left and restored from the one entered, whose list is as it left it |
| `RootStacks.Stacks.Create` | runtime/coro.c:474-490 | a new coroutine is registered with an empty list |
| `RootStacks.Stacks.MainCoroutine` | runtime/coro.c:431-443 | the thread is adopted once, keeping the frames pushed before |
| `RootStacks.Stacks.VisitParkedHeads` | runtime/coro.c:545-565 | the heads shown to the collector are those of every registered coroutine but the running one |
| `RootStacks.Stacks.VisitedExactly` | runtime/gc.c:543-557 | after any interleaving the frames a collection visits are exactly those pushed and not yet popped, each once |
| `Chapter7.InitialInv` | runtime/sequencing.c:227-238 | the program's start satisfies the invariant |
| `Chapter7.MovedLinear` | runtime/sequencing.c:271-321 | a switch that empties one slot and fills at most one keeps every coroutine in exactly one place |
| `Chapter7.StepMoves` | runtime/sequencing.c:259-497 | every permitted statement is such a switch between the slots its kind names |
| `Chapter7.StepInv` | runtime/sequencing.c:240-497 | every permitted statement keeps the invariant: each coroutine running, gone or in one live slot, and resumed iff operative |
| `Chapter7.CreateInv` | runtime/sequencing.c:240-257 | generating an object keeps it, whatever becomes of the object's system |
| `Chapter7Runs.ResumeExactly` | runtime/sequencing.c:402-454 | a resume that succeeds keeps the invariant iff the component's system is still open |
| `Chapter7Runs.StepInvIff` | runtime/sequencing.c:189-497 | any statement that succeeds keeps it iff it resumes into an open system, leaves no component operative in a system it closes, and hands over as it may |
| `Chapter7Runs.RunInvIff` | runtime/sequencing.c:189-497 | over any run it holds throughout iff every statement is such |
| `Chapter7Runs.RunInv` | runtime/sequencing.c:189-497 | it holds at the end of every run of such statements |
| `Chapter7Runs.StepRecordsIff` | runtime/sequencing.c:189-497 | any statement that succeeds keeps resumed components and operative ones the same and the records well formed iff it resumes into an open system, leaves none operative in a system it closes, and hands over as the operative component or, when there is none, as an object that no other system has for its operative one |
| `Chapter7Runs.RunHeadsApart` | runtime/sequencing.c:240-257 | over every run no two objects have the same coroutine for their own |
| `Chapter7Cases.ResumedAfterExit` | runtime/sequencing.c:402-454 | a program whose resume goes through a system already left |
| `Chapter7Cases.HandedOverFromOutside` | runtime/sequencing.c:456-497 | a program whose handover is carried out and loses the invariant |
| `Chapter7Runs.SwitchEntersKept` | runtime/sequencing.c:304-321 | any statement that keeps the invariant enters only a coroutine that one slot kept, never the running or an ended one; control never returns into a terminated object |
| `Chapter7Runs.NeverIntoSelf` | runtime/sequencing.c:495-496 | whatever the statement, both aborts for control returned into a terminated object are unreachable |
| `Chapter7Runs.GoneForGood` | runtime/sequencing.c:366-369 | a coroutine left at a final end never executes again |
| `Chapter7Runs.FailsIffRefused` | runtime/sequencing.c:271-497 | any statement fails iff the Standard calls it an error or an object is to hand over to itself |
| `Chapter7Runs.ErrorIs` | runtime/sequencing.c:271-497 | and with which error |
| `Chapter7Runs.NewRecords` | runtime/sequencing.c:172-257 | what generating an object, a prefixed block, and entering and leaving a block write; no other statement adds a record |
| `Chapter7Runs.NothingDone` | runtime/sequencing.c:356-418 | a detach in a prefixed block and a resume of a resumed component do nothing |
| `Chapter7Runs.Bracketing` | runtime/sequencing.c:259-400 | after coroutine k generates or calls Y, k does not execute until Y detaches, terminates or hands over, and in the first two cases control then returns to k |
| `Chapter7Runs.HandoverExactly` | runtime/sequencing.c:456-497 | the exact condition under which a final end in favour of another process keeps the invariants |
| `Sequencer.FrameOfIsNewest` | runtime/sequencing.c:206-225 | the system found for a block is that of the newest instance the coroutine entered |
| `Sequencer.CurrentRefIs` | runtime/sequencing.c:116-132 | who a statement executes in: the newest object whose own coroutine runs, else the newest parked as it, else nobody |
| `Sequencer.ResolveNearest` | runtime/sequencing.c:206-225 | looking outwards along who generated whom, the nearest coroutine inside the block decides; others never interfere |
| `Sequencer.WithoutNewestCut` | runtime/sequencing.c:189-203 | leaving a block drops its system's newest frame, wherever it stands |
| `Sequencer.ResolveOpen` | runtime/sequencing.c:206-225 | the system found for a block exists and is open |
| `Sequencer.EnterKeepsFrames` | runtime/sequencing.c:172-187 | entering a block keeps every frame naming an open system, each at most once |
| `Sequencer.ExitKeepsFrames` | runtime/sequencing.c:189-203 | so does leaving one, after which no frame names its system |
| `Sequencer.StepKeepsFrames` | runtime/sequencing.c:240-497 | so does every other statement |
| `Sequencer.Sequencing.ComponentOf` | runtime/sequencing.c:103-114 | the component registered for an object, or none |
| `Sequencer.Sequencing.CurrentObject` | runtime/sequencing.c:116-132 | the object whose stack runs, else the newest one touched by the running coroutine |
| `Sequencer.Sequencing.SystemForBlock` | runtime/sequencing.c:206-225 | the search over frames and generators computes the system of the nearest instance |
| `Sequencer.Sequencing.SystemEnter` | runtime/sequencing.c:172-187 | a new open system with the running coroutine as its main component and a frame of its own, or an error at the limit |
| `Sequencer.Sequencing.SystemExit` | runtime/sequencing.c:189-203 | closes the system, drops its frame, and leaves the remaining frames naming open systems, each at most once |
| `Sequencer.Sequencing.ObjectCreate` | runtime/sequencing.c:240-257 | a new attached component of the block's system, which is open, parked before its body |
| `Sequencer.Sequencing.ObjectStart` | runtime/sequencing.c:259-266 | runs the body attached to the generating coroutine |
| `Sequencer.Sequencing.BlockInstance` | runtime/sequencing.c:345-354 | a prefixed block gets a record without a coroutine |
| `Sequencer.Sequencing.Leave` | runtime/sequencing.c:271-321 | detach and final end on the records in memory are those of the machine |
| `Sequencer.Sequencing.Detach` | runtime/sequencing.c:356-364 | detach, with its no-object, no-component and block-instance cases |
| `Sequencer.Sequencing.Terminate` | runtime/sequencing.c:366-369 | the final end of an object |
| `Sequencer.Sequencing.Call` | runtime/sequencing.c:371-400 | call attaches a detached component to the running coroutine |
| `Sequencer.Sequencing.Resume` | runtime/sequencing.c:402-454 | resume stops the system's operative component and makes this one operative; a resumed one goes on |
| `Sequencer.Sequencing.TerminateResuming` | runtime/sequencing.c:456-497 | the final end that hands over, with its error order |
| `SequencingSet.InsertedOk` | runtime/sim.c:79-113 | inserting between notices no later and no earlier keeps order and moves nothing else |
| `SequencingSet.WithoutOk` | runtime/sim.c:62-70 | cancelling keeps order and one notice a process |
| `SequencingSet.FiledOk` | runtime/sim.c:79-113 | a filed notice stands in front of its ties iff prior, behind them otherwise; all others keep their relative order |
| `SequencingSet.FiledNextToOk` | runtime/sim.c:321-372 | BEFORE and AFTER put the notice immediately beside the other one at its time, MAIN behind all ties |
| `EventSet.Events.Grow` | runtime/sim.c:45-60 | doubling up to 65536 keeps the set, or fails at the limit or for want of memory |
| `EventSet.Events.CancelUnlocked` | runtime/sim.c:62-70 | removes every notice of one process in place |
| `EventSet.Events.InsertEvent` | runtime/sim.c:79-113 | shifts the array so that it holds the set with the notice filed |
| `EventSet.Events.Find` | runtime/sim.c:221-241 | the first place of a process, or the length |
| `EventSet.Events.IsScheduled` | runtime/sim.c:115-122 | whether some notice is the process's |
| `EventSet.Events.InsertNextTo` | runtime/sim.c:321-372 | shifts the array so that it holds the set with the notice beside the other, or fails, for want of room exactly when the set is full |
| `EventSet.Events.Evtime` | runtime/sim.c:202-214 | the event time of a scheduled process, else an error |
| `SimulationRuns.MainAsksIff` | runtime/sim.c:243-254 | while MAIN is on record a statement speaks for it iff the running coroutine is no object's own and no object's reactivation point |
| `SimulationRuns.ProcessAsksIff` | runtime/sim.c:243-254 | while a process is, iff it runs on its own coroutine, or on one that is nobody's own and whose newest parked object, if any, is the process |
| `SimulationRuns.SelfIsRunning` | runtime/sim.c:243-254 | while the correspondence holds a statement speaks for the process on record |
| `SimulationRuns.FileKeepsInv` | runtime/sim.c:256-317 | hold and activation, of whomever, keep the correspondence of set and chapter 7 |
| `SimulationRuns.FileNextToKeepsInv` | runtime/sim.c:321-372 | so does activation of whomever before and after another |
| `SimulationRuns.CancelKeepsInv` | runtime/sim.c:425-445 | so do passivate, cancel and the end of MAIN |
| `SimulationRuns.TransferIff` | runtime/sim.c:389-408 | a transfer succeeds and keeps the correspondence, with the head of the set in control, iff it is nobody's turn, MAIN's, or that of an object that can be put in control |
| `SimulationRuns.TransferToOther` | runtime/sim.c:389-408 | anyone else's turn ends in the error that applies, or with `running` naming an object that is not in control |
| `SimulationRuns.TerminateIff` | runtime/sim.c:412-423 | the end of the active process succeeds and keeps the correspondence on the same condition on whose turn is next |
| `SimulationRuns.TerminateToOther` | runtime/sequencing.c:456-497 | otherwise the call fails or control is not where the record says, and a hand-over into another system loses the invariants of chapter 7 too |
| `SimulationRuns.GenerateKeepsInv` | runtime/sequencing.c:240-266 | generating a process and its first detach return to the generator, keep the correspondence, and leave one more that can be put in control |
| `SimulationRuns.StepIff` | runtime/sim.c:256-445 | a scheduling call keeps the correspondence, failing only by outgrowing the set, iff the turn it gives, if any, is such a one |
| `SimulationRuns.RunIff` | runtime/sim.c:256-445 | over any run of them it holds throughout iff every turn is |
| `SimulationRuns.ActivationIff` | runtime/sim.c:268-372 | an activation that has an effect leaves everyone scheduled fit to be put in control iff the one activated is |
| `SimulationRuns.StepReady` | runtime/sim.c:256-445 | every call that activates only such ones leaves everyone scheduled fit, if everyone was |
| `SimulationRuns.RunLive` | runtime/sim.c:256-445 | over runs of scheduling calls that keep the correspondence, an object can be put in control iff it is of the SIMULATION system and not terminated |
| `SimulationRuns.BeginIff` | runtime/sim.c:132-142 | beginning a simulation establishes the correspondence iff the running coroutine is no object's own and no object's reactivation point |
| `SimulationCases.FirstHoldIff` | runtime/sim.c:256-266 | MAIN's first HOLD takes its time on the same condition; otherwise an object is filed and MAIN stays at time 0 |
| `SimulationCases.EnteredByObject` | runtime/sequencing.c:116-132 | a program in which an object enters the block |
| `SimulationRuns.OthersWait` | runtime/sim.c:374-408 | `running` names the operative component of the SIMULATION system, MAIN iff there is none, and every other scheduled process that can be put in control is detached on its own stack |
| `SimulationRuns.EmptiesIff` | runtime/sim.c:412-445 | a statement empties a set iff it takes out the only process scheduled |
| `SimulationRuns.ClockStep` | runtime/sim.c:153-159 | time goes back in one step iff the statement takes out the only process scheduled at a time other than 0, whether the correspondence holds or not |
| `SimulationRuns.ClockRun` | runtime/sim.c:153-159 | over any run time never goes back iff no statement of it does that |
| `SimulationRuns.ClockCanRestart` | runtime/sim.c:153-159 | a run from a new simulation in which the clock reads 5 and later 1 |
| `Scheduling.HoldPlaces` | runtime/sim.c:256-266 | HOLD makes the caller due after the delay, at once for a negative one, behind its ties |
| `Scheduling.DirectGoesFirst` | runtime/sim.c:268-284 | ACTIVATE puts an idle process in front of the whole set at the time now |
| `Scheduling.DirectRunsNext` | runtime/sim.c:268-284 | and the transfer then makes it the one in control iff it can be put in control |
| `Scheduling.DirectLeaves` | runtime/sim.c:268-284 | ACTIVATE of none or of a scheduled process changes nothing, nor does CANCEL of none |
| `Scheduling.TimedPlaces` | runtime/sim.c:288-317 | AT and DELAY make the process due when asked but never before now, before its ties iff PRIOR; only REACTIVATE moves a scheduled one |
| `Scheduling.RelativePlaces` | runtime/sim.c:321-372 | BEFORE puts the process immediately in front of the other one, AFTER immediately behind it and MAIN behind all of that time, at the same time; nobody else moves, and without either, or beside itself or an idle process, nothing changes |
| `Scheduling.FailsWhenFull` | runtime/sim.c:45-113 | a call that files a notice fails iff 65536 others are filed |
| `Scheduling.CancelLeaves` | runtime/sim.c:425-445 | a cancelled or passivated process is idle and all others stay |
| `Excursions.StepAside` | runtime/sequencing.c:240-497 | statements on objects that are neither scheduled nor in control leave those that are, and their system, as they were |
| `Excursions.ExcursionIff` | runtime/sim.c:374-408 | whatever the program does with chapter 7 in between, scheduling stands where it stood iff the same coroutine runs, the SIMULATION system is open with the operative component it had, MAIN's parking place included, and no object is parked as MAIN's coroutine |
| `Excursions.OutsideIff` | runtime/sequencing.c:240-497 | with other objects only, components of the SIMULATION block included, that comes down to the coroutine, the operative component and nobody parked as MAIN's coroutine, and whoever was scheduled and ready still is |
| `Excursions.ReachIff` | runtime/sim.c:256-445 | over runs that mix scheduling with anything chapter 7 allows the correspondence holds throughout iff every turn is that of one who can be put in control and control is back each time |
| `Excursions.SafeIff` | runtime/sim.c:268-408 | every run from here on keeps it, as long as it activates only such ones and control comes back, iff everyone scheduled now is such a one |
| `Excursions.ReachClock` | runtime/sim.c:153-159 | nor does the clock go back over any such run, on the same condition |
| `TurnCases.ClassOfInnerBlock` | src/layout.rs:298-337 | a program in which a process of an inner block takes turns with one of the SIMULATION block and goes on two units before its time |
| `TurnCases.NoSystemOfItsOwn` | src/layout.rs:298-337 | one that activates an object of a class without a system: the transfer is an error |
| `TurnCases.EndedActivated` | src/mir/lower/builder/stmt.rs:95-215 | one that activates a process that has ended: the transfer is an error |
| `Simulation.Simulation.Start` | runtime/sim.c:132-142 | MAIN active, running, and alone in the set at time 0, whatever was left before; an error inside another simulation |
| `Simulation.Simulation.Finish` | runtime/sim.c:144-147 | nothing active and nothing scheduled |
| `Simulation.Simulation.WhoAsks` | runtime/sim.c:243-254 | finds that process on the records, never NULL |
| `Simulation.Simulation.Hold` | runtime/sim.c:256-266 | files the caller behind its ties after a non-negative delay, CURRENT following the head |
| `Simulation.Simulation.ActivateDirect` | runtime/sim.c:268-284 | an idle process goes to the front; none or a scheduled one is left alone |
| `Simulation.Simulation.ActivateTimed` | runtime/sim.c:288-317 | AT, DELAY, PRIOR and REACTIVATE with times clamped to now |
| `Simulation.Simulation.ActivateRelative` | runtime/sim.c:321-372 | BEFORE and AFTER as `Scheduling.RelativePlaces` says, without effect for none, for itself and next to an idle process; for want of room it fails exactly when the set is full |
| `Simulation.Simulation.Passivate` | runtime/sim.c:425-430 | the caller leaves the set |
| `Simulation.Simulation.Cancel` | runtime/sim.c:432-439 | the process leaves the set |
| `Simulation.Simulation.TransferToHead` | runtime/sim.c:389-408 | one detach or one resume on the records, or nothing when the head runs |
| `Simulation.Simulation.TerminateCurrent` | runtime/sim.c:412-423 | cancels, then terminates or hands over |
| `Simulation.Simulation.NextEv` | runtime/sim.c:221-241 | the process behind one in the set, idle MAIN counting as in front of it |
| `Simulation.NextEvIs` | runtime/sim.c:221-241 | that is the one a place further back, none behind the last or for an idle process, and the first for an idle MAIN |
| `Members.OthersUnmoved` | runtime/sim.c:498-564 | whatever x is moved next to, all other members keep their sets and order, and leaving again undoes the move |
| `Members.LeavesAt` | runtime/sim.c:498-515 | leaving closes the gap in the one set x is in and touches no other |
| `Members.PlacedNextTo` | runtime/sim.c:517-559 | moved next to a head or a member, x is its neighbour on the right side |
| `Members.NowhereToGo` | runtime/sim.c:517-559 | next to itself or to something in no set x just leaves |
| `Members.MovedApart` | runtime/sim.c:498-564 | no move puts a member in two sets or twice in one |
| `Members.WalkVisitsIdle` | runtime/sim.c:575-605 | walking by suc or pred visits exactly the idle members, in order or backwards |
| `Members.NoneIdleIff` | runtime/sim.c:599-623 | first, last and cardinal find nothing iff every member is busy |
| `Simset.Sets.ApartNow` | runtime/sim.c:490-564 | the rings in memory are sets apart: no member in two or twice in one, no head a member |
| `Simset.Sets.Moves` | runtime/sim.c:498-559 | so a move on them leaves the others in their sets and order and puts the link exactly beside its new neighbour |
| `Simset.Unlinked` | runtime/sim.c:498-515 | tying a member's neighbours together leaves a ring of the others |
| `Simset.Spliced` | runtime/sim.c:517-559 | tying a link in between two neighbours gives the ring with it there |
| `Simset.Sets.InitHead` | runtime/sim.c:490-496 | a head tied to itself is an empty set |
| `Simset.Sets.TakeOut` | runtime/sim.c:498-515 | out takes a link from its set, writing its neighbours and itself only |
| `Simset.Sets.Precede` | runtime/sim.c:517-537 | precede on linked memory is the sequence edit, for every aliasing of x and ptr |
| `Simset.Sets.Follow` | runtime/sim.c:539-559 | follow likewise |
| `Simset.Sets.Into` | runtime/sim.c:561-564 | into makes x the last member |
| `Simset.Sets.BusyRunFits` | runtime/sim.c:575-597 | a run of scheduled members is never longer than the guard of a walk |
| `Simset.Sets.Suc` | runtime/sim.c:575-585 | the next idle member, the guard never firing |
| `Simset.Sets.Pred` | runtime/sim.c:587-597 | the previous idle member, the guard never firing |
| `Simset.Sets.Empty` | runtime/sim.c:607-613 | whether a set has no members at all |
| `Simset.Sets.Cardinal` | runtime/sim.c:615-623 | the number of idle members |
| `Arrays.DimSizeBranchesAgree` | runtime/safety.c:8-36 | both branches give the same size and the 64-bit one never overflows |
| `Arrays.CountOk` | runtime/safety.c:38-65 | the count is exact and refused iff the dimensions up to the first empty one have a product that does not fit |
| `Arrays.AcceptedIff` | runtime/safety.c:38-65 | an array with elements is let through iff its elements can be counted |
| `Arrays.TotalExact` | runtime/safety.c:67-94 | header and total are let through iff the bytes fit, with no wrapped product or sum |
| `Arrays.Extent` | runtime/array.c:29-51 | the three checks in front of an allocation together accept exactly what can be addressed |
| `Arrays.OffsetInRange` | runtime/array.c:81-98 | subscripts within bounds address an element below the count |
| `Arrays.SubscriptsOfOffset` | runtime/array.c:81-98 | different subscripts have different places |
| `Arrays.OffsetOfSubscripts` | runtime/array.c:81-98 | every place below the count is some subscripts' |
| `Arrays.OffsetMonotone` | runtime/array.c:81-98 | places follow row-major order, both ways |
| `Arrays.OffsetStarts` | runtime/array.c:81-98 | the lowest subscripts are at place 0 |
| `Arrays.OffsetSteps` | runtime/array.c:81-98 | one step of a subscript goes past as many elements as the dimensions inside it have |
| `Arrays.AddressStep` | runtime/array.c:94-95 | no product or sum leaves 64 bits while the stride fits |
| `Arrays.CountedNeverOverflows` | runtime/array.c:81-98 | in an array with elements an access finds its element iff its subscripts are within bounds, and never overflows |
| `Arrays.OverflowIff` | runtime/array.c:81-98 | some subscripts overflow iff the dimensions inside the innermost empty one cannot be counted |
| `Arrays.EmptyArrayMayOverflow` | runtime/safety.c:54-57 | an accepted array for which they do |
| `Arrays.ArrayI64.Alloc` | runtime/array.c:100-117 | a zeroed array with the given bounds, or the error that applies |
| `Arrays.ArrayI64.Copy` | runtime/array.c:124-141 | an array of its own with the same bounds and elements |
| `Arrays.ArrayI64.LinearIndex` | runtime/array.c:81-98 | the loop gives the row-major place, or the fault innermost dimensions meet first |
| `Arrays.ArrayI64.Load` | runtime/array.c:143-157 | the element at the subscripts, inside the payload, or the fault |
| `Arrays.ArrayI64.Store` | runtime/array.c:159-172 | changes the element at those subscripts and no other |
| `RandomStream.AdvanceBranchesAgree` | runtime/env.c:168-182 | the low-bits branch equals the 128-bit one for every non-negative seed, without wrapping |
| `RandomStream.Antithetic` | runtime/env.c:184-195 | drawings lie in [0, 1) and the stream of the other sign draws the complements |
| `RandomStream.DrawingIs` | runtime/env.c:184-195 | the drawing of a non-negative seed is the seed left behind over 2**31, that of a negative one the complement, and 0 iff the seed left is 0 |
| `RandomStream.Stream.BasicDraw` | runtime/env.c:184-195 | leaves the seed times 5**27 modulo 2**31 with its sign and returns that over 2**31, or the complement for a negative seed unless it is 0 |
| `RandomStream.MultiplierIs` | runtime/env.c:155-158 | the multiplier is 5**27 and one more than four times an odd number |
| `RandomStream.PowerExcess` | runtime/env.c:155-182 | 2 divides what exceeds 1 in a power of the multiplier exactly twice more often than the exponent |
| `RandomStream.DrawnIs` | runtime/env.c:168-195 | the seed after t draws is the seed times the t-th power of the multiplier modulo 2**31 |
| `RandomStream.ReturnsIff` | runtime/env.c:155-195 | any seed in range is met again after t draws iff 2 divides t and the seed together 29 times |
| `RandomStream.Period` | runtime/env.c:155-195 | an odd seed of either sign stays odd and in range and is met again exactly at the multiples of 2**29 |
| `RandomStream.AllDifferent` | runtime/env.c:155-195 | the seeds within one period are all different |
| `RandomStream.RemMod` | runtime/env.c:350-376 | rem has the dividend's sign, mod the divisor's, both smaller than the divisor and congruent to the dividend; the exact failing cases |
| `NumericItems.DecimalValue` | runtime/text.c:810-814 | decimal digits stand for their number |
| `NumericItems.PaddedValue` | runtime/text.c:1007-1020 | digits padded to a number of places continue a number |
| `NumericItems.GroupWholeDigits` | runtime/text.c:946-969 | grouping only puts blanks between digits |
| `NumericItems.WholeInThrees` | runtime/text.c:946-969 | the blanks stand between threes counted from the right |
| `NumericItems.TailInThrees` | runtime/text.c:971-992 | and from the left behind the mark |
| `NumericItems.SkipGroupsIff` | runtime/text.c:854-872 | reading groups takes the longest ones there are and nothing else |
| `ItemGrammar.IntegerReads` | runtime/text.c:720-768 | every text of the form of an integer item is read as its number, to its end, whatever follows |
| `ItemGrammar.IntegerItemOf` | runtime/text.c:720-768 | and only such texts are read: whatever yields an integer item starts with a sign part and all the digits behind it |
| `ItemGrammar.GroupedReads` | runtime/text.c:818-928 | every text of the form of a grouped item is read as its digits' number, to its end |
| `ItemGrammar.GroupedItemOf` | runtime/text.c:818-928 | and only such texts are read, and those with a second mark behind an item that starts with one |
| `ItemGrammar.EndOfForm` | runtime/text.c:842-904 | an item is read to its end and no further iff what follows does not carry it on |
| `ItemGrammar.GroupedReadsIff` | runtime/text.c:818-928 | an item whose number fits is read as itself iff what follows does not carry it on |
| `ItemGrammar.SecondMarkIff` | runtime/text.c:843-904 | with no further group behind it an item with a mark is read as itself iff it does not start with the mark or no second mark with digits follows |
| `ItemGrammar.SecondMarkReads` | runtime/text.c:843-904 | what an item that starts with its mark is read as in front of a second mark with digits |
| `ItemGrammar.SecondMarkRead` | runtime/text.c:843-904 | an item read past its second mark, and one that is not |
| `RoundTrips.IntegerRoundTrip` | runtime/text.c:795-814 | what PUTINT writes GETINT reads with POS behind it, for every 64-bit integer, iff the field is wide enough |
| `RoundTrips.ScaleIs` | runtime/text.c:1003-1008 | the scale is the power of ten modulo 2**64: the power itself up to 19 places, and 0 exactly from 64 on |
| `RoundTrips.GroupedRoundTrip` | runtime/text.c:930-1043 | what PUTFRAC writes with 0 to 19 places GETFRAC reads with POS behind it, exactly when the field is wide enough and the value not the least integer |
| `RoundTrips.WideRoundTrip` | runtime/text.c:930-1043 | what it writes with 20 to 63 places GETFRAC reads back iff besides the value is below the wrapped scale and all its digits are shown |
| `RoundTrips.TextFits` | runtime/text.c:1010-1014 | no item outgrows the buffers it is formed in |
| `ItemShapes.IntegerShape` | runtime/text.c:810-814 | an integer item is a minus sign iff the value is negative and its digits without leading zeros |
| `ItemShapes.NoPlacesShape` | runtime/text.c:994-1043 | a grouped item without places has no mark; it is the value in threes from the right behind the sign |
| `ItemShapes.MarkedShape` | runtime/text.c:994-1043 | one with places has exactly one mark, the given one, a sign in front or nowhere, and digits in threes counted from the mark on both sides |
| `ItemShapes.MarkedSides` | runtime/text.c:994-1043 | behind the mark stand as many digits as places, but 31 at most, those of the remainder by the scale; in front those of the quotient, none if it is 0 |
| `ItemShapes.MarkedNumber` | runtime/text.c:994-1043 | with up to 19 places these are the remainder and the quotient by the power of ten |
| `TextFrames.ParseIntegerItem` | runtime/text.c:720-768 | the parse loops compute the integer item read |
| `TextFrames.ParseGroupedItem` | runtime/text.c:818-928 | the parse loops compute the grouped item read |
| `TextFrames.GroupIntegerPart` | runtime/text.c:946-969 | fills a buffer with the groups as far as whole ones fit, and never beyond it |
| `TextFrames.GroupFractionalPart` | runtime/text.c:971-992 | fills a buffer with the groups behind the mark as far as digits fit; the exact sizes at which the closing NUL falls behind it |
| `TextFrames.EditNumeric` | runtime/text.c:770-793 | the item at the right end behind spaces, or asterisks throughout if it does not fit, POS behind the frame, nothing outside it written |
| `TextFrames.PutInt` | runtime/text.c:810-814 | writes the integer item |
| `TextFrames.GetInt` | runtime/text.c:795-808 | the value with POS behind the item, or the error with POS unmoved |
| `TextFrames.PutFrac` | runtime/text.c:994-1043 | writes the grouped item, a negative number of places counting as none, or divides by 0 exactly from 64 places on |
| `TextFrames.GetFrac` | runtime/text.c:930-943 | the value with POS behind the item, or the error with POS unmoved |
| `TextFrames.IntReadsBack` | runtime/text.c:795-814 | PUTINT then GETINT gives the value and POS behind the frame iff the item fits, else no item |
| `TextFrames.FracReadsBack` | runtime/text.c:930-1043 | PUTFRAC then GETFRAC likewise, for every number of places at which PUTFRAC writes at all, with the exact values that come back |
| `Brackets.StandsIff` | src/concatenate.rs:1494-1538 | a push stands at the end iff from then on pushes, itself counted, always exceed pops |
| `Brackets.TopIs` | src/concatenate.rs:1531-1535 | the top is the innermost such push |
| `Visibility.ChainOfLevel` | src/concatenate.rs:1374-1393 | the chain of a level on a chain is the chain up to there |
| `Visibility.FollowedOnce` | src/concatenate.rs:1374-1393 | following prefixes until they end or meet a level again gives one chain only |
| `Visibility.ChainFollowed` | src/concatenate.rs:1374-1393 | without cycles that is the whole prefix chain |
| `Visibility.RawPrefixChain` | src/concatenate.rs:1374-1393 | the loop gives the prefix levels outermost first, cut where a level would come again |
| `Visibility.IsSubclassOf` | src/concatenate.rs:1976-1995 | whether the ancestor is a proper prefix level |
| `Visibility.AccessAtOrInside` | src/concatenate.rs:1472-1480 | whether a text is within a class or a subclass of it |
| `Visibility.DeclaredKindIs` | src/concatenate.rs:1411-1453 | what a level declares a name as: virtual before procedure before variable |
| `Visibility.HiddenInIs` | src/concatenate.rs:1455-1461 | how often it hides it: the number of hidden specifications that name it |
| `Visibility.BindingStack` | src/concatenate.rs:1494-1538 | the loop computes the bindings level by level |
| `Visibility.VisibleAttributeBinding` | src/concatenate.rs:1543-1576 | returns the innermost open binding at a level of the qualification, by counting along the prefix chain of the text if qualification and text are prefixes of one another, else along the qualification's own |
| `Visibility.ProtectedStaysInside` | src/concatenate.rs:1513-1530 | a protected attribute is never visible outside its class and subclasses, and what is visible is declared where it is found |
| `Visibility.ProtectionHidesOutside` | src/concatenate.rs:1524-1530 | protecting an inherited attribute takes from texts outside what hiding it once would |
| `Visibility.StackAgrees` | src/concatenate.rs:1494-1538 | texts inside every level that suffer the same hiding find the same bindings |
| `Visibility.OwnText` | src/concatenate.rs:1472-1576 | a class's own text sees its declaration, unless it declares nothing or only matches a visible virtual quantity; then exactly what a block prefixed by its prefix sees |
| `Visibility.StackStands` | src/concatenate.rs:1494-1538 | the bindings are those whose introduction stands when each hidden specification removes the innermost left |
| `Visibility.BlockSeesUnpaid` | src/concatenate.rs:1485-1538 | a prefixed block sees the innermost level from which introductions always exceed hidden specifications, or nothing if there is none |
| `Visibility.EventsAre` | src/concatenate.rs:1494-1538 | what is counted: a level introduces a name it declares unless that matches a virtual quantity, the innermost introduction left, and takes away as many as it has hidden specifications of it, except for its own text |
| `Visibility.BlockedIff` | src/concatenate.rs:1513-1530 | a binding is blocked iff its level protects the name from the text, or one further in does that declares nothing while this is the innermost binding left |
| `Visibility.SeesLast` | src/concatenate.rs:1543-1576 | the last binding of the stack that is not blocked and stands at a level of the qualification is the innermost open one by counting |
| `Visibility.SeesOnce` | src/concatenate.rs:1543-1576 | counting leaves one answer only |
| `Visibility.SeenFromSubclass` | src/concatenate.rs:1553-1576 | asked through a prefix of its class, a text sees the innermost introduction left at a level of the qualification after all that its own chain hides; protection does not matter |
| `Visibility.SeenFromPrefix` | src/concatenate.rs:1553-1576 | asked through a subclass, it sees the innermost introduction left on its own chain; levels further in take no part |
| `Visibility.HiddenFurtherIn` | src/concatenate.rs:2846-2938 | a virtual quantity of a that its subclass b hides is not visible through a to the text of a subclass c of b, whatever else they declare, but is to that of b |

## Left out

- Stack switching itself: assembly, guard pages, Windows fibers, thread-local state; a switch is a change of the running coroutine and of the root list head.
- A coroutine's entry function that returns (`done` and `home` in runtime/coro.c) and the destruction of coroutines.
- Collector timing and statistics output, environment variables, peak counters, and the wrap-around of 64-bit counters.
- Hash buckets in the lookup of components, modelled as a search of the records, newest first; component records are never freed, as in the source.
- The `next` pointers of block, free, component and system lists, modelled as sequences.
- SimulationRuns.StepIff: a process of the SIMULATION block is generated and run to its first detach in one step, unless a run of Excursions.ReachIff takes the steps apart; a process that ends is the one on record, whose body the compiler ends with that call.
- SimulationRuns.StepIff: running out of memory while the array of notices grows appears on `Simulation` only.
- Excursions.ReachIff: what happens after the correspondence has been lost is not described, apart from the clock (Excursions.ReachClock) and the programs of TurnCases.
- Excursions.SafeIff: a run in between is to leave those scheduled as ready as they were; Excursions.OutsideIff gives statements that do, and resuming a component of the SIMULATION system while a process is in control is not among them.
- Chapter7.StepInv: the statements that go through a closed system are left to Chapter7Runs.StepInvIff; what the runtime reads from a system record once it is freed is not modelled, the record is kept and marked closed.
- Chapter7Runs.Bracketing: stated over runs whose statements keep the invariants, as are its companions.
- Simset.Sets.Precede: heads are taken to be initialised before use and to carry the registered class, and only links are moved.
- Simset.Sets.Suc: members of one set are at different addresses.
- Real, character, text and reference arrays, whose addressing is that of integer arrays.
- RandomStream.Stream.BasicDraw: the least 64-bit integer cannot be negated; it is reported instead of drawn from.
- Random distributions built on drawings, and all floating-point text items (PUTFIX, PUTREAL, GETREAL).
- TextFrames.EditNumeric: failure of the host to provide the temporary field.
- `virtual_match_level`, storage substitution and the renaming passes of src/concatenate.rs.
- Visibility.IsSubclassOf: prefix chains that run into themselves, on which the source does not come to an end; concatenation rejects them first (src/concatenate.rs:96). Names are taken as already case-folded.
- Files, terminals and other host input and output; the lexer, the parser, lowering and code generation.
