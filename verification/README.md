# Barge rotation planning and terminal admission, in Dafny

This project models the deterministic planning and admission logic of the multi-agent barge
handling simulation (package `jbarge` with the solver package `tdtsp`). Barges arriving at
the port plan a rotation through the container terminals they must visit. Terminals keep an
appointment book and decide, when a barge arrives, whether it may start handling.

The model is purely functional. Books, queues, routes and search states are sequences. The
terminal and barge event handlers are functions from the old state to the new state together
with the events they would hand to the scheduler. The modules are:

- `ListQueries`: the `java.util.List` queries the program relies on: `indexOf`, and the
  absence of duplicates.
- `Events`: terminal and barge identifiers, the port entrance `t0` (terminal 0), and the
  scheduled-action records `Event(time, priority, action)`.
- `AppointmentBook`: a terminal's book. It is kept as a sequence of
  `(barge, LAT, LST, PST, PT, EDT)` entries with the put and remove semantics of Java's
  `LinkedHashMap`. `addAppointment` is the sequence of puts the Java performs.
- `WaitingProfiles`: start intervals, the clipping pass, the step profile, and
  `getMaxWaitingTime` with Constant or Factor slack. Java's truncating `int` division is
  written out.
- `Stages`: the solver's append-only log.
- `PartialSolutions`: the bit-string search state (visited flags plus a 5-bit "last node"),
  `extend`, `examine`, the decoders, and the time-dependent arc cost.
- `Tdtsp`: the exhaustive depth-first search, tour selection (`minimizeSailingtime`,
  `computeSailingtime`) and the solver constructor. `Explore` is an independent
  reference search over visiting orders. It is proved equal to the string search and is
  used to prove the search sound, complete and of size n!.
- `Terminals`: the admission rules of `checkIfHandleBarge`, the scan of
  `checkNextPossibleBargeToHandle`, and the handlers `bargeArrives`, `handleBarge` and
  `finishHandling`.
- `Barges`: the sailing-time sub-matrix, the appointment chain of `addAppointments`, the
  constructor, the voyage handlers, `leavePort` and the information mark, and
  `recalculateRotation`.

The model follows the code as written, including these points:

- A terminal's waiting profile can be empty. Every candidate start interval can be filtered
  out, for example when the gap before the only booked barge is too short and starts in the
  past. `getMaxWaitingTime` then returns 0 from its fall-through line, which the code's own
  comment calls unreachable.
- `addAppointments` registers the barge at `t0` twice, because the route begins and ends
  at node 0. The second registration is a put on an existing key, which either replaces the
  entry in place or moves the barge's old entry to the new insertion point.
- A re-plan changes neither the expected leave time nor `bestSTime`.
- A re-plan restarts the route at node 0, the port entrance. A barge re-planned while it
  waits at terminal X is planned as if it left the port entrance at the re-plan time. It is
  charged `sail[0][first]` for the first leg, and its next arrival is scheduled at the
  re-plan time plus that sailing time (`src/jbarge/Barge.java:546`, `:562`).

## Model

| member | source | states |
|---|---|---|
| AppointmentBook.InsertionPoint | src/jbarge/Terminal.java:92-100 | The insertion point counts the leading entries whose LST is strictly smaller than the new LST. The entry at that point, if any, has an LST at least the new one, so equal LSTs go after the new entry. |
| AppointmentBook.Remove | src/jbarge/Terminal.java:323-327 | Map.remove drops exactly one entry when the barge is booked and changes nothing otherwise. It keeps sortedness and distinctness, the barge is gone afterwards, and every other barge's membership is unchanged. |
| AppointmentBook.PutAllAppend | src/jbarge/Terminal.java:104-125 | Putting two batches one after the other is the same as putting their concatenation. |
| AppointmentBook.PutAllFresh | src/jbarge/Terminal.java:104-125 | Putting entries with distinct new keys appends them in order. |
| AppointmentBook.AddAppointmentFresh | src/jbarge/Terminal.java:87-128 | A barge not yet in the book is inserted just before the first entry whose LST is at least its own. The stored tuple is (LAT, LST, PST = LST, PT, EDT = LST + PT). Every other entry keeps its value and relative order. |
| AppointmentBook.AddAppointmentKeepsSorted | src/jbarge/Terminal.java:87-128 | For a barge not yet in the book: the book grows by one entry, stays sorted by LST if it was, holds no barge twice, and contains the barge. |
| AppointmentBook.AddAppointmentExistingBefore | src/jbarge/Terminal.java:104-125 | A barge already booked before the insertion point has its entry replaced in place by the new tuple. |
| AppointmentBook.AddAppointmentExistingAfter | src/jbarge/Terminal.java:104-125 | A barge already booked at or after the insertion point keeps its OLD tuple, which moves to the insertion point. |
| AppointmentBook.AddAppointmentExisting | src/jbarge/Terminal.java:87-128 | Registering an already-booked barge keeps the size of the book. The book stays free of duplicates and still contains the barge. |
| AppointmentBook.RemoveAfterAdd | src/jbarge/Terminal.java:87-128 | Removing a barge after registering it gives the same book as removing it before, whether or not it was booked. |
| AppointmentBook.RemoveAt | src/jbarge/Terminal.java:326 | In a duplicate-free book, removing the barge at position p cuts out exactly that position. |
| WaitingProfiles.StartIntervalsFrom | src/jbarge/WaitingProfile.java:61-102 | Every kept interval is the candidate of its insertion point. It starts now (position 0) or at the previous entry's EDT, and ends at the next entry's LST minus the handling time, or at Integer.MAX_VALUE. It is kept only when start <= end and start >= now. Insertion points strictly increase. |
| WaitingProfiles.StartIntervalsComplete | src/jbarge/WaitingProfile.java:61-102 | No feasible candidate is lost. |
| WaitingProfiles.StartIntervalsBound | src/jbarge/WaitingProfile.java:61 | There are at most one more intervals than booked barges. |
| WaitingProfiles.ClipAt | src/jbarge/WaitingProfile.java:105-114 | The clipping pass keeps every interval's position and start. It only shortens an interval, to no later than the next start, and the new end is either the old end or the next start. |
| WaitingProfiles.Clip | src/jbarge/WaitingProfile.java:105-114 | After the pass, each interval ends no later than the next one starts. |
| WaitingProfiles.ClipEnds | src/jbarge/WaitingProfile.java:105-114 | No start changes and no end grows. Only ends that overlapped the next interval change, and the last interval is untouched. |
| WaitingProfiles.ClipIdempotent | src/jbarge/WaitingProfile.java:105-114 | The pass leaves disjoint intervals alone, so applying it twice equals applying it once. |
| WaitingProfiles.Entries | src/jbarge/WaitingProfile.java:172-191 | One step per interval. The first step begins now and step k begins at the end of interval k-1. Each step's time plus its maximum wait is its interval's start. |
| WaitingProfiles.NewProfile | src/jbarge/WaitingProfile.java:33-47 | The port entrance gets the single step (0, 0) and interval (0, 0, 0). Any other terminal gets one step per interval. |
| WaitingProfiles.ProfileShape | src/jbarge/WaitingProfile.java:56-191 | A terminal's profile has one step per interval and at most one interval per insertion point, and its first step begins now. No step quotes a negative wait, and waiting out a step brings the barge to its interval's start. |
| WaitingProfiles.TerminalProfileNotPort | src/jbarge/WaitingProfile.java:56-102 | A terminal's profile is never the port entrance's fixed profile, because its intervals are numbered by insertion points from 1 on. |
| WaitingProfiles.FindEntry | src/jbarge/WaitingProfile.java:128-141 | The lookup returns the last step whose time is at or before the arrival, or none when every step is later. |
| WaitingProfiles.RawWait | src/jbarge/WaitingProfile.java:143-157 | The raw wait is never negative, and within its step it is at most the step's maximum wait. |
| WaitingProfiles.TruncDiv | src/jbarge/WaitingProfile.java:164 | Java's int division: the remainder has the sign of the dividend and is smaller in size than the divisor. |
| WaitingProfiles.TruncDivSmall | src/jbarge/WaitingProfile.java:164 | A dividend smaller than the divisor's size gives 0. |
| WaitingProfiles.MaxWaitingTime | src/jbarge/WaitingProfile.java:125-170 | An arrival before every step, or an unrecognised slack method, gets 0. Constant slack gives the raw wait plus the slack. |
| WaitingProfiles.MaxWaitingTimeNonNegative | src/jbarge/WaitingProfile.java:155-166 | With non-negative slack, no quoted wait is negative. |
| WaitingProfiles.FactorSlack | src/jbarge/WaitingProfile.java:161-166 | Factor slack multiplies the raw wait by 1 + bookSize / denominator (truncating division), so a book smaller than the denominator adds nothing. |
| WaitingProfiles.WaitUntilIntervalStart | src/jbarge/WaitingProfile.java:141-157 | Except at the exact moment a later step begins, the raw wait equals the time left until the step's start interval opens, and 0 once it is open. |
| WaitingProfiles.RawWaitNonIncreasing | src/jbarge/WaitingProfile.java:146-157 | Within one step, of two arrivals after the step's start time, the later one never waits longer. In the first step this holds from the start time itself. At a later step's exact start time the wait is 0, and one tick later it can be positive. |
| WaitingProfiles.RawWaitAtStepStart | src/jbarge/WaitingProfile.java:148-149 | At the exact time a later step begins, the raw wait is 0. |
| WaitingProfiles.PortWait | src/jbarge/WaitingProfile.java:37-42 | At t0, an arrival at or after time 0 gets only the constant slack (0 under Factor). An arrival before time 0 gets 0. The book does not matter. |
| WaitingProfiles.EmptyBookProfile | src/jbarge/WaitingProfile.java:61-100 | An empty book gives exactly one interval, [now, Integer.MAX_VALUE], and from now on no wait beyond the slack. |
| WaitingProfiles.ProfileExample | src/jbarge/WaitingProfile.java:56-191 | A worked case: the intervals, the steps, and the waits quoted at several arrival times. |
| WaitingProfiles.EmptyProfileExample | src/jbarge/WaitingProfile.java:169 | A book that filters out every candidate gives an empty profile, and every query answers 0 from the fall-through line. |
| Stages.Empty | src/tdtsp/Stage.java:18-22 | A new stage has three empty lists. |
| Stages.Copy | src/tdtsp/Stage.java:24-41 | Copying the three lists element by element yields a stage equal to the original: the same elements in the same order in every list. |
| Stages.Record | src/tdtsp/Stage.java:43-53 | The three adds append one element each and leave earlier records alone. They keep the three lists the same length. |
| Stages.Clear | src/tdtsp/TDTSP.java:75-77 | Clearing leaves three empty lists. |
| PartialSolutions.ToBinary | src/tdtsp/PartialSolution.java:46 | Integer.toBinaryString yields digits with no leading zero. |
| PartialSolutions.ParseToBinary | src/tdtsp/PartialSolution.java:46-119 | Integer.parseInt(_, 2) inverts Integer.toBinaryString. |
| PartialSolutions.Pad5 | src/tdtsp/PartialSolution.java:47-51 | Left-padding with zeros makes a string of at most five digits exactly five long. |
| PartialSolutions.Encode5RoundTrip | src/tdtsp/PartialSolution.java:46-51 | Decoding the 5-bit field of any node up to 31 gives the node back. |
| PartialSolutions.Decode5RoundTrip | src/tdtsp/PartialSolution.java:114-121 | Every 5-bit field decodes to a node up to 31 whose encoding is that field. |
| PartialSolutions.ParseInjective | src/tdtsp/PartialSolution.java:114-121 | Two bit strings of equal length with the same value are equal. |
| PartialSolutions.NumVisited | src/tdtsp/PartialSolution.java:127-136 | The visited count never exceeds the number of nodes. |
| PartialSolutions.SetFlagCount | src/tdtsp/PartialSolution.java:43 | Setting one unset flag raises the count of '1's by exactly one. |
| PartialSolutions.ChildFacts | src/tdtsp/PartialSolution.java:43-57 | A child sets exactly the new node's flag and no other, names the new node in its 5-bit field, and counts one more visited node. |
| PartialSolutions.Children | src/tdtsp/PartialSolution.java:35-64 | Every child's previous string is the parent's string. Every child is well-formed and visits one node more. |
| PartialSolutions.ChildrenEnc | src/tdtsp/PartialSolution.java:35-64 | `extend` on the string of a visiting order makes the strings of that order extended by each unvisited node, in ascending node order. |
| PartialSolutions.Examine | src/tdtsp/PartialSolution.java:70-77 | ACCEPT exactly when every node is visited. ABANDON is never returned. |
| PartialSolutions.Arc | src/tdtsp/PartialSolution.java:86-99 | An arc costs sailing + quoted waiting at the destination + handling. With non-negative slack it costs at least sailing + handling. |
| PartialSolutions.UnvisitedFrom | src/tdtsp/PartialSolution.java:37-40 | The nodes extend visits next are unvisited, in range, and strictly ascending. |
| PartialSolutions.UnvisitedComplete | src/tdtsp/PartialSolution.java:37-40 | Every unvisited node is among them. |
| PartialSolutions.EncFacts | src/tdtsp/PartialSolution.java:105-136 | The string of a visiting order is well-formed. Its last node is the order's last node and its visited count is the order's length. |
| PartialSolutions.FlagsCount | src/tdtsp/PartialSolution.java:120-136 | The visited flags of a visiting order hold exactly as many set flags as the order has nodes. |
| PartialSolutions.EncInitial | src/tdtsp/TDTSP.java:122-128 | The empty order is encoded as the all-zero initial string. |
| PartialSolutions.ChildEnc | src/tdtsp/PartialSolution.java:43-57 | The child for node j of an order's string is the string of the order extended by j. |
| Tdtsp.SolveIsExplore | src/tdtsp/TDTSP.java:80-113 | The string search accepts exactly the tours, with their costs, of the reference search over visiting orders. |
| Tdtsp.SolveChildrenIsExplore | src/tdtsp/TDTSP.java:108-112 | The loop over the children agrees with the reference loop over the unvisited nodes. |
| Tdtsp.AcceptStep | src/tdtsp/TDTSP.java:95-107 | On a complete order both searches append the same tour and cost. |
| Tdtsp.ContinueStep | src/tdtsp/TDTSP.java:108-112 | On an incomplete order the string search goes on with the encodings of the reference search's children. |
| Tdtsp.SolveContinues | src/tdtsp/TDTSP.java:80-112 | One step of solve on an incomplete state: travel, log, and recurse on the children. |
| Tdtsp.WalkSnoc | src/tdtsp/TDTSP.java:85-86 | Walking one more leg adds that leg's time-dependent travel time. |
| Tdtsp.ExploreKeepsTours | src/tdtsp/TDTSP.java:104-105 | The search only appends to the accepted tours. |
| Tdtsp.ExploreSound | src/tdtsp/TDTSP.java:85-106 | Every accepted tour starts and ends at 0 and visits each node exactly once. Its recorded cost is the start time plus the legs' time-dependent travel times plus the return leg's sailing time. |
| Tdtsp.ExploreComplete | src/tdtsp/TDTSP.java:95-112 | Every visiting order of all nodes is among the accepted tours. |
| Tdtsp.ExploreCount | src/tdtsp/TDTSP.java:95-112 | Below a partial order with k nodes left, exactly k! tours are accepted. |
| Tdtsp.UnvisitedCount | src/tdtsp/PartialSolution.java:37-40 | n minus the order's length nodes remain to visit. |
| Tdtsp.RouteString | src/tdtsp/TDTSP.java:92-101 | The route text is a space and one digit per node. |
| Tdtsp.DigitRoundTrip | src/tdtsp/TDTSP.java:258-261 | Integer.parseInt reads back the digit written for a node. |
| Tdtsp.ComputeSailingtime | src/tdtsp/TDTSP.java:250-268 | Scanning the route text sums the plain sailing times over consecutive nodes. |
| Tdtsp.RouteChar | src/tdtsp/TDTSP.java:255-261 | Character 2m of the route text is a space and character 2m+1 is node m's digit. |
| Tdtsp.Min | src/tdtsp/TDTSP.java:208 | Collections.min returns a member that is no larger than any element. |
| ListQueries.IndexOf | src/tdtsp/TDTSP.java:209 | List.indexOf returns the first position holding the value, or -1 exactly when the value is absent. The same query looks up a terminal at src/jbarge/Barge.java:534. |
| Tdtsp.Ties | src/tdtsp/TDTSP.java:211-218 | Exactly the positions of the minimal cost, in increasing order. |
| Tdtsp.SailingTimes | src/tdtsp/TDTSP.java:225-232 | The plain sailing time of each tied tour, in order. |
| Tdtsp.MinimizeSailingtime | src/tdtsp/TDTSP.java:203-241 | The chosen tour has minimal cost. Among the minimal-cost tours it has minimal sailing time, and among those it comes first. |
| Tdtsp.SolveKeepsBalanced | src/tdtsp/TDTSP.java:88-93 | The log's three lists keep equal length through the whole search. |
| Tdtsp.AcceptedTours | src/tdtsp/TDTSP.java:58-78 | The search from the initial string at the start time accepts n! tours. Each is a tour costed at its leave time, and every visiting order is among them. |
| Tdtsp.BestBeatsEveryOrder | src/tdtsp/TDTSP.java:133-138 | The chosen tour leaves no later than any visiting order. An order that leaves equally early sails no less. |
| Tdtsp.NewTdtsp | src/tdtsp/TDTSP.java:58-78 | The best route is a tour and its text is the route string. Its leave time is optimal over all visiting orders, ties are broken by sailing time, the sojourn time is leave minus start, and the log is cleared. |
| Terminals.NewTerminal | src/jbarge/Terminal.java:59-66 | A new terminal is IDLE, with an empty book and queue and nobody handling. |
| Terminals.RemoveFirst | src/jbarge/Terminal.java:224 | Queue.remove drops exactly one occurrence, and only if the barge is queued. |
| Terminals.CheckIfHandleBarge | src/jbarge/Terminal.java:178-257 | The admission rules are: the only appointment; the punctual head; the late head that finishes by the second entry's LST; a non-head that finishes by the head's LST, or any non-head once the check time is past the head's LST. A barge is never both admitted and rejected. An admission emits one start event. A rejection removes the barge from the book and the queue. Otherwise nothing changes. |
| Terminals.AdmissionRespectsNext | src/jbarge/Terminal.java:204-254 | With several appointments, an admitted barge is the punctual head or finishes before the LST it must not push back, or that LST has passed. |
| Terminals.PunctualHeadAdmitted | src/jbarge/Terminal.java:204-212 | A punctual head is always admitted. |
| Terminals.FirstAdmissible | src/jbarge/Terminal.java:266-280 | Reference answer: the first queued barge of the snapshot that the rules admit, or none. |
| Terminals.ScanFacts | src/jbarge/Terminal.java:266-280 | A scan keeps the terminal consistent. It changes neither its identity, its arrivals nor its handling count. |
| Terminals.ScanKeepsSorted | src/jbarge/Terminal.java:266-280 | A scan only removes appointments, so a book sorted by LST is still sorted afterwards. |
| Terminals.ScanRemovesFromBook | src/jbarge/Terminal.java:266-280 | The rejected barges, and only they, leave the book. This is the book before the rejected barges' re-plans book them again. |
| Terminals.ScanRemovesFromQueue | src/jbarge/Terminal.java:266-280 | The rejected barges, and only they, leave the queue. |
| Terminals.ScanFromSnapshot | src/jbarge/Terminal.java:266-280 | Admitted and rejected barges are queued barges of the snapshot. |
| Terminals.ScanFindsFirst | src/jbarge/Terminal.java:266-280 | When nobody would be rejected, the scan admits the reference answer. |
| Terminals.NoRejectionSameBook | src/jbarge/Terminal.java:266-280 | A scan that rejects nobody leaves the book and the queue as they were. |
| Terminals.CheckNext | src/jbarge/Terminal.java:259-313 | With an empty queue the terminal goes IDLE. A found barge means HANDLING and exactly one start event for a queued, booked barge. The queue loses exactly the rejected barges. So does the book, before their re-plans book them again. A book sorted by LST stays sorted. |
| Terminals.CheckNextAdmitsFirst | src/jbarge/Terminal.java:259-313 | When nobody would be rejected, the first admissible barge in book order is started. |
| Terminals.AdmitOnArrival | src/jbarge/Terminal.java:166-172 | Reserved logic at an IDLE terminal: an admissible barge starts at once. A rejectable one is the first rejected, and then the others are scanned. A book sorted by LST stays sorted. |
| Terminals.ScanAfterCheck | src/jbarge/Terminal.java:166-172 | When the arriving barge is not admitted: a rejected arriving barge heads the rejected list, and the book and queue lose exactly the rejected barges, before their re-plans book them again. |
| Terminals.RejectThenScan | src/jbarge/Terminal.java:166-172 | When the arriving barge is rejected and the book is then scanned, the book and queue lose the arriving barge and the barges the scan rejects, and nothing else. |
| Terminals.OnBargeArrives | src/jbarge/Terminal.java:153-173 | The arrival is recorded and the barge is queued. A HANDLING terminal does nothing more. Under Unreserved logic an IDLE terminal starts the barge. A book sorted by LST stays sorted. |
| Terminals.OnHandleBarge | src/jbarge/Terminal.java:411-454 | The barge leaves the queue, the terminal is HANDLING with one more barge in handling, and a finish event is emitted at start + handling. |
| Terminals.OnFinishHandling | src/jbarge/Terminal.java:323-389 | The appointment is removed and one barge fewer is handling. An empty queue makes the terminal IDLE. Unreserved logic starts the queue head and Reserved logic rescans. A book sorted by LST stays sorted. |
| Terminals.HandleThenFinish | src/jbarge/Terminal.java:323-327 | Handling then finishing a barge restores the handling count and removes its appointment. |
| Barges.CreateSailingTimes | src/jbarge/Barge.java:164-175 | An n-by-n matrix with entry [i][j] equal to the table entry of terminals i and j. |
| Barges.Profiles | src/jbarge/Barge.java:180-198 | One profile per itinerary terminal. A node gets the fixed no-wait port-entrance profile exactly when its terminal is t0. |
| Barges.ProfilesShaped | src/jbarge/Barge.java:180-198 | Every other terminal's profile is shaped by its own book: one step per interval, at most one interval per insertion point, the first step at the request time, no negative wait, and waiting out a step reaches its interval's start. |
| Barges.PlanInstanceValid | src/jbarge/Barge.java:133-138 | The solver instance a barge builds is valid over its own itinerary. |
| Barges.RegisterAt | src/jbarge/Barge.java:226-227 | Registering touches only the one terminal's book. |
| Barges.PortSizeIrrelevant | src/jbarge/WaitingProfile.java:158-166 | At t0 the quoted wait does not depend on the live book size. |
| Barges.QuoteIsArc | src/jbarge/Barge.java:219-230 | One chain leg, LST + handling, equals departure + the solver's arc time, provided the book is the one the solver read. |
| Barges.DeparturesAreWalk | src/jbarge/Barge.java:208-231 | Departure times that follow the solver's arcs are the solver's accumulated walk times. |
| Barges.RegisterLeg | src/jbarge/Barge.java:215-231 | LAT = departure + sailing. Only the destination's book changes. On the solver's books, the next departure is the arc's end. |
| Barges.TimedIsWalk | src/jbarge/Barge.java:208-231 | A chain whose legs follow the arcs keeps the solver's clock: LAT = walk + sailing and LST + handling = walk after the leg. |
| Barges.AddAppointments | src/jbarge/Barge.java:203-269 | One booking per route node at that node's terminal. Books of other terminals are untouched, duplicate-freedom is kept, and the barge ends up booked along the route. Apart from the barge, no book changes. The chain keeps the solver's clock. |
| Barges.ChainLeaveTime | src/jbarge/Barge.java:208-231 | The final appointment, at the port exit, arrives at the solver's leave time. |
| Barges.TourReadsPlan | src/jbarge/Barge.java:133-142 | Before any registration the books are the ones the solver read, apart from t0, whose wait does not depend on size. |
| Barges.PlanRoute | src/jbarge/Barge.java:133-140 | The barge's matrix is the sub-table. The chosen route is a tour whose leave time is no later than that of any visiting order. The sojourn time is leave minus start. |
| Barges.RegisterRotation | src/jbarge/Barge.java:142 | Registering the planned route books the barge along it, and the final LAT is the planned leave time. |
| Barges.ScheduleArrivalTerminal | src/jbarge/Barge.java:276-318 | The next arrival is after the first leg's sailing time, which is added to the total sailing time and nothing else. |
| Barges.OnArriveAtTerminal | src/jbarge/Barge.java:325-342 | The barge waits, and the terminal is told at once. |
| Barges.StartHandling | src/jbarge/Terminal.java:417-447 | The barge is HANDLING and its handling time is added to its total handling time. |
| Barges.AfterFinish | src/jbarge/Barge.java:348-382 | The barge sails again and records the terminal as visited. It drops one route node while more than one leg remains, then sails the next leg or the exit leg, adding that leg to the total sailing time. |
| Barges.AfterFinishOnRoute | src/jbarge/Barge.java:348-382 | Finishing at the next route node moves the barge one leg along the same route. The last leg leads to the exit. |
| Barges.InformationSatisfaction | src/jbarge/Barge.java:464-496 | The mark is in 1..7, and is 7 exactly when -3 < difference <= 7. |
| Barges.SatisfactionMonotone | src/jbarge/Barge.java:467-496 | The mark rises up to the band around 0 and falls beyond it. |
| Barges.OnLeavePort | src/jbarge/Barge.java:388-425 | For a barge numbered up to 800000: waiting + handling + sailing = actual sojourn, and difference = expected leave - time. Other barges are unchanged. |
| Barges.PunctualLeaveSatisfies | src/jbarge/Barge.java:406-408 | Leaving at the promised time gives difference 0 and mark 7. |
| Barges.KeepUnvisited | src/jbarge/Barge.java:530-537 | Reference definition of a re-plan's terminals: the unvisited terminals with their handling times, in order. t0 stays first. |
| Barges.KeptMember | src/jbarge/Barge.java:530-537 | A terminal is kept exactly when it was on the list and not visited. |
| Barges.KeptPairs | src/jbarge/Barge.java:530-537 | Kept terminals stay distinct, and each keeps its own handling time. |
| Barges.DropVisited | src/jbarge/Barge.java:530-537 | The drop loop removes, for each visited terminal, its index from both lists, which stay parallel. |
| Barges.DropVisitedIsFilter | src/jbarge/Barge.java:530-537 | The index-based drop loop equals the reference filter. |
| Barges.KeepAll | src/jbarge/Barge.java:530-537 | With nothing visited, everything is kept. |
| Barges.Cancel | src/jbarge/Barge.java:526-528 | The books of terminals outside the itinerary are unchanged. |
| Barges.CancelRemoves | src/jbarge/Barge.java:526-528 | With distinct itinerary terminals, each of their books loses exactly the barge's appointment. |
| Barges.CancelKeepsDistinct | src/jbarge/Barge.java:526-528 | Cancelling keeps every book free of duplicate barges, and the barge is left in none of the cancelled books. |
| Barges.KeptItinerary | src/jbarge/Barge.java:530-542 | The kept terminals still form an itinerary. |
| Barges.SetSail | src/jbarge/Barge.java:149-155 | The barge is at the start of its route, and the first arrival event is after the first leg. |
| Barges.PlanRotation | src/jbarge/Barge.java:133-155 | The plan is a tour with the least leave time over the itinerary. The barge is booked along it and no other book changes. |
| Barges.NewBarge | src/jbarge/Barge.java:120-156 | The constructor: identity, terminals and handling times as given; planned and on its route; expected leave time = final LAT; bestSTime = leave - arrival; zero totals; the first arrival event; books changed only by the barge's bookings. |
| Barges.ClearRotation | src/jbarge/Barge.java:524-541 | Cancel everywhere, then keep the unvisited terminals, which still form an itinerary. |
| Barges.ReplanBooks | src/jbarge/Barge.java:524-562 | After the re-plan, no visited terminal still books the barge. |
| Barges.ReplanRotation | src/jbarge/Barge.java:542-562 | A fresh plan from the re-plan time over the kept terminals. Arrival time, expected leave and bestSTime are unchanged. |
| Barges.RecalculateRotation | src/jbarge/Barge.java:524-564 | The terminals are the unvisited ones with their handling times, and visited is cleared. The new plan is optimal from the re-plan time on the cancelled books. Identity, arrival and expected leave times are unchanged. Visited terminals no longer book the barge and the new route's terminals do. |

## Left out

- `Port.java`: the simulation builder, spreadsheet loading and global settings. The slack
  method, slack, denominator and terminal logic are parameters. The itinerary bound is a
  precondition: at most 9 nodes besides t0 for the solver, so every node is one digit.
- `Statistics.java` and every statistics, spreadsheet or console output. These are reporting
  only.
- Stochastic sailing and handling times (`nextGaussian`, `Math.round`). Only the
  deterministic model is covered.
- The discrete-event scheduler. Every scheduling call becomes an `Event` record, and
  dispatch order is not modelled.
- `waitingtimeSatisfaction` and its `double` fraction. This is floating point.
- String building and logging: `toString`, `appointmentsToString`, `queueToString`,
  `bestRouteToString`, `getAccepted`, `saveAppointmentsterminals`. Also the barge's own
  appointment map, which is only printed.
- The static `LEFT` counter and the removal from the simulation context in `leavePort`. These
  are bookkeeping of the framework.
- Java `int` overflow. Integers are unbounded, and `Integer.MAX_VALUE` is kept as a
  constant, so the comparisons against it are exact.
- Terminals.AdmitOnArrival: a rejection calls `recalculateRotation` re-entrantly, in the
  middle of the scan. The model returns the rejected barges and leaves the re-plan to the
  caller.
- Terminals.CheckNext: the Java re-plans a rejected barge before the scan asks about the
  next one (`src/jbarge/Terminal.java:237`). That re-plan books the barge at this terminal
  again, because the terminal is still on its itinerary. The model's later checks in the
  same scan read the book without it, so a later admission in that scan can differ from the
  Java's. For example, a late head's second appointment may now be the re-booked barge's
  earlier LST.
- Terminals.ScanRemovesFromBook: for the same reason, it describes the book before the
  rejected barges' re-plans, not the book the Java holds when the scan ends.
- Terminals.OnFinishHandling: the Reserved rescan is `CheckNext`, so it inherits the same
  difference after a rejection.
- WaitingProfiles.MaxWaitingTime: requires a non-zero Factor denominator, like `PortOk`. With
  a zero denominator the Java throws `ArithmeticException` at
  `src/jbarge/WaitingProfile.java:164` whenever a step is found. The port entrance's
  profile finds its step for every time from 0 on. The solver's opening 0-to-0 leg queries
  it at the start time (`src/tdtsp/TDTSP.java:70-71,85` and
  `src/tdtsp/PartialSolution.java:91-93`), and so does the first `addAppointments` step
  (`src/jbarge/Barge.java:220`), so such a configuration never gets past the first plan.
- Barges.RecalculateRotation: requires that t0 was not visited. A visited t0 would be dropped
  by the Java too, leaving an itinerary without the port entrance.
- Barges.AddAppointments: does not claim that t0's book stays sorted after the second,
  duplicate registration at t0. The terminal handlers do not need a sorted book: they keep
  one-entry-per-barge and the arrival record, and they keep a sorted book sorted.
- Tdtsp.ExploreCount: counts the accepted tours but does not state that they come in
  lexicographic order.
