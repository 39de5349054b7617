# hs_common: proofs about its session registry, its packet streams and its path search

This Dafny project models three parts of hs_common and proves what they do over whole runs.

**The session registry** (`hs_sessionmgr.cpp`). `HSSessionMgr` hands out session ids from a 32-bit
counter that wraps, and keeps shared sessions in one table and local sessions in another. `Registry.dfy`
gives one step function for every call and for every connect and disconnect of a session; a run is a
sequence of such steps and `At(log, k)` is the state after the first k. `SharedHistory.dfy`,
`LocalHistory.dfy` and `Interleaving.dfy` hold the theorems over runs, with wraps and removals included.
`SessionMgr.dfy` is the class with its mutable fields, proved to follow those runs; a session that its
own handlers disconnect is reported to the run by `ReadCompletes`, `ReadFails` and `WriteFails`, or by
`FlagMayFall` and `Notice` after any other step of the session.

The counter is an `unsigned int` taken as 32 bits wide. `map::insert` does not overwrite, so after a
wrap `new_session` can return a session that is in no table; the theorems say exactly when, and what
keeps it from happening. They leave open which connected flag a session is built with; `HSSession`'s
constructor clears it (`hs_session.cpp:5`), and so does the class `Session`.

**The packet stream of a session** (`hs_packetworker.cpp`, `hs_buffer.h`, `hs_session.cpp`).
`Packet.dfy` is the format and the meaning of a byte stream, `Wire.dfy` the format byte by byte,
`Buffers.dfy` and `Sessions.dfy` are the classes that work on the buffers in place, `Flow.dfy` says on
values what one completed read, write or send does. `Reading.dfy` has the class receive a whole stream,
read by read. `Channel.dfy` proves that the way a stream is cut into reads does not matter and that a
sender joined to a receiver by a lossless first-in-first-out transport delivers what it accepted.
`Promises.dfy` says when all that `send` answered true for is accepted, `Stalls.dfy` when accepted bytes
wait with no write under way, `Writes.dfy` what a write is given, where the sender's offset stands and
which bytes are not with the operating system, `Delivery.dfy` when everything accepted can still arrive
without another `send`, `Starving.dfy` a run after which it cannot although all is written.
`Deafness.dfy` treats all sessions of a process together, because `handle_read` keeps its limit in one
function-local static, and proves for which buffer lengths no session can end up reading into a full
buffer.

`write_result` calls `handle_write` for what a write left behind (`hs_session.cpp:180-182`) and after a
would-block error (`hs_session.cpp:187-189`), but the flag that `handle_write` tests is cleared only
afterwards, so nothing is started. `Stalls.StalledIff` says exactly when bytes wait for that reason;
`Stalls.FullWriteStrands` and `Stalls.BlockedStrands` are runs that show it.

The static limit is fixed once for the whole process. `Delivery.CanFinishIff` takes it as it is and says
exactly when a connection can still deliver everything; for a buffer that holds a packet, only unstarted
writes prevent it while the limit is within the buffer (`Delivery.SuitedIff`), and with a larger one the
next packet must also fit in what is left of the buffer (`Delivery.OversizedIff`).
`Starving.WrittenNeverDelivered` is a run with the lengths of `hs_acceptor.h` where it does not.

**The path search** (`hs_astar.cpp`). `Grid.dfy` is the grid and its routes, `Walks.dfy` the same in
terms of the array and of indices alone, `Search.dfy` the state of the search and what every step keeps,
`Demand.dfy` the search without its allocator and the nodes it takes, `Reopening.dfy` a search that
takes the most it can, repeated until the nodes run out, `Detour.dfy` one that chooses between two
shortest routes, both worked out with `Stepping.dfy`, `AStar.dfy` the loops with the allocator, proved
to return a shortest route or to run out of nodes exactly when fewer are left than it takes.

Where the code and its comments differ, the model follows the code:

- `hs_session.cpp:213-214` says that a packet that does not fit in the send buffer is retried and that
  the connection is given up after three failures. The code drops the packet and returns true
  (`Promises.TrueAndDropped`); `Promises.PromisesKeptIff` says when nothing is lost that way.
- `hs_astar.cpp:268` says that closed nodes are passed over. The scan starts one slot early and misses
  the oldest closed node, the start, which can therefore be opened a second time (`AStar.IsInClosed`,
  `Reopening.StartOpensTwice`); the result is a shortest route all the same (`AStar.FindPath`).
- `hs_connector.h:28-30` tests whether the session returned by `new_local_session` is connected. By
  `LocalHistory.RefusedIff` no session is returned connected, `HSSession` being built disconnected; for
  a connected one the result is null.

## Model

| member | source | states |
|---|---|---|
| Registry.Reachable | hs_sessionmgr.cpp:4-55 | Key agreement: at every moment of every run, wraps and removals included, each table stores a session under the id it was constructed with, the counter equals the number of creations mod 2^32, and no local session ever leaves its table |
| Registry.NoAliasing | hs_sessionmgr.cpp:8-55 | At every moment no session object is under two keys of one table or in both tables |
| SharedHistory.CounterCounts | hs_sessionmgr.cpp:4-14 | The n-th creation of a run returns the n-th session and issues n mod 2^32, whatever is called in between |
| SharedHistory.IssuedIs | hs_sessionmgr.cpp:10-13 | A creation leaves the counter at one more than the number of creations before it, mod 2^32 |
| SharedHistory.SameIdIff | hs_sessionmgr.cpp:10 | Two creations issue the same id exactly when 2^32 divides the number of creations between them |
| SharedHistory.FirstIdsDistinct | hs_sessionmgr.cpp:4-13 | The first 2^32 - 1 ids of a run are nonzero and pairwise distinct, removals or not |
| SharedHistory.LiveIff | hs_sessionmgr.cpp:8-31 | An id is in the table exactly when some creation issued it with no removal of it since |
| SharedHistory.EntryPersists | hs_sessionmgr.cpp:8-31 | An entry stays the same session until its id is removed, even when the id is issued again |
| SharedHistory.GoneForGood | hs_sessionmgr.cpp:8-31 | A session that is built but not in the table never enters it again |
| SharedHistory.HistoryRefinement | hs_sessionmgr.cpp:10-30 | get_session(id) is the session of the earliest creation that issued id after the latest remove_session(id), which is unique, and null exactly when there is none, as a fact about the log of calls alone |
| SharedHistory.OrphanIff | hs_sessionmgr.cpp:10-22 | A created session is unregistered exactly when its id was live just before the call; then the older session stays and no later get_session ever returns the new one |
| SharedHistory.StaleIdWindow | hs_sessionmgr.cpp:10-30 | After remove_session(id) with counter c, get_session(id) is null through the next (id - c - 1) mod 2^32 creations, whatever else is called, and the creation after them issues and registers id |
| SharedHistory.NothingLostIff | hs_sessionmgr.cpp:10-30 | Over any number of wraps, every session is registered when it is returned if and only if every id is removed before the creation 2^32 later |
| SharedHistory.CreatedMinusRemoved | hs_sessionmgr.cpp:10-30 | Under that condition a created session is in the table exactly when its id has not been removed since its creation |
| SharedHistory.RemovalsAlternate | hs_sessionmgr.cpp:10-30 | Between two successful removals of an id some creation issued it |
| SharedHistory.RemovedAtMostOnce | hs_sessionmgr.cpp:10-30 | In a run of fewer than 2^32 creations no id is removed successfully twice |
| SharedHistory.Conservation | hs_sessionmgr.cpp:10-30 | The table size is creations minus unregistered creations minus successful removals, at most 2^32, and no creation is unregistered before the counter wraps |
| LocalHistory.LocalDomain | hs_sessionmgr.cpp:33-55 | The local table holds exactly the sids ever requested through new_local_session |
| LocalHistory.LocalPersists | hs_sessionmgr.cpp:33-55 | An entry of the local table never changes and never leaves |
| LocalHistory.OneObjectPerSid | hs_sessionmgr.cpp:33-55 | Over a whole run, two non-null results of new_local_session or get_local_session are the same object exactly when they were asked for the same sid, and once a session was obtained every later get_local_session for its sid returns it |
| LocalHistory.GetLocalIff | hs_sessionmgr.cpp:49-55 | get_local_session(sid) is null exactly when new_local_session was never asked for sid before, and otherwise what the first such request returned |
| LocalHistory.BuiltOnce | hs_sessionmgr.cpp:33-47 | At most one local session is ever constructed for a sid |
| LocalHistory.UpIff | hs_sessionmgr.cpp:37-41 | What is_connected answers at any moment of a run: true exactly when a connect, or the construction, set the flag and no clear came since |
| LocalHistory.RefusedIff | hs_sessionmgr.cpp:35-46 | new_local_session(sid) returns null exactly when sid was requested before and its session is connected, and then changes nothing; a session it does return is connected only if this very call constructed it so |
| LocalHistory.ReuseNeedsDisconnect | hs_sessionmgr.cpp:35-42 | Between a connect of sid's session and the next call that hands it out there is a disconnect of that same session |
| Interleaving.StateSplits | hs_sessionmgr.cpp:8-55 | The state after a mixed run is the shared half of the shared calls run alone with the local half of the local calls run alone |
| Interleaving.ResultsSplit | hs_sessionmgr.cpp:8-55 | Every call of a mixed run returns what it returns when the other half of the calls is left out |
| SessionManager.SessionMgr.constructor | hs_sessionmgr.cpp:4-6 | A new manager is the start of a run: empty tables, counter 0 |
| SessionManager.SessionMgr.NewSession | hs_sessionmgr.cpp:8-14 | The new session is a fresh, valid, disconnected object with empty buffers that no other session shares and the next id; the table keeps an entry already under that id; the objects and the fields still follow the run of calls |
| SessionManager.SessionMgr.GetSession | hs_sessionmgr.cpp:16-22 | The object returned is the one built by the earliest creation that issued id after its latest removal, and null exactly when there is none |
| SessionManager.SessionMgr.RemoveSession | hs_sessionmgr.cpp:24-31 | True exactly when id was present; exactly that entry is gone |
| SessionManager.SessionMgr.NewLocalSession | hs_sessionmgr.cpp:33-47 | Null exactly when sid's session exists and is connected; otherwise sid's disconnected session, built valid with empty buffers that no other session shares and registered when there was none |
| SessionManager.SessionMgr.GetLocalSession | hs_sessionmgr.cpp:49-55 | sid's session, and null exactly when the log holds no request for sid |

## Packet streams and path search

The members below model `hs_session.cpp`, `hs_packetworker.cpp`, `hs_buffer.h`, `hs_acceptor.h` and
`hs_astar.cpp` with its header. These files are GBK text with Chinese comments; the lines are theirs.

| member | source | states |
|---|---|---|
| SessionManager.SessionMgr.PeerConnects | hs_session.cpp:44-50 | A connect of a session the manager built calls its handler, sets its flag, keeps it valid and leaves the manager's fields to the same run |
| SessionManager.SessionMgr.PeerLeaves | hs_session.cpp:23-30 | Any session the manager built can be cleared: its flag is reset, it is valid afterwards, and the manager's fields follow the same run |
| SessionManager.SessionMgr.SessionsApart | hs_session.cpp:4-9 | Any two sessions of a manager are different objects with different buffers, so no step of one touches the other |
| SessionManager.SessionMgr.ReadCompletes | hs_session.cpp:52-106 | A read of one of its sessions does to buffers, handler and static what HandleRead does; the manager still follows a run, which has one more clear exactly when a corrupt stream disconnected a connected session |
| SessionManager.SessionMgr.ReadFails | hs_session.cpp:107-120 | The same for a failed read: one more clear exactly when a real error disconnected a connected session |
| SessionManager.SessionMgr.WriteFails | hs_session.cpp:184-198 | The same for a failed write |
| Packet.NetRoundTrip | hs_packetworker.cpp:23-30 | Four bytes read as a big-endian number and written again are the same bytes |
| Wire.FrameBytes | hs_packetworker.cpp:60-68 | The header of a packet byte by byte: the length and then 0x0EDCBA98, each in four bytes with the most significant first |
| Wire.DecodeIff | hs_packetworker.cpp:9-46 | DecodePacket finds a packet exactly when the data begins with one, and points to its user data; waits exactly when the data is shorter than a header or the beginning of a packet; and reports corruption otherwise |
| Wire.EncodeIff | hs_packetworker.cpp:48-73 | EncodePacket gives -1 exactly above 8184 bytes, 0 exactly when packet and header have no room, and the packet otherwise |
| Packet.DecodeFrame | hs_packetworker.cpp:9-73 | What EncodePacket writes, followed by anything, decodes to exactly the user data, and what follows is left over |
| Packet.FrameDecode | hs_packetworker.cpp:9-73 | Bytes that decode to a packet are the encoding of that packet followed by the rest |
| Packet.VerdictStable | hs_packetworker.cpp:9-46 | A verdict of complete or corrupt does not change when more bytes arrive |
| Packet.ParseFrames | hs_packetworker.cpp:9-73 | Any list of sendable messages, encoded one after another, parses back to the same list with nothing over |
| Packet.FramesParse | hs_packetworker.cpp:9-73 | Parsing loses nothing: every stream is the encoding of its packets followed by the unparsed rest |
| Packet.ParseAppend | hs_session.cpp:61-96 | Parsing a stream in two pieces and carrying the unfinished rest over finds the packets of the whole stream; a corrupt stream stays corrupt |
| Packet.ParsePrefix | hs_session.cpp:61-96 | Any prefix of an encoded stream is well formed and carries a prefix of the messages |
| Buffers.RecvBuffer.DataIn | hs_buffer.h:65-73 | Accepts the bytes exactly when there is room, and then they are the newest unused bytes |
| Buffers.RecvBuffer.DataUse | hs_buffer.h:161-174 | Drops the n oldest unused bytes and nothing else; both offsets return to 0 exactly when nothing is left and the reset flag is set |
| Buffers.RecvBuffer.MoveUnusedToBegin | hs_buffer.h:176-184 | Moves the unused bytes, overlapping or not, to the beginning without changing them |
| Buffers.SendBuffer.EncodeAtEnd | hs_packetworker.cpp:48-73 | -1 and 0 leave the buffer alone; 1 puts the encoding after the unsent bytes, which stay |
| Buffers.SendBuffer.Sent | hs_buffer.h:252-266 | Drops the n oldest unsent bytes and nothing else |
| Sessions.Session.constructor | hs_session.cpp:4-9 | A session is built with the id it is given, disconnected, with no event handler and nothing in its buffers |
| Sessions.Session.DecodeLoop | hs_session.cpp:65-96 | The loop delivers, in order, exactly the packets of the unused bytes and leaves exactly their unparsed rest |
| Sessions.Session.HandleRead | hs_session.cpp:52-106 | A completed read makes the step AfterRead on the buffer and the static limit and calls the handler once per packet in order; the send side, the handler and the connected flag stay as they are, and on a corrupt stream the session is cleared and disconnected |
| Sessions.Session.HandleReadError | hs_session.cpp:107-120 | The would-block error reads again with nothing changed, on either side; any other reports a disconnect and clears both sides |
| Sessions.Session.Send | hs_session.cpp:201-224 | Makes the step AfterSend on the send buffer and the outstanding write |
| Sessions.Session.WriteDone | hs_session.cpp:165-198 | Makes the step AfterWrite; unsent bytes stay, in order, and no new write is started |
| Sessions.Session.WriteError | hs_session.cpp:184-198 | The would-block error only ends the write, starts none and leaves the receiving side as it is; any other reports a disconnect and clears both sides |
| Reading.ReadAll | hs_session.cpp:52-106 | A session that reads chunk after chunk hands its handler exactly the packets of the whole stream, keeps exactly its unparsed rest, and is disconnected exactly when the whole stream is corrupt |
| Channel.ReadsParse | hs_session.cpp:52-106 | From any unfinished bytes on, a run of reads delivers the parse of those bytes with all that the reads store |
| Channel.CutsDoNotMatter | hs_session.cpp:52-106 | For every byte stream, corrupt ones included, and every way of cutting it into reads, what is delivered is the parse of the whole stream |
| Channel.EndToEnd | hs_session.cpp:52-224 | At every moment of every run of sends, partial writes, blocked writes and partial reads: the receiver never sees a corrupt stream, has delivered a prefix of what was accepted, no byte is lost or duplicated, and once nothing waits everything accepted is delivered |
| Promises.AcceptedIsPromised | hs_session.cpp:201-224 | At every moment of every run the stream holds all that send answered true for if each of those sends had room in the buffer, and fewer messages otherwise |
| Promises.PromisesKeptIff | hs_session.cpp:201-224 | What was accepted is what send answered true for if and only if each of those sends had room; once nothing waits anywhere the same holds of what was delivered |
| Promises.TrueAndDropped | hs_session.cpp:201-224 | Two sends of the longest message into a buffer for one packet both answer true and one message is dropped |
| Stalls.RunMarkedWaits | hs_session.cpp:139-224 | At every moment of every run a write is marked as under way only while bytes wait |
| Stalls.WedgedIff | hs_session.cpp:139-224 | A write is marked as under way with none under way if and only if some write of the run took no byte; no send ever starts a write again |
| Stalls.StalledIff | hs_session.cpp:139-224 | At every moment of every run, bytes wait with no write under way if and only if some write ended with bytes left behind, or with the would-block error, and either took none or was followed by no send of data that fits in a packet |
| Stalls.FullWriteStrands | hs_session.cpp:139-198 | A write that takes all it was given strands what was sent meanwhile |
| Stalls.BlockedStrands | hs_session.cpp:184-198 | A write refused with the would-block error strands what it was given |
| Delivery.CanFinishIff | hs_session.cpp:52-198 | Whatever the static limit and the buffer length: writes and reads alone, each read finding the limit as the last one left it, can deliver everything accepted if and only if that has happened, or the receiver reads, nothing waits that is not with the operating system, no packet to come is longer than the buffer, and there is room: for any byte when the limit is within the buffer, for the rest of the next packet when it is not |
| Delivery.KeepsRoom | hs_session.cpp:52-106 | The receive buffer has room at every moment of a run whose limits suit it |
| Delivery.DeliverableIff | hs_session.cpp:52-224 | The same at every moment of every run, for every value of the static |
| Delivery.SuitedIff | hs_session.cpp:52-224 | With a buffer for a packet and limits within it, a receiver that still reads can get everything if and only if nothing waits or all that waits is with the operating system |
| Delivery.OversizedIff | hs_session.cpp:98-103 | With a limit beyond the buffer it also takes that the rest of the next packet fits in the room that is left |
| Writes.GivenAll | hs_session.cpp:139-163 | At every moment of every run, a write under way was started by a send with data that fits, was given all that waited at that moment, and nothing has ended a write since |
| Writes.OffsetIs | hs_buffer.h:252-266 | The in offset of the send buffer is always the number of bytes accepted since nothing last waited, so it is 0 whenever nothing waits |
| Writes.StrandedIff | hs_session.cpp:139-224 | Some waiting bytes are not with the operating system if and only if a stall keeps them or a packet was accepted after the send that started the write under way |
| Writes.ReadsUntilEmpty | hs_session.cpp:52-106 | A receiver reads until a read brings no byte, and no longer |
| Starving.ServerLimit | hs_session.cpp:99 | The static that the longer buffer of the acceptor fixes |
| Starving.WrittenNeverDelivered | hs_session.cpp:98-103 | A run with the two lengths of the acceptor: everything is written, the receiver reads and has room, and the last packet can never be delivered |
| Deafness.RunRoomy | hs_session.cpp:98-103 | With compatible buffer lengths every session keeps room to read at every moment of every run |
| Deafness.LimitIs | hs_session.cpp:98-103 | The static is unset until a read leaves an unfinished packet; the first such read of the process fixes it for good, by the buffer length of its session |
| Flow.MoveLimitIs | hs_session.cpp:99 | The buffer length less a packet; for a shorter buffer the subtraction wraps |
| Deafness.ShortIsDeaf | hs_session.cpp:98-103 | A receive buffer shorter than a packet can fill up and leave its session unable to receive |
| Deafness.ShorterIsDeaf | hs_session.cpp:98-103 | A session can be left unable to receive by another whose buffer is more than a packet longer |
| Deafness.NeverDeafIff | hs_session.cpp:98-103 | No run of any sessions leaves one reading into a full buffer if and only if every buffer holds a packet and no two lengths differ by more than a packet |
| Deafness.DefaultLengthsDeafen | hs_acceptor.h:27-30 | The two lengths the acceptor uses side by side do not meet that condition |
| Grid.Map.Inside | hs_astar.h:24-37 | Converting an index of the grid to coordinates and back gives the index |
| Grid.Map.InsideIndex | hs_astar.h:24-37 | Converting coordinates of the grid to an index and back gives the coordinates |
| Grid.Map.AboveAndBelow | hs_astar.cpp:256-257 | The first two cells looked at are one row up and one row down |
| Grid.Map.LeftAndRight | hs_astar.cpp:256-257 | The last two are to the left and to the right in the same row |
| Grid.Map.NeighbourIsAdjacent | hs_astar.cpp:254-266 | What the search looks at lies in the grid, one step away |
| Grid.Map.AdjacentIsNeighbour | hs_astar.cpp:254-266 | Every cell one step away is one of the four looked at |
| Grid.Map.Admissible | hs_astar.cpp:21-30 | The estimate never exceeds the steps that remain on any route |
| Walks.RouteIff | hs_astar.cpp:55-68 | A route is a walk over touching cells of the grid on which every cell but the start has an entry other than 1 in the array |
| Walks.ReachableIff | hs_astar.cpp:55-68 | A cell cannot be reached exactly when every walk to it enters a cell whose entry is 1 |
| Walks.Attained | hs_astar.cpp:21-30 | On a grid without walls some route is exactly as long as the estimate says |
| Walks.EstimateIsShortest | hs_astar.cpp:21-30 | There the estimate is the number of steps of a shortest route and nothing else |
| Search.StartInv | hs_astar.cpp:210-219 | The search starts in a state that keeps the invariant |
| Search.TakeExpanding | hs_astar.cpp:227-241 | Taking a least open node keeps the invariant |
| Search.ClosedIsNear | hs_astar.cpp:268-270 | Passing over a closed neighbour other than the first loses nothing: it is as near as the way through the node being expanded |
| Search.OpenExpanding | hs_astar.cpp:272-284 | Opening a node keeps the invariant, even the second node of the start |
| Search.ImproveExpanding | hs_astar.cpp:285-298 | Redirecting an open node to a shorter way keeps the invariant |
| Search.ImproveIff | hs_astar.cpp:289-296 | An open node keeps its way unless the new one is strictly shorter |
| Search.RouteIsOpen | hs_astar.cpp:222-300 | While the target is not closed, every route has an open node on it that looks no farther than the route is long |
| Search.LeastIsShortest | hs_astar.cpp:227-251 | A least open node that stands for the target is as near as any route |
| AStar.NodeAllocator.Alloc | hs_astar.cpp:107-122 | Gives out exactly 4095 nodes between recyclings |
| AStar.GetMinFIndex | hs_astar.cpp:32-42 | The last of the open nodes with the least f |
| AStar.IsInClosed | hs_astar.cpp:44-53 | Finds the cell exactly among the closed nodes other than the first, which is the oldest |
| AStar.IsInOpen | hs_astar.cpp:70-87 | A place of the cell in the open list, and -1 exactly when it has none |
| Search.TrailIsRoute | hs_astar.cpp:150-160 | The parents of a node lead back to the start along a route of exactly g + 1 cells |
| AStar.GetResultList | hs_astar.cpp:150-160 | The cells of the node and of its parents up to the start, which reversed are a route of exactly g + 1 cells |
| AStar.VisitNeighbour | hs_astar.cpp:263-299 | Looking at one neighbour is the step Visit, which keeps the invariant; it fails only when that step needs a node and the allocator has none |
| AStar.ExpandNode | hs_astar.cpp:254-300 | Looking at the four neighbours is the step Expand; it fails only when that needs more nodes than are left |
| Demand.NodesBound | hs_astar.cpp:222-300 | At every moment there are at most as many nodes as cells can be reached, and one more only when the start is free and another cell can be reached |
| Demand.EmptyOpenCount | hs_astar.cpp:222-300 | When nothing is left to open there are exactly that many |
| Demand.NeededCount | hs_astar.cpp:210-300 | A search needs at least one node and at most that many, at most the cells of the grid and one; with no route it needs exactly that many |
| Demand.AnswerIff | hs_astar.cpp:188-302 | The search that never runs out of nodes stops with a way exactly when there is a route |
| Reopening.StartOpensTwice | hs_astar.cpp:44-53 | On three free cells in a row the search from the first to the last opens four nodes, one more than there are cells; the third is the start again |
| Reopening.RunsOut | hs_astar.cpp:107-122 | From a new allocator 1023 such searches find the path and the next one finds no node, where the source dereferences null |
| Detour.GoesRoundBelow | hs_astar.cpp:254-298 | Of two shortest routes round a wall the search returns the lower one, as the order of the neighbours and the choice of the last least node decide |
| AStar.FindPath | hs_astar.cpp:188-302 | The cells returned are a shortest route from begin to end, reversed: touching cells of which none but the start has the entry 1; they are the way of the node the search stops at and fit the result array. -1 in the grid means that every walk to the target enters a wall. The nodes taken from the allocator are exactly those the search needs, and it runs out exactly when fewer are left: with no route, fewer than the cells that can be reached, and one more when the start can be entered again |

## Left out

- Threads, allocation failure, reference counts and the destruction of the singleton (`singleton.hpp`): every operation is one atomic step of one manager.
- The arguments that only pass through: `io_service`, endpoints, socket options.
- SessionManager.SessionMgr.PeerConnects: connects and clears of registered sessions are told to the manager's ghost log, by its own methods around the session's or by `Notice` after them; in the program the manager is not involved.
- Sessions.Session.HandleRead: an event handler that sends on, clears or re-enters the session from inside its callback is not modelled; the handler's calls are recorded.
- Sessions.Session.WriteError: a would-block error is modelled only while the write flag is set, not for a write whose session was cleared meanwhile.
- Packet.DecodeFrame: the mark takes four bytes, as with the four-byte `unsigned long` of Windows that the code's messages assume; where `unsigned long` has eight bytes the header is longer.
- Delivery.CanFinishIff: the continuation is that of this connection alone; that another session fixes a static not fixed yet, in between, is left to the statement for the moment after.
- Channel.EndToEnd: the transport is lossless and in order while the connection lasts; nothing is said about bytes in transit when a connection breaks. A run ends where the connection does: a clear, a real error and a second connection of the same session are not actions of it.
- Deafness.NeverDeafIff: that reading into a full buffer never completes with data is a fact about the socket library, not part of this model.
- Buffers.RecvBuffer.DataIn: the wrap-around of `size_t` in the sum of offset and length is not modelled; both are bounded by the buffer.
- AStar.FindPath: where the source would dereference null because the allocator is exhausted, the model returns `OutOfNodes`. When a route exists the number of nodes needed is that of the search itself, bounded from both sides, with no closed form.
- `hs_astar_load_data` copies its input cell by cell, `hs_astar_clear` and the timing output of the search: not modelled; the grid is what loading leaves.
- `hs_Dijkstra.cpp`: a second shortest-path search, over at most five nodes.
- `hs_list.hpp`, `hs_2d.cpp`, `hs_odbc.cpp`, `HSConfigReader.h`, `hs_client_connector.*`, `hs_server_channel.*`, `hs_channel.h`, window and Lua files: wrappers over foreign calls, or code none of the properties needs.
