# Verified model of the bundled libevent and of GMP's inline limb arithmetic

This project models the dense parts of the libraries that blitzd ships, libevent 2.0 and the inline functions of
`gmp.h`, in Dafny, and proves what they promise. Code that works by updating fields, links and arrays is modelled by
classes and methods with loops over the same fields, links and arrays. Protocols between threads are state machines
over their steps. `dafny verify dfyconfig.toml` checks everything.

| file | models |
|---|---|
| `Bytes.dfy`, `Options.dfy` | bytes, byte strings in pieces, optional values |
| `Evbuffer.dfy`, `EvbufferSearch.dfy`, `EvbufferRuns.dfy` | evbuffer: the chunk list, searching it, whole runs |
| `Events.dfy`, `EventQueues.dfy`, `Evmap.dfy`, `EventBase.dfy` | events, the order of active queues, the fd map with three backends, queues and two-level timers |
| `DnsNames.dfy`, `DnsRequests.dfy`, `DnsServers.dfy` | evdns: name compression, requests in flight, the nameserver ring |
| `TokenBucket.dfy`, `Throttle.dfy`, `GroupSuspend.dfy` | rate limits: bucket arithmetic, suspend and wake-up, group try-lock protocol |
| `HashTable.dfy` | the macro hash table with both of its rehash paths |
| `Tagging.dfy` | the tagged wire format, on top of evbuffer |
| `Mpn.dfy` | multi-limb add, subtract, compare, negate |
| `Pair.dfy` | paired bufferevents, on top of evbuffer |

Points of reading:

- A well-formed evbuffer (`EvBuffer.Valid`) has no empty chain unless it is the only one. Every modelled operation
  keeps this, and under it the header's account of `last_with_datap` is exact.
- `Base.Valid` says that each flag holds exactly when the event is once on that queue, that the two counters count the
  queues, that the fd map lists the inserted events, and that each common-timeout list is sorted and covered by its
  internal timer: pending no later than the first deadline, or active, or running.
- A name with an empty label does not survive dnsname_to_labels: a dot at the end is dropped, and two dots in a row or
  one at the front cut it off. `DnsNames.JoinLabels` states the exact condition.
- The comment at the top of event_tagging.c describes the nibbles of an integer as big-endian. The code writes and reads
  the least significant nibble first, and so does the model.
- `peek_length` promises the length that `consume` takes. Of payloads of 2^31 bytes and more consume takes all there is,
  because the header's length is an int; `Tagging.PeekThenConsume` states the exact condition.
- Integer widths are written out where they matter: 16-bit pointers in DNS names, 32-bit ticks and 64-bit limits in
  token buckets, 32-bit tags and lengths, limbs of 32 bits.

## Model

| member | source | states |
|---|---|---|
| `Evbuffer.Chain.constructor` | libevent/buffer.c:154-181 | a new chain is empty and has at least the space asked for |
| `Evbuffer.Chain.Align` | libevent/buffer.c:1694-1701 | the data move to the front of the chain's memory and stay the same |
| `Evbuffer.EvBuffer.constructor` | libevent/buffer.c:339-353 | a new buffer is well formed and empty |
| `Evbuffer.EvBuffer.GetLength` | libevent/buffer.c:584-596 | the cached length is the number of bytes in the chunks |
| `Evbuffer.EvBuffer.Freeze` | libevent/buffer.c:2968-2978 | closes one end and nothing else |
| `Evbuffer.EvBuffer.Unfreeze` | libevent/buffer.c:2980-2990 | opens one end and nothing else |
| `Evbuffer.EvBuffer.ChainInsert` | libevent/buffer.c:282-311 | a chain goes to the end in place of trailing empty ones, and last_with_datap follows it if it has data |
| `Evbuffer.EvBuffer.FreeTrailingEmptyChains` | libevent/buffer.c:264-277 | the link returned is the one behind the last chain that stays |
| `Evbuffer.EvBuffer.AdvanceLastWithData` | libevent/buffer.c:645-659 | last_with_datap ends at the link to the last chain with data, and the number of links passed is returned; 0 without chains |
| `Evbuffer.EvBuffer.ZeroChain` | libevent/buffer.c:737-745 | the buffer is well formed without chains |
| `Evbuffer.EvBuffer.CopyChain` | libevent/buffer.c:812-824 | all chains change hands, and a link at the other buffer's first becomes a link at one's own |
| `Evbuffer.EvBuffer.AppendChain` | libevent/buffer.c:826-838 | the contents become one's own followed by the other's |
| `Evbuffer.EvBuffer.PrependChain` | libevent/buffer.c:840-856 | the contents become the other's followed by one's own |
| `Evbuffer.EvBuffer.AddBuffer` | libevent/buffer.c:858-902 | moves everything behind one's own contents and leaves the source empty; a frozen end or the same buffer changes nothing, with the source's return values |
| `Evbuffer.EvBuffer.PrependBuffer` | libevent/buffer.c:904-948 | moves everything before one's own contents and leaves the source empty; same error cases |
| `Evbuffer.EvBuffer.Drain` | libevent/buffer.c:950-1017 | drops exactly the first len bytes, all of them if len is too large, none if the front is frozen |
| `Evbuffer.EvBuffer.CopyOut` | libevent/buffer.c:1034-1078 | copies the first bytes into the array, touches nothing else of it, and leaves the buffer alone |
| `Evbuffer.EvBuffer.Remove` | libevent/buffer.c:1020-1032 | what is copied out followed by what remains is the old contents |
| `Evbuffer.EvBuffer.RemoveBuffer` | libevent/buffer.c:1083-1171 | moves the first datlen bytes, whole chains by pointer and the rest by copy: target is old target followed by the prefix, source is the rest; every return value |
| `Evbuffer.EvBuffer.Pullup` | libevent/buffer.c:1173-1283 | the contents do not change, and the first `size` bytes are contiguous in the first chain; NULL exactly when there are not so many or none are asked for |
| `Evbuffer.EvBuffer.Add` | libevent/buffer.c:1533-1617 | contents grow by the data at the end, whichever of the four placements is taken; -1 and no change when frozen |
| `Evbuffer.EvBuffer.Prepend` | libevent/buffer.c:1619-1691 | contents grow by the data at the front, split over two chains if need be; -1 and no change when frozen |
| `EvbufferRuns.Run` | libevent/buffer.c:840-1701 | in every run over two buffers, from two new ones, the chunks hold and every operation hands back (bytes, lines, positions, return values) what the same run does on two plain byte strings; both buffers stay well formed |
| `EvbufferRuns.Perform` | libevent/buffer.c:858-1691 | one operation on chunks does and answers what it does on plain byte strings |
| `EvbufferRuns.LastWithDatapMeaning` | libevent/evbuffer-internal.h:84-96 | in a well-formed buffer last_with_datap is the link to chain j if and only if j is the last chain with data, or the first if none has any |
| `EvbufferRuns.MoveConserves` | libevent/buffer.c:858-1171 | moving between buffers, chains by pointer or bytes by copy, loses and invents no byte of the chunks |
| `EvbufferRuns.LineEndUnique` | libevent/buffer.c:1415-1488 | a byte string has at most one first line end |
| `EvbufferRuns.FirstMatchUnique` | libevent/buffer.c:2490-2559 | a search has one answer, the first match of the reference |
| `EvbufferSearch.FindEolIn` | libevent/buffer.c:1317-1342 | the first CR or LF of a chain, searched in blocks of 128 bytes, is the least one |
| `EvbufferSearch.Strchr` | libevent/buffer.c:1295-1315 | the least position at or after the start that holds the byte, over all chunks |
| `EvbufferSearch.FindEolChar` | libevent/buffer.c:1344-1364 | the least position at or after the start that holds CR or LF |
| `EvbufferSearch.Strspn` | libevent/buffer.c:1366-1403 | the length of the longest run of bytes of the set, -1 exactly at the end; the pointer is moved behind the run |
| `EvbufferSearch.GetChr` | libevent/buffer.c:1406-1413 | the byte at the pointer's flat position |
| `EvbufferSearch.PtrSet` | libevent/buffer.c:2410-2450 | a pointer to a flat position exists exactly if the position is inside, and its chain and offset denote it |
| `EvbufferSearch.PtrMemcmp` | libevent/buffer.c:2456-2488 | zero exactly if the bytes occur at that position, across chunks; otherwise the sign of the first difference, or -1 if too few bytes are there |
| `EvbufferSearch.SearchRange` | libevent/buffer.c:2490-2559 | for every way the contents are split: the least match at or after the start that ends by the bound, -1 if and only if there is none |
| `EvbufferSearch.SearchEol` | libevent/buffer.c:1415-1488 | on the bytes, in each of the four styles: what stands from the start to the position returned, the terminator and the rest, with CR = 13 and LF = 10; and nothing exactly if no terminator of the style follows |
| `EvbufferSearch.FirstEolIs` | libevent/buffer.c:1415-1488 | in each style, the first line end of the reference is the bytes 10, 13 10, either, or a longest run of both, with none of its kind before it |
| `EvbufferSearch.NoEolIs` | libevent/buffer.c:1415-1488 | in each style, the reference has no line end if and only if the bytes 10 and 13 do not occur the way the style asks for |
| `EvbufferSearch.Readln` | libevent/buffer.c:1490-1527 | line, terminator and remaining contents together are the old contents; on the bytes, in each style, the terminator is [10] or [13, 10] or a whole run of them and the line holds none before it; the line ends with NUL; NULL exactly when the front is frozen or the contents hold no line end of the style |
| `Evmap.Kernel.ApplyOne` | libevent/epoll.c:173-330 | whatever the combination of changes, the kernel mask of the fd becomes the old events with the changes applied; no call of epoll_ctl fails if the old events are the kernel's and only what was on is deleted |
| `Evmap.IoMap.GetOrConstruct` | libevent/evmap.c:615-644 | the one change record of an fd, made with the old events if there is none |
| `Evmap.IoMap.ChangelistAdd` | libevent/evmap.c:646-675 | the pending change then leads to the mask with the new bits |
| `Evmap.IoMap.ChangelistDel` | libevent/evmap.c:677-726 | the pending change then leads to the mask without the bits; an add and a delete cancel out |
| `Evmap.IoMap.RemoveAllChanges` | libevent/evmap.c:559-578 | no change is pending and every idxplus1 is zero |
| `Evmap.IoMap.ApplyChanges` | libevent/epoll.c:332-349 | after all changes each fd's kernel mask is the wanted one |
| `Evmap.IoMap.NochangelistAdd` | libevent/epoll.c:351-367 | the kernel mask gains the bits at once |
| `Evmap.IoMap.NochangelistDel` | libevent/epoll.c:369-383 | the kernel mask loses the bits at once |
| `Evmap.IoMap.DevpollCommit` | libevent/devpoll.c:81-94 | the queued writes reach the kernel in order and the queue is empty |
| `Evmap.IoMap.DevpollQueue` | libevent/devpoll.c:96-115 | a write joins the queue; a full queue is committed first |
| `Evmap.IoMap.DevpollAdd` | libevent/devpoll.c:224-248 | the queue then leads to the mask with the new bits |
| `Evmap.IoMap.DevpollDel` | libevent/devpoll.c:250-289 | the queue then leads to the mask without the bits, by way of POLLREMOVE |
| `Evmap.IoMap.IoAdd` | libevent/evmap.c:262-331 | the event joins the list of its fd and is counted; -1 and no change exactly when a counter would pass 0xffff, 1 exactly when it is the first reader or writer, and then the backend is told |
| `Evmap.IoMap.IoDel` | libevent/evmap.c:335-387 | the event leaves the list and the counts; 1 exactly when it was the last reader or writer, and then the backend is told |
| `Evmap.IoMap.Dispatch` | libevent/epoll.c:385-411 | the kernel mask of every fd is READ exactly if it has readers and WRITE exactly if it has writers |
| `Evmap.IoMap.OneChangePerFd` | libevent/evmap.c:559-644 | each fd has at most one pending change, and idxplus1 gives its index exactly |
| `Evmap.IoMap.Collapsed` | libevent/evmap.c:677-726 | in every reachable state a pending change starts from the kernel's mask, and an event that was off before and is wanted by nobody has no change: an add and a delete come to nothing |
| `Evmap.Run` | libevent/evmap.c:262-387 | in every run of adds, deletes and dispatches, with each of the three backends, the lists are those of the run and a dispatch leaves the kernel with exactly the wanted masks; with epoll no call of epoll_ctl ever fails, so no retry is needed |
| `Evmap.WantedMaskUnique` | libevent/evmap.c:262-387 | the wanted mask is unique, so the three backends leave the kernel the same |
| `EventBase.Base.constructor` | libevent/event.c:551-654 | a new base is consistent |
| `EventBase.Base.Register` | libevent/event.c:1717-1762 | a new event is on no queue and disturbs nothing |
| `EventBase.Base.InitCommonTimeout` | libevent/event.c:1181-1253 | the list for a duration, found or made with a timer of its own; -1 exactly when 256 others exist; nothing else changes |
| `EventBase.Base.InsertInserted` | libevent/event.c:2572-2612 | EVLIST_INSERTED, the queue and event_count change together |
| `EventBase.Base.InsertActive` | libevent/event.c:2572-2612 | EVLIST_ACTIVE, the tail of the queue of its priority and both counts change together, all other queues stay as they were; a second activation changes nothing |
| `EventBase.Base.InsertTimeout` | libevent/event.c:2572-2612 | EVLIST_TIMEOUT and the heap or the common-timeout list change together; the list stays sorted |
| `EventBase.Base.RemoveInserted` | libevent/event.c:2502-2539 | the reverse of the insertion, for the inserted queue |
| `EventBase.Base.RemoveActive` | libevent/event.c:2502-2539 | the reverse of the insertion, for the active queue: it loses just this event and keeps its order, the other queues stay as they were |
| `EventBase.Base.RemoveTimeout` | libevent/event.c:2502-2539 | the reverse of the insertion, for the heap or the list |
| `EventBase.Base.InOrder` | libevent/event.c:2541-2570 | the place behind the last event that is not due later |
| `EventBase.Base.AddInternal` | libevent/event.c:2026-2174 | the base stays consistent and the flat table gains exactly this deadline; -1 exactly if the event is to go on the fd map and its fd has 0xffff readers or writers; the flags and the pending activation as in the source |
| `EventBase.Base.PersistClosure` | libevent/event.c:1255-1303 | a persistent event is due again one interval after its last deadline if that is why it runs and that time is not over, else one interval from now; nothing else changes |
| `EventBase.Base.DelInternal` | libevent/event.c:2196-2268 | the event is on no queue, and every list is still covered by its timer |
| `EventBase.Base.Del` | libevent/event.c:2176-2268 | the event is on no queue and the flat table loses exactly this deadline |
| `EventBase.Base.Activate` | libevent/event.c:2270-2327 | the event is active at the tail of the queue of its priority, unless it was active before; its reasons are joined to earlier ones or replace stale ones, and no deadline changes |
| `EventBase.Base.Schedule` | libevent/event.c:1142-1151 | the timer of a list is pending for the first deadline of the list |
| `EventBase.Base.RunTimer` | libevent/event.c:1153-1177 | exactly the events of the list that are due fire, in the order of the list, each to the tail of its queue; the timer is set again for the next |
| `EventBase.Base.BeginRun` | libevent/event.c:1311-1325 | a running event leaves the active queue; a persistent one keeps its other queues, any other leaves the inserted and timeout queues and the flat table too |
| `EventBase.Base.EndRun` | libevent/event.c:1336-1370 | the base stays consistent when the callback of a caller's event returns |
| `EventBase.Base.NextActive` | libevent/event.c:1404-1435 | the next event to run is the first one of the first active queue that is not empty, none exactly if all are empty |
| `EventBase.Base.QueuesHold` | libevent/event.c:2572-2612 | the active queues hold exactly the callers' active events, none twice, each in the queue of its priority |
| `EventQueues.FireAllIs` | libevent/event.c:2474-2499 | firing one event after the other leaves each queue with what did not fire, in its order, and behind it what fired, in the order of firing |
| `EventQueues.TurnOrder` | libevent/event.c:1142-1177 | what fires from the heap and then from the lists is everything overdue in the flat table, once each, and an earlier deadline of the same heap or list is served first |
| `EventBase.Base.TimeoutProcess` | libevent/event.c:2474-2499 | exactly the entries of the heap that are due fire, the earlier deadline first, each leaving its place and going to the tail of the queue of its priority |
| `EventBase.Base.ProcessTimeouts` | libevent/event.c:2474-2499 | timeout processing with the internal callbacks fires exactly the events whose deadline has passed in the flat table, once each, in order of deadline within the heap and within each list, the heap first; each active queue then holds what stays in its order and behind it what fired in that order; all others keep flags, reasons and deadlines |
| `EventBase.Base.TimeoutCorrect` | libevent/event.c:2422-2472 | a clock that stepped back shifts every pending deadline, heap and lists alike, by the same amount and keeps order and coverage; otherwise nothing moves |
| `EventBase.Base.TimeoutNext` | libevent/event.c:2379-2414 | the wait is the least time until an entry of the heap is due, 0 if one is overdue, none without entries; it never passes a deadline of the flat table |
| `EventBase.Base.WokenInHeap` | libevent/event.c:2089-2165 | every event with a timeout has an entry in the heap, its own or its list's timer, that is due no later |
| `EventBase.Base.RefusedIs` | libevent/evmap.c:262-331 | the fd map refuses an event exactly when the inserted events of the flat view already count 0xffff readers or writers on its fd |
| `EventBase.Base.Run` | libevent/event.c:2026-2612 | in every run of new events and common timeouts, adds, deletes, activations, callbacks that begin, call the library and return, timer turns and clock readings: flags, queues, counters and the fd map stay consistent; deadlines, active events with their reasons, inserted events and durations are those of one flat reference; and the active queues, order included, are those of a reference that appends, drops and serves what is due in turn |
| `DnsNames.NameParse` | libevent/evdns.c:935-989 | halts on every packet by the measure (jumps left, bytes left); succeeds if and only if a walk from idx reaches the end within the jump budget and the name fits; name, NUL and next index are the walk's, whose jumps `WalkPointer` reads off the bytes; idx unchanged on failure |
| `DnsNames.WalkEncodes` | libevent/evdns.c:953-979 | descending pointers never use up the jump budget |
| `DnsNames.WalkPointer` | libevent/evdns.c:957-975 | at a byte from 0xc0 on the walk goes to 256 * (byte - 0xc0) + next byte, fails if that is outside or the jumps are used up, and the name ends two bytes on |
| `DnsNames.LabelTable.GetPos` | libevent/evdns.c:1537-1546 | the position of the first entry for the suffix, -1 exactly if there is none |
| `DnsNames.LabelTable.Add` | libevent/evdns.c:1549-1564 | one entry more, or -1 and no change when 128 are there |
| `DnsNames.DnsnameToLabels` | libevent/evdns.c:1577-1641 | exact length on the wire with the longest possible sharing; on the bytes, each label is its length and its text, followed by a zero byte or by the two bytes 0xc0 + position % 0x4000 / 256 and position % 256 of the first table entry for the suffix; each error code exactly when its test is the first to fail; the exact table, also after an error; bytes before j untouched; the packet then spells the name and every suffix in the table with pointers that only descend; and exactly when the last zero byte lies behind the buffer |
| `DnsNames.NoError` | libevent/evdns.c:1577-1641 | labels of at most 63 bytes and two bytes more than the name suffice for success |
| `DnsNames.KnownAtIs` | libevent/evdns.c:1602-1608 | the name is cut at its first label start whose suffix is in the table |
| `DnsNames.WroteBytes` | libevent/evdns.c:1602-1632 | a label start holds the distance to the next dot or the end, every other byte is the name's |
| `DnsNames.LastByteOutside` | libevent/evdns.c:1634-1638 | a name whose last zero byte lies outside a buffer that is reported to hold it |
| `DnsNames.Backward` | libevent/evdns.c:1602-1632 | labels in a row are spelled in full if the rest is, from every label start |
| `DnsNames.EncodesLater` | libevent/evdns.c:1577-1641 | bytes appended later do not change what a name says |
| `DnsNames.JoinLabels` | libevent/evdns.c:1577-1641 | a name is recovered if and only if it is empty or has no empty label |
| `DnsNames.GapLoses` | libevent/evdns.c:1602-1638 | "a..b" is spelled as "a" |
| `DnsNames.WalkFinds` | libevent/evdns.c:935-989 | a walk over a spelled name finds its labels, and the whole name if and only if it has no empty label |
| `DnsNames.WriteItems` | libevent/evdns.c:1577-1641 | in a message of many names through one table, other bytes between them, every name is still spelled at its place at the end; it stops early only for a name that does not fit |
| `DnsNames.RoundTrip` | libevent/evdns.c:935-989 | every name without empty labels decodes from the finished message to itself, and the decoder stops where the encoder did |
| `DnsRequests.RequestList.Insert` | libevent/evdns.c:2655-2669 | the ring gains the request at its tail |
| `DnsRequests.RequestList.Remove` | libevent/evdns.c:2616-2652 | the ring loses just this request, wherever it stands; the head moves on if it was the head |
| `DnsRequests.RequestBase.FindFromTransId` | libevent/evdns.c:475-493 | the one bucket holds what a scan of everything in flight would find, NULL exactly if no request has the id |
| `DnsRequests.RequestBase.InItsList` | libevent/evdns.c:384-386 | list i holds exactly the requests in flight with id % n == i |
| `DnsRequests.RequestBase.Submit` | libevent/evdns.c:2758-2773 | a request with a nameserver is in flight, one without waits last in the queue |
| `DnsRequests.RequestBase.Finish` | libevent/evdns.c:643-697 | exactly this request is gone; the oldest of the others take off with the ids drawn, in order, and the waiting queue is the rest in its order; the limit is reached or nothing waits, and the pump does not go beyond the limit |
| `DnsRequests.RequestBase.Pump` | libevent/evdns.c:728-751 | the oldest waiting requests take off, in order and with the ids drawn in that order, with enough ids for the queue or for the limit; nothing is lost; ends with the limit reached or nothing waiting and does not go beyond the limit |
| `DnsRequests.RequestBase.SetMaxRequestsInflight` | libevent/evdns.c:3314-3343 | the same requests in (max + 4) / 5 buckets, each in the bucket of its id |
| `DnsServers.Servers.Add` | libevent/evdns.c:2504-2515 | the ring gains the server behind the head, and the counter counts it |
| `DnsServers.Servers.Failed` | libevent/evdns.c:554-614 | the counter falls once per failure and equals the number of servers that are up; the requests that are moved get the servers still up in turn, from the head on, over and over; the ring only turns, and not at all if nothing is moved |
| `DnsServers.Servers.Up` | libevent/evdns.c:616-635 | the counter rises once per recovery, and the failures are forgotten |
| `DnsServers.Servers.Pick` | libevent/evdns.c:1309-1345 | terminates; the first server that is up from the head on, and the head moves behind it; with none up the next one; NULL without servers |
| `DnsServers.Servers.PickMany` | libevent/evdns.c:1309-1345 | any number of picks, from any head: the servers that are up in ring order, over and over; the ring only turns |
| `DnsServers.Servers.PickRound` | libevent/evdns.c:1309-1345 | k picks with k servers up, from any head, give the servers that are up in ring order |
| `DnsServers.RoundIsFair` | libevent/evdns.c:1309-1345 | such a round holds every server that is up, none twice, and no other |
| `TokenBucket.RefilledIsNaive` | libevent/bufferevent_ratelim.c:86-104 | the division-first update in wrapping machine arithmetic is min(maximum, limit + ticks * rate) for every limit up to the maximum |
| `TokenBucket.RefilledExactly` | libevent/bufferevent_ratelim.c:86-104 | for every 64-bit limit, the update is the naive one if and only if the limit is at most the maximum or the refill covers 2^64 less the excess |
| `TokenBucket.OverfullGrows` | libevent/bufferevent_ratelim.c:86-104 | a limit one byte above the maximum grows instead of being cut back |
| `TokenBucket.Bucket.Init` | libevent/bufferevent_ratelim.c:48-70 | a new bucket holds one tick's rate |
| `TokenBucket.Bucket.Reinit` | libevent/bufferevent_ratelim.c:48-70 | limits are clipped downwards only, and lastUpdated stays |
| `TokenBucket.Bucket.Update` | libevent/bufferevent_ratelim.c:72-110 | the naive refill for the ticks seen in 32-bit arithmetic; nothing when no tick passed or time rolled back |
| `TokenBucket.TicksSeen` | libevent/bufferevent_ratelim.c:77-84 | an update sees no more ticks than have passed since the last one, taken or ignored, through every wrap-around |
| `TokenBucket.Spend` | libevent/bufferevent_ratelim.c:199-310 | over every run at non-decreasing ticks, bytes spent between the first and the last tick are at most maximum + ticks * rate, in each direction |
| `Throttle.Channel.Suspend` | libevent/bufferevent.c:65-75 | the reason is added and the backend is off |
| `Throttle.Channel.Unsuspend` | libevent/bufferevent.c:77-87 | the reason is gone and the backend is on exactly if enabled and no reason is left |
| `Throttle.Channel.Enable` | libevent/bufferevent.c:406-427 | enabled, and the backend on exactly if no reason is set |
| `Throttle.Channel.Disable` | libevent/bufferevent.c:497-510 | disabled and the backend off |
| `Throttle.Connection.GetRlimMax` | libevent/bufferevent_ratelim.c:195-272 | in either direction, the exact allowance: the own bucket after the refill for the ticks seen, or without one the most that a call may move; not more than the group's share, which is the greater of the minimum share and limit / members; 0 while the group is suspended (and then the flag is set) and never below 0; reasons change only by that flag |
| `Throttle.Connection.DecrementRead` | libevent/bufferevent_ratelim.c:274-295 | after a charge the direction is throttled exactly if its bucket is empty, with the refill timer pending |
| `Throttle.Connection.DecrementWrite` | libevent/bufferevent_ratelim.c:312-333 | the same for writing |
| `Throttle.Connection.DecrementReadLimit` | libevent/bufferevent_ratelim.c:900-925 | a charge or refund throttles or frees the direction exactly when the limit changes sign, and empty bucket, flag and timer still go together |
| `Throttle.Connection.DecrementWriteLimit` | libevent/bufferevent_ratelim.c:927-954 | the same for writing |
| `Throttle.Connection.Refill` | libevent/bufferevent_ratelim.c:393-441 | the bucket is filled for the ticks seen, up to its maximum; a direction is then throttled exactly if its bucket is empty, and the timer is pending exactly if one is |
| `Throttle.Connection.SetRateLimit` | libevent/bufferevent_ratelim.c:558-635 | a first limit starts with the rate of one tick, a new one cuts the bucket to the new maximum and keeps the rest; it throttles exactly the empty directions; no limit throttles none; other reasons stay |
| `Throttle.Connection.Awaken` | libevent/bufferevent_ratelim.c:393-441 | a throttled connection left alone is woken by its own timer after finitely many ticks |
| `Throttle.Run` | libevent/bufferevent_ratelim.c:195-635 | in every run, looks at the allowance and both kinds of charge included, an empty bucket means its flag, a flag means a pending timer, and the backend is on exactly when enabled without a reason to suspend; and buckets, reasons and switches are those of a plain reference |
| `GroupSuspend.SweepKeeps` | libevent/bufferevent_ratelim.c:350-391 | every step of a suspending or unsuspending sweep, with try-locks that may fail, keeps the invariant; what a whole sweep does is said by `ChargeEffect` and `RefillWakesAll` |
| `GroupSuspend.LocksKeep` | libevent/bufferevent_ratelim.c:230-255 | taking and dropping a member's lock, the tails of joining and leaving outside the group lock, and a look at the group keep it |
| `GroupSuspend.JoinKeeps` | libevent/bufferevent_ratelim.c:731-776 | joining keeps it |
| `GroupSuspend.LeaveKeeps` | libevent/bufferevent_ratelim.c:784-806 | leaving keeps it |
| `GroupSuspend.FreeKeeps` | libevent/bufferevent_ratelim.c:784-806 | leaving without unsuspending, on the way to being freed, keeps it |
| `GroupSuspend.BucketKeeps` | libevent/bufferevent_ratelim.c:297-308 | a charge by a member, a charge or refund of the group, a lower maximum and a refill, each with the sweep that it begins, keep it, and an exhausted group is suspended |
| `GroupSuspend.NoneStranded` | libevent/bufferevent_ratelim.c:274-391 | over all interleavings: when the group lock is free, a member with the flag belongs to a group that is suspended or has a pending unsuspend, never both; and an exhausted group is suspended if the minimum share is positive |
| `GroupSuspend.ZeroShareWakes` | libevent/bufferevent_ratelim.c:527-556 | with a minimum share of zero a refill wakes a group whose bucket is empty |
| `GroupSuspend.RefillWakesAll` | libevent/bufferevent_ratelim.c:527-556 | from every reachable state a refill that meets no locked member leaves no member flagged, no suspension and nothing pending, if an unsuspend was pending or the limit has reached the minimum share; otherwise whatever is flagged lacks tokens |
| `GroupSuspend.ChargeEffect` | libevent/bufferevent_ratelim.c:274-310 | a charge by a member that leaves nothing, with its sweep, suspends the group and flags exactly the members whose lock is free, besides those flagged before; one that leaves tokens wakes a suspended group and clears exactly those; otherwise only the bucket changes |
| `GroupSuspend.GroupChargeEffect` | libevent/bufferevent_ratelim.c:956-974 | the same for a charge or refund of the group itself, exactly when the bucket changes sign |
| `GroupSuspend.ExhaustionSuspendsAll` | libevent/bufferevent_ratelim.c:350-371 | from every reachable state, a charge that exhausts the bucket while no other thread holds a member flags every member and suspends the group, with nothing pending |
| `GroupSuspend.LookSuspends` | libevent/bufferevent_ratelim.c:230-243 | a member that a sweep has missed is flagged by its next look at the suspended group, and one that joined it by the end of joining |
| `GroupSuspend.JoinCall` | libevent/bufferevent_ratelim.c:731-776 | joining, as a whole call: one member more, at the end, flagged exactly if the group is suspended; nothing else changes |
| `GroupSuspend.LeaveCall` | libevent/bufferevent_ratelim.c:778-806 | leaving, as a whole call: one member less and its flag gone; nothing else changes |
| `GroupSuspend.FreeCall` | libevent/bufferevent_ratelim.c:784-806 | leaving without unsuspending: one member less and its flag as it was |
| `GroupSuspend.ClipEffect` | libevent/bufferevent_ratelim.c:668-690 | a lower maximum cuts the bucket to it and changes nothing else |
| `GroupSuspend.ForeachRandomOrder` | libevent/bufferevent_ratelim.c:443-483 | the two loops visit the members from a random one round to it |
| `GroupSuspend.SweepOrderOnce` | libevent/bufferevent_ratelim.c:466-483 | every member once |
| `HashTable.Slot.Find` | libevent/ht-internal.h:137-152 | the link to the first match in the chain, or to its end |
| `HashTable.Slot.Unlink` | libevent/ht-internal.h:200-215 | the chain without just that element |
| `HashTable.Table.constructor` | libevent/ht-internal.h:129-136 | an empty table stands for the empty set |
| `HashTable.Table.InItsBucket` | libevent/ht-internal.h:116-118 | bucket i holds exactly the elements of the set with hash % length == i |
| `HashTable.Table.Find` | libevent/ht-internal.h:153-162 | the element with the key, NULL exactly if there is none |
| `HashTable.Table.Insert` | libevent/ht-internal.h:163-177 | the set gains the element, at the head of the bucket of its hash, and n_entries is its size |
| `HashTable.Table.Remove` | libevent/ht-internal.h:200-215 | the set loses the match and nothing else; NULL and no change without one |
| `HashTable.Table.RehashFresh` | libevent/ht-internal.h:328-345 | a new table with every old element in its bucket and no other |
| `HashTable.Table.RehashInPlace` | libevent/ht-internal.h:346-366 | the enlarged table, rehashed in place, with every old element in its bucket and no other |
| `HashTable.Table.OverrunsIf` | libevent/ht-internal.h:318-327 | the search for a prime leaves the table of primes exactly for sizes from the load limit of the last prime on |
| `HashTable.Table.NextPrimeFits` | libevent/ht-internal.h:163-177 | an insertion, at any number of entries, never makes it do so |
| `HashTable.Table.Grow` | libevent/ht-internal.h:309-371 | the same set either way, the first sufficient prime length, a load limit above the size asked for unless the last prime is in use |
| `HashTable.Table.Start` | libevent/ht-internal.h:243-256 | the cursor is before everything |
| `HashTable.Table.Next` | libevent/ht-internal.h:257-276 | the cursor moves past exactly one element |
| `HashTable.Table.NextRmv` | libevent/ht-internal.h:277-294 | the element at the cursor is gone and the rest of the walk is unchanged |
| `HashTable.Table.Enumerate` | libevent/ht-internal.h:243-276 | START and NEXT come by every element, and by none twice |
| `HashTable.Table.RemoveAll` | libevent/ht-internal.h:243-294 | a walk that removes as it goes removes exactly the chosen elements |
| `HashTable.Run` | libevent/ht-internal.h:137-371 | in every run of find, insert, remove and grow, of any length, the table is a set of keys and answers as the set would |
| `Tagging.EncodeIntInternal` | libevent/event_tagging.c:104-148 | the bytes written are the code of the number: the number of its base-16 digits less one in the high half of the first byte, then the digits from the least significant on, low half before high half, no more than needed, a zero in a half that is left |
| `Tagging.IntCodeIs` | libevent/event_tagging.c:115-136 | the code of every number up to sixteen digits is those bytes |
| `Tagging.EncodeInt` | libevent/event_tagging.c:150-164 | the buffer gains the code |
| `Tagging.DecodeNibbles` | libevent/event_tagging.c:322-330 | the value of the announced nibbles, without loss |
| `Tagging.DecodeIntInternal` | libevent/event_tagging.c:304-358 | value and length of the code at an offset, -1 exactly if it is cut short or too wide; the buffer is not changed |
| `Tagging.DecodeInt` | libevent/event_tagging.c:360-378 | the same, and the code is drained |
| `Tagging.ReadIntCode` | libevent/event_tagging.c:115-358 | a 32-bit or 64-bit number reads back from its code, whatever follows |
| `Tagging.EncodeTag` | libevent/event_tagging.c:166-192 | the buffer gains the base-128 code of the tag |
| `Tagging.TagCodeIs` | libevent/event_tagging.c:171-192 | that code is the base-128 digits of the tag, the least significant first and no more than needed, with 128 added to all but the last |
| `Tagging.DecodeTagInternal` | libevent/event_tagging.c:194-231 | tag and length of its code, -1 exactly if it does not end; drained only on request |
| `Tagging.SixthByte` | libevent/event_tagging.c:207-219 | the loop looks at a sixth byte if and only if the first five bytes of a longer buffer do not end a tag |
| `Tagging.TagOutOfReach` | libevent/event_tagging.c:207-219 | six bytes for which it does |
| `Tagging.ReadTagCode` | libevent/event_tagging.c:171-231 | a tag reads back from its code, whatever follows |
| `Tagging.Marshal` | libevent/event_tagging.c:245-252 | the buffer gains tag, length and payload |
| `Tagging.UnmarshalHeader` | libevent/event_tagging.c:420-436 | tag and payload length, the header drained; every error case |
| `Tagging.PeekLength` | libevent/event_tagging.c:386-402 | the length of the whole record in 32 bits, nothing drained |
| `Tagging.Consume` | libevent/event_tagging.c:438-447 | exactly one record is gone if its payload is shorter than 2^31; from there to 2^32 - 2 everything is gone; -1 for 2^32 - 1, a cut-off record or a bad header; nothing goes from a frozen buffer |
| `Tagging.PeekThenConsume` | libevent/event_tagging.c:386-447 | 0 exactly for a complete record whose length is not 2^32 - 1; then, of a total that fits 32 bits, consume takes what peek_length announces if and only if the payload is shorter than 2^31 or nothing follows |
| `Tagging.LongRecordTakesMore` | libevent/event_tagging.c:386-447 | records for which it takes more |
| `Tagging.Unmarshal` | libevent/event_tagging.c:449-465 | the payload moves to the target buffer, byte for byte; every error case, frozen buffers included |
| `Tagging.ReadRecord` | libevent/event_tagging.c:245-436 | a record at the front of any byte string reads back, and what follows is left |
| `Tagging.MarshalAll` | libevent/event_tagging.c:245-252 | a list of records becomes the concatenation of their codes |
| `Tagging.UnmarshalAll` | libevent/event_tagging.c:449-465 | unmarshalling what was marshalled gives the same list, tags and payloads, and empties the buffer |
| `Mpn.Carry` | gmp/gmp.h:1846-1935 | the carry loop: value plus B^n times the carry is the old value plus what was carried in |
| `Mpn.Borrow` | gmp/gmp.h:1846-1935 | the borrow loop, likewise |
| `Mpn.Add` | gmp/gmp.h:2049-2060 | value(w) + carry * B^n = value(x) + value(y), also with w = x or w = y |
| `Mpn.Sub` | gmp/gmp.h:2088-2099 | value(w) + value(y) = value(x) + borrow * B^n, also with w = x or w = y |
| `Mpn.Add1` | gmp/gmp.h:2062-2073 | value(w) + carry * B^n = value(x) + v, also in place |
| `Mpn.Sub1` | gmp/gmp.h:2101-2112 | value(w) + v = value(x) + borrow * B^n, also in place |
| `Mpn.Cmp` | gmp/gmp.h:2075-2086 | the sign of the difference of the values |
| `Mpn.NegN` | gmp/gmp.h:2114-2130 | value(r) + value(u) = carry * B^n, the carry 0 exactly for u = 0, also in place |
| `Mpn.TopLimb` | gmp/gmp.h:1988-2011 | the topmost different limb decides |
| `Pair.Pipe.constructor` | libevent/bufferevent_pair.c:112-148 | an empty pipe with the meeting ends frozen |
| `Pair.Pipe.Transfer` | libevent/bufferevent_pair.c:150-197 | exactly the bytes that fit below the high watermark move in order from output to input, all of them without one or with a flush into a full receiver; none is lost; afterwards the output is empty or the receiver full; the ends are frozen again |
| `Pair.Pipe.Talk` | libevent/bufferevent_pair.c:199-207 | moves exactly what the reference moves if both sides are willing, nothing otherwise, and then leaves nothing waiting below the watermark |
| `Pair.Pipe.Write` | libevent/bufferevent_pair.c:209-227 | what is written joins the stream at its end |
| `Pair.Pipe.Read` | libevent/bufferevent.c:394-398 | what is read is the next part of the stream |
| `Pair.Pipe.Enable` | libevent/bufferevent_pair.c:229-255 | enabling either side lets what waits flow, within the watermark |
| `Pair.Pipe.Flush` | libevent/bufferevent_pair.c:281-307 | a flush moves everything past a watermark that is reached already, and fills up to one that is not; exactly the bytes of the reference move |
| `Pair.BuffereventPair.Enable` | libevent/bufferevent_pair.c:229-255 | each bufferevent of the pair takes part in one direction as reader and in the other as writer; both streams and watermarks are kept |
| `Pair.BuffereventPair.Run` | libevent/bufferevent_pair.c:112-307 | in every run of both bufferevents each direction delivers in order a prefix of what was written into it, the rest is in its two buffers, without a flush or a moved watermark its receiver stays within it, and both directions are what a plain reference of two byte strings makes of the run |
| `Pair.ReadIsPrefix` | libevent/bufferevent_pair.c:150-255 | what was read is a prefix of what was written, and the rest is in the two buffers |
| `Pair.Run` | libevent/bufferevent_pair.c:150-255 | in every run: bytes read, then receiver input, then sender output is everything written, in order; without a flush or a moved watermark the receiver stays within it; buffers, switches and watermark are those of a plain reference |

## Left out

- evbuffer_reserve_space, evbuffer_commit_space, evbuffer_expand, evbuffer_read, pinned, immutable, mmap and sendfile chains: they leave trailing empty chains, for which add and chain_insert do not keep the header's statement about last_with_datap.
- Callbacks, their byte accounting, locks and reference counts of evbuffers.
- Allocation failure everywhere, except where it selects between two paths (the hash table).
- Evbuffer.EvBuffer.ChainInsert: an empty chain for a buffer that has chains already, which only evbuffer_reserve_space and evbuffer_expand bring in.
- Signals, event_once, deferred callbacks and the loop itself. In a run an Add between Begin and End stands for the rescheduling of a persistent timeout, which `PersistClosure` states.
- EventBase.Base.EndRun: threads that wait for a callback to end, because they only block.
- The heap and the tail queues inside, and timeval arithmetic: a sequence with a minimum search, sequences, microseconds. The tagging of common timeouts in tv_usec is a separate field of the deadline.
- Edge-triggered bits, failing system calls and fds closed behind the library.
- DnsNames.NameParse: the bytes that the source copies beyond the packet for a label that runs past its end are not represented, because that call then fails.
- DnsNames.DnsnameToLabels: the buffer has one byte to spare, because the last zero byte is written without a bounds test in the source; the contract says exactly when it needs that byte.
- DnsRequests.RequestBase.Pump: the ids that transaction_id_pick draws are a parameter, unused and different from each other, because the source draws them at random until they are.
- DnsRequests.RequestBase.Finish: such ids, likewise.
- Choosing the nameserver of a request, transmission, timeouts, search domains, probes and clear-and-suspend of evdns.
- TokenBucket.Bucket.Update: refunds that lift a limit above its maximum, for which `RefilledExactly` says when the refill differs.
- Throttle.Connection.DecrementReadLimit: such refunds, likewise.
- Throttle.Connection.DecrementWriteLimit: such refunds, likewise.
- Throttle.Connection.DecrementRead: the group half of this function is a step of `GroupSuspend` and not of the connection.
- Throttle.Connection.DecrementWrite: its group half, likewise.
- GroupSuspend.NoneStranded: one direction and one group; a critical section of the group lock that takes no other lock is one step.
- HT_REPLACE, HT_CLEAR, HT_FOREACH_FN and the hash functions; the hash is any function of the key, and equal keys are equal elements.
- HashTable.Table.Grow: sizes for which the source indexes past its table of primes, which are exactly those of `OverrunsIf`; insertion never asks for one.
- HashTable.Run: such sizes in an explicit HT_GROW, likewise.
- Tagging.DecodeTagInternal: a tag that ends neither within five bytes nor with the buffer, because then the source reads past the bytes that it has made contiguous; `SixthByte` says exactly when.
- Tagging.UnmarshalHeader: such tags, likewise.
- Tagging.PeekLength: such tags, likewise.
- Tagging.Consume: such tags, likewise; and what is left of buffers of 2^63 bytes and more after a payload of 2^31 bytes or more.
- Tagging.PeekThenConsume: such tags and buffers, likewise.
- Tagging.Unmarshal: such tags, and complete payloads of 2^31 to 2^32 - 2 bytes, whose length the source hands to evbuffer_add as a negative int.
- Marshalling of timevals, strings and whole buffers: easy members.
- Mpn.Add: has a plain body for mpn_add_n, which is assembly in GMP.
- Mpn.Sub: has a plain body for mpn_sub_n, likewise.
- Callbacks, timeouts and the suspension of writing of paired bufferevents, freeing one of the two, and be_pair_flush in normal mode, which does nothing.
- OpenSSL, IOCP, HTTP, RPC, filters, evport, kqueue, select, poll, plug-ins and configuration: foreign calls, plumbing or easy members.
