# Verified models of the algorithms in the UNP example code

The repository collects the programs of *UNIX Network Programming*. Most of them are socket
plumbing; the pieces modelled here hold real algorithms or protocols. Every system call is a
nondeterministic step or a parameter: `read` and `write` may be short, datagrams may be lost,
repeated or reordered, signals arrive whenever they are not blocked, threads wake spuriously.

* **Address text** (`TextFields`, `DottedQuad`, `InetPton6`, `LetterCase`, `InetNtop6`). The one-pass parsers and
  the printers work in place on arrays, as in C. They are proved against definitions on the pieces
  between dots and colons, and those definitions are proved to be inverse to each other and to be
  the languages one would write down.
* **SIGIO datagram queue** (`Rings`, `SigioQueue`). A state machine interleaving the main loop and
  the handler at the granularity of the statements that touch shared variables, and a class whose
  methods are its steps.
* **Reliable request/reply over UDP** (`Rtt`, `DgSendRecv`). The client, the echo server and the
  network as one machine, in which every packet carries a label, read by no program, that says which
  transmission of which request it stems from; the client's code as a class whose result, messages
  and timers are those of the machine. Floats are reals, so rounding is not modelled.
* **Dispatchers** (`ThreadPool`, `BoundedBuffer`, `ChildPool`). Mutexes, condition variables and
  pipes as state machines over any number of threads or children; the critical sections as methods.
* **Non-blocking relay** (`Relay`). The four-pointer copy loop, with a class whose methods are the
  blocks of the loop body.
* **addrinfo expansion** (`AddrInfoSpec`, `AddrInfoList`). The linked list on the heap, cloned into
  while it is walked; each node owns its address, so that no two nodes share a port.
* **Internet checksum** (`Checksum`, `UdpWrite`). Section 1 and section 2(B) of RFC 1071, on hosts
  of both byte orders, and the UDP checksum of RFC 768.
* **Line reader and select server** (`Readline`, `SelectServer`). A fast form against a simple one,
  and tables that must agree.

Where the code and what is said about it differ, the model follows the code:

* The comment at `libfree/inet_pton.c:134` says that `::` in a full address is silently ignored.
  The shift then zeroes everything after it. `InetPton6.ElisionInFullAddress` says, for every
  full address and every place of the `::`, exactly when the comment holds, and
  `InetNtop6.ElisionInFullAddressWitness` gives an address on which it does not.
* `inet_pton6` accepts a single trailing `:` after a group (`InetPton6.TrailingColonIgnored`), so
  its language is wider than section 2.2 of RFC 4291; `InetPton6.Addr6Language` is the exact one.
* `inet_aton` accepts empty and missing pieces and lets long pieces wrap around `u_long`;
  `DottedQuad.QuadVersusAton` says exactly which of its strings `inet_pton4` accepts too.
* The last bucket of the SIGIO histogram is never used: a queue that fills up ends the program
  before the signal is counted.
* The two `readline` functions store the same bytes but return different counts
  (`Readline.ReturnsDiffer` says when).
* The comment in `ga_port.c` shows two socket types per address in call order. With more than two
  types the first call's entry stays in front and the others follow latest first.

Ghost arguments and results of the methods name the abstract values their contracts speak of.
`dafny verify dfyconfig.toml` checks the project.

## Model

| member | source | states |
|---|---|---|
| DottedQuad.QuadLanguage | unpv13e_src_code/libfree/inet_pton.c:95-124 | a string of any length is a dotted quad iff it is four non-empty decimal runs of value at most 255 joined by single dots |
| TextFields.HexDigitTables | unpv13e_src_code/libfree/inet_pton.c:145-169 | the value of a digit is its place in the lower-case or in the upper-case table |
| TextFields.HexValFront | unpv13e_src_code/libfree/inet_pton.c:168-169 | the value of a run of hexadecimal digits is its positional value, first digit first |
| TextFields.DecValFront | unpv13e_src_code/libfree/inet_pton.c:102-106 | likewise for decimal digits |
| TextFields.HexTextUnique | unpv13e_src_code/libfree/inet_ntop.c:181-181 | what %x prints is the one text of the value in lower-case digits without a leading zero |
| TextFields.DecTextUnique | unpv13e_src_code/libfree/inet_ntop.c:91-94 | likewise what %u prints in decimal |
| DottedQuad.InetPton4 | unpv13e_src_code/libfree/inet_pton.c:86-125 | accepts exactly that language, writes exactly the four octets, and leaves dst untouched when it refuses |
| DottedQuad.ScanOctets | unpv13e_src_code/libfree/inet_pton.c:95-121 | the loop alone accepts that language and leaves the octets in tmp |
| DottedQuad.QuadRoundTrip | unpv13e_src_code/libfree/inet_ntop.c:91-94 | parsing the printed quad gives the address back, for every address |
| DottedQuad.QuadText | unpv13e_src_code/libfree/inet_ntop.c:91-94 | the printed quad is at most 15 characters |
| DottedQuad.WrappedStep | unpv13e_src_code/libfree/inet_aton.c:42 | wrapping u_long at every digit is wrapping once, for both widths |
| DottedQuad.InetAton | unpv13e_src_code/libfree/inet_aton.c:22-75 | result and octets are those of the piecewise definition: at most four pieces, possibly empty, wrapped value at most 255, missing ones zero on the right |
| DottedQuad.PushPiece | unpv13e_src_code/libfree/inet_aton.c:51-57 | a piece is pushed iff it is an octet, and the shifted accumulator is the big-endian value of all pieces so far |
| DottedQuad.Normalise | unpv13e_src_code/libfree/inet_aton.c:64-72 | the final shift and htonl give the pieces followed by zero octets |
| DottedQuad.AtonMissingPiece | unpv13e_src_code/libfree/inet_aton.c:45-67 | a missing piece counts as an empty one on the right, a zero octet |
| DottedQuad.QuadVersusAton | unpv13e_src_code/libfree/inet_aton.c:25-72 | on every dotted quad inet_aton agrees octet for octet, and the quads are exactly its strings with four non-empty pieces that do not wrap |
| InetPton6.Addr6Plain | unpv13e_src_code/libfree/inet_pton.c:162-219 | without "::", accepted iff the pieces are well formed and spell sixteen bytes, and those are the value |
| InetPton6.Addr6Elided | unpv13e_src_code/libfree/inet_pton.c:162-219 | with one "::", accepted iff the pieces spell at most sixteen bytes, spread around it |
| InetPton6.TwoElisions | unpv13e_src_code/libfree/inet_pton.c:177-181 | two "::" are refused wherever they stand |
| InetPton6.Addr6Language | unpv13e_src_code/libfree/inet_pton.c:152-220 | exactly which texts are accepted, as a condition on the pieces |
| InetPton6.TrailingColonIgnored | unpv13e_src_code/libfree/inet_pton.c:175-204 | a single colon after a final group is accepted and changes nothing |
| InetPton6.FullAddressElision | unpv13e_src_code/libfree/inet_pton.c:205-218 | the shift leaves a full buffer alone iff all bytes after colonp are zero already |
| InetPton6.ElisionInFullAddress | unpv13e_src_code/libfree/inet_pton.c:134-220 | for every text of a full address with a "::" anywhere, embedded quads and trailing colons included: what follows the "::" becomes zero, and the text means the same as without the "::" iff every byte after it is zero |
| InetPton6.ShiftedIsExpand | unpv13e_src_code/libfree/inet_pton.c:213-216 | prefix, then zeros, then suffix when tp < endp; zeros from colonp on when tp == endp |
| InetPton6.ShiftRight | unpv13e_src_code/libfree/inet_pton.c:205-218 | the overlapping in-place loop computes that, for every colonp <= tp <= endp |
| InetPton6.ScanGroups | unpv13e_src_code/libfree/inet_pton.c:159-204 | the token loop stores the bytes of the pieces and the place of the "::", or refuses, as the piecewise definition says; tp never passes endp and the tail stays zero |
| InetPton6.OnColon | unpv13e_src_code/libfree/inet_pton.c:175-190 | a colon stores the pending group, or marks the one "::", or refuses |
| InetPton6.StoreQuad | unpv13e_src_code/libfree/inet_pton.c:191-196 | an embedded dotted quad is taken iff it fits and is one |
| InetPton6.StepDot | unpv13e_src_code/libfree/inet_pton.c:191-197 | handing the whole current token to inet_pton4 at its first dot decides the parse |
| InetPton6.InetPton6 | unpv13e_src_code/libfree/inet_pton.c:140-224 | accepts exactly the language, writes exactly the value, and leaves dst untouched when it refuses |
| LetterCase.CaseInsensitive | unpv13e_src_code/libfree/inet_pton.c:165-169 | texts that differ only in the case of a to f are accepted alike, with the same address |
| InetNtop6.BestIsUnique | unpv13e_src_code/libfree/inet_ntop.c:135-156 | there is one leftmost longest zero run of length at least 2, or none |
| InetNtop6.ElidesExactly | unpv13e_src_code/libfree/inet_ntop.c:155-156 | something is elided iff two neighbouring words are zero |
| InetNtop6.RfcSingleZero | unpv13e_src_code/libfree/inet_ntop.c:155-156 | the example of section 4.2.2 of RFC 5952: a single zero word is left alone |
| InetNtop6.RfcLongest | unpv13e_src_code/libfree/inet_ntop.c:144-153 | the example of section 4.2.3: the longest run is elided |
| InetNtop6.RfcFirst | unpv13e_src_code/libfree/inet_ntop.c:144-153 | the example of section 4.2.3: of two equal runs the first is elided |
| InetNtop6.QuadPrinted | unpv13e_src_code/libfree/inet_ntop.c:173-180 | on the bytes: a dotted quad is printed iff the address is IPv4-mapped, or has twelve zero bytes and a non-zero one among the next two; the text is then ::ffff: or :: and the quad |
| InetNtop6.NothingElided | unpv13e_src_code/libfree/inet_ntop.c:162-183 | without two neighbouring zero words the text is the eight byte pairs in hexadecimal between colons |
| InetNtop6.FillWords | unpv13e_src_code/libfree/inet_ntop.c:132-134 | the or-ed bytes are the big-endian words |
| InetNtop6.FindBestRun | unpv13e_src_code/libfree/inet_ntop.c:135-156 | the one-pass search finds exactly that run (sections 4.2.2 and 4.2.3 of RFC 5952) |
| InetNtop6.EmittedStep | unpv13e_src_code/libfree/inet_ntop.c:162-183 | what each turn of the formatting loop appends completes the text word by word, or all of it at the embedded quad |
| InetNtop6.EmittedFits | unpv13e_src_code/libfree/inet_ntop.c:122-187 | every turn leaves room in the 46 bytes for the final colon and NUL |
| InetNtop6.PrefixWhole | unpv13e_src_code/libfree/inet_ntop.c:184-186 | after eight words only the closing colon of a trailing run is missing |
| InetNtop6.FormatWord | unpv13e_src_code/libfree/inet_ntop.c:163-182 | one turn of the loop appends exactly the emitted characters |
| InetNtop6.InetNtop6 | unpv13e_src_code/libfree/inet_ntop.c:109-198 | the text around the best run, NUL-terminated, with a quad for exactly the mapped and compatible addresses, or ENOSPC exactly when it does not fit |
| InetNtop6.RoundTripWords | unpv13e_src_code/libfree/inet_ntop.c:158-187 | the text printed around any zero run, or none, parses back to the words |
| InetNtop6.RoundTrip | unpv13e_src_code/libfree/inet_ntop.c:132-187 | parsing the printed text gives back every sixteen-byte address, embedded IPv4 included |
| InetNtop6.TextNoNul | unpv13e_src_code/libfree/inet_ntop.c:161-187 | no NUL is printed, so the string in the buffer is the whole text |
| InetNtop6.NtopThenPton | unpv13e_src_code/libfree/inet_ntop.c:109-198 | the code of inet_ntop6 and then of inet_pton6 on the string found in the buffer: whenever printing succeeds, and always from 46 bytes on, parsing succeeds and stores exactly the address printed |
| InetNtop6.PrinterInjective | unpv13e_src_code/libfree/inet_ntop.c:132-187 | different addresses have different texts |
| InetNtop6.PrintAfterParseIdempotent | unpv13e_src_code/libfree/inet_ntop.c:132-187 | printing what was parsed from any accepted text and parsing again gives the same address |
| InetNtop6.ElisionWipes | unpv13e_src_code/libfree/inet_pton.c:205-220 | a "::" before the last group of a full address replaces that group by zero |
| InetNtop6.ElisionInFullAddressWitness | unpv13e_src_code/libfree/inet_pton.c:134-134 | 1:2:3:4:5:6:7::8 and 1:2:3:4:5:6:7:8 parse differently |
| SigioQueue.MainKeeps | unpv13e_src_code/sigio/dgecho01.c:57-73 | every step of the main loop keeps the queue invariant |
| SigioQueue.FillKeeps | unpv13e_src_code/sigio/dgecho01.c:89-99 | recvfrom writes only the free slot, never the one being sent, and keeps the invariant |
| SigioQueue.HandlerKeeps | unpv13e_src_code/sigio/dgecho01.c:85-107 | every step of the handler keeps the invariant |
| SigioQueue.RunInv | unpv13e_src_code/sigio/dgecho01.c:56-107 | the invariant holds in every state of every interleaving |
| SigioQueue.InOrderExactlyOnce | unpv13e_src_code/sigio/dgecho01.c:56-107 | received is sent followed by the queue's slots in order (and the datagram being booked); iput is (iget + nqueue) mod QSIZE, one less from the increment of iget to nqueue--; the queue is never full outside the handler; bucket QSIZE stays 0 |
| SigioQueue.SlotStableWhileSending | unpv13e_src_code/sigio/dgecho01.c:62-65 | over any stretch of a run inside Sendto the slot keeps its datagram |
| SigioQueue.SleepsOnlyWhenDone | unpv13e_src_code/sigio/dgecho01.c:56-73 | in every run the program is asleep only with everything received sent |
| SigioQueue.SleepsExactly | unpv13e_src_code/sigio/dgecho01.c:58-62 | from its test the main loop sleeps iff the queue is empty, and else goes on to send |
| SigioQueue.SignalsArrive | unpv13e_src_code/sigio/dgecho01.c:56-72 | the handler can run at every point of the main loop but the two where SIGIO is blocked |
| SigioQueue.HistogramCounts | unpv13e_src_code/sigio/dgecho01.c:101-107 | bucket k is the number of handled signals that read k datagrams |
| SigioQueue.OverflowExit | unpv13e_src_code/sigio/dgecho01.c:86-87 | the exit is taken iff QSIZE are counted, and says how many are then unsent |
| SigioQueue.DgEcho.Recv | unpv13e_src_code/sigio/dgecho01.c:89-99 | the datagram lands in dg[iput] and nothing else changes |
| SigioQueue.DgEcho.BookIn | unpv13e_src_code/sigio/dgecho01.c:101-104 | counts and index advance as the machine's booking step, keeping the invariant |
| SigioQueue.DgEcho.Return | unpv13e_src_code/sigio/dgecho01.c:93-107 | EWOULDBLOCK counts the signal in the histogram, inside its bounds, and resumes the main loop |
| SigioQueue.DgEcho.SigIo | unpv13e_src_code/sigio/dgecho01.c:78-108 | all waiting datagrams are read in order, and the program ends iff the queue would reach QSIZE |
| SigioQueue.DgEcho.SendHead | unpv13e_src_code/sigio/dgecho01.c:64-65 | the datagram sent is the oldest received one not yet sent |
| SigioQueue.DgEcho.TestQueue | unpv13e_src_code/sigio/dgecho01.c:58-62 | waits iff nqueue is 0 and else opens the mask, keeping the invariant |
| SigioQueue.DgEcho.BumpGet | unpv13e_src_code/sigio/dgecho01.c:67-67 | the increment alone keeps the invariant, so a signal may come before the wrap |
| SigioQueue.DgEcho.WrapAround | unpv13e_src_code/sigio/dgecho01.c:67-68 | the wrap keeps the invariant |
| SigioQueue.DgEcho.Uncount | unpv13e_src_code/sigio/dgecho01.c:71-72 | the late decrement under the mask keeps the invariant |
| Rtt.MinMax | unpv13e_src_code/lib/rtt.c:12-20 | 2 below 2 seconds, 60 above 60, and the argument between |
| Rtt.StopBounded | unpv13e_src_code/lib/rtt.c:80-102 | srtt stays within the largest sample, rttvar within max(0.75, largest sample), RTO within its limits |
| Rtt.StopLearns | unpv13e_src_code/lib/rtt.c:80-102 | a sample moves srtt by an eighth and rttvar by a quarter of its error, and the RTO is four deviations above the mean, within 2 and 60 |
| Rtt.Converges | unpv13e_src_code/lib/rtt.c:93-94 | n equal samples shrink the error of srtt by exactly (7/8)^n |
| Rtt.RttInfo.RttInit | unpv13e_src_code/lib/rtt.c:22-35 | srtt 0, rttvar 0.75, base now and a first RTO of 3 seconds; nrexmt is kept |
| Rtt.StartIsNearest | unpv13e_src_code/lib/rtt.c:62-67 | the seconds given to alarm are the one whole number within half a second of the RTO |
| Rtt.RttInfo.RttStart | unpv13e_src_code/lib/rtt.c:62-67 | the result is never more than half a second off the RTO, a half rounded up |
| Rtt.RttInfo.RttStop | unpv13e_src_code/lib/rtt.c:80-102 | those equations, of the fields in place |
| Rtt.RttInfo.RttTimeout | unpv13e_src_code/lib/rtt.c:111-119 | the RTO doubles, and -1 exactly from the fourth timeout on |
| DgSendRecv.SampleIsElapsed | unpv13e_src_code/rtt/dg_send_recv.c:90-90 | the difference of two timestamps is the elapsed milliseconds modulo 2^32, across wrap-around |
| DgSendRecv.BackoffStep | unpv13e_src_code/lib/rtt.c:114-118 | each doubling keeps the total armed time within its bound, 900 seconds in all |
| DgSendRecv.CallKeeps | unpv13e_src_code/rtt/dg_send_recv.c:26-63 | starting a request keeps the protocol invariant |
| DgSendRecv.AlarmKeeps | unpv13e_src_code/rtt/dg_send_recv.c:68-79 | a timeout keeps it, whether it resends or gives up |
| DgSendRecv.ReplyOrigin | unpv13e_src_code/rtt/dg_send_recv.c:81-86 | a packet with the current number is labelled as a transmission of the current request and is the echo of that very transmission |
| DgSendRecv.ReceiveKeeps | unpv13e_src_code/rtt/dg_send_recv.c:81-92 | receiving any message, matching or not, keeps the invariant |
| DgSendRecv.EchoKeeps | unpv13e_src_code/rtt/dg_echo.c:10-15 | the server echoing any request any number of times keeps it |
| DgSendRecv.RunInv | unpv13e_src_code/rtt/dg_send_recv.c:26-92 | the invariant holds over every run with loss, duplication and reordering |
| DgSendRecv.ReplyIsCurrent | unpv13e_src_code/rtt/dg_send_recv.c:81-92 | the sample is the time since the transmission named by the label of the accepted packet, which no program reads |
| DgSendRecv.RunResults | unpv13e_src_code/rtt/dg_send_recv.c:32-92 | every call that returned had accepted a packet labelled with its own request and one transmission j of it, returned its own payload (whole when it fits), and took as sample the time since that very j, exact below 2^32 ms; a call that timed out had transmitted four times |
| DgSendRecv.RunLearns | unpv13e_src_code/rtt/dg_send_recv.c:26-90 | over every run: each logged reply sample, and nothing else, moves the estimators, by those equations; they are set up exactly at the first request and the first after a timeout; each resend doubles the RTO; each transmission arms the RTO rounded to seconds |
| DgSendRecv.RunTimers | unpv13e_src_code/rtt/dg_send_recv.c:54-79 | RTO within [2,60] on entry, at most 4 transmissions and 900 armed seconds a request, estimators bounded by the largest sample |
| DgSendRecv.Requester.OnAlarm | unpv13e_src_code/rtt/dg_send_recv.c:68-79 | the machine's alarm step: same statics, message and timer |
| DgSendRecv.Requester.OnDatagram | unpv13e_src_code/rtt/dg_send_recv.c:81-92 | returns iff the number matches, with the payload cut to the caller's room, and then the estimators learn the very sample returned; the machine's receive step |
| DgSendRecv.Requester.SendRecv | unpv13e_src_code/rtt/dg_send_recv.c:18-93 | for every sequence of events one to four messages with the caller's payload and the next number, four exactly before a timeout, and the payload of a datagram with that number; result, messages in order, seconds armed and statics are those of the machine |
| ThreadPool.StoreKeeps | unpv13e_src_code/server/serv08.c:40-44 | storing keeps the ring invariant, and the exit is taken iff 31 descriptors were waiting |
| ThreadPool.SignalKeeps | unpv13e_src_code/server/serv08.c:45-45 | one signal per store keeps the wakeup bound |
| ThreadPool.TakeKeeps | unpv13e_src_code/server/pthread08.c:22-26 | a worker takes the oldest accepted descriptor not yet taken |
| ThreadPool.WorkerKeeps | unpv13e_src_code/server/pthread08.c:20-32 | every step of every worker, spurious wakeups included, keeps the invariant |
| ThreadPool.RunInv | unpv13e_src_code/server/serv08.c:35-47 | the invariant holds over every run with any number of workers |
| ThreadPool.DispatchedInOrder | unpv13e_src_code/server/pthread08.c:20-31 | the k-th descriptor taken is the k-th accepted, the ring is the rest in order, a sleeper implies as many woken as are waiting, thread_count is what each worker took |
| ThreadPool.ServesWhatItTook | unpv13e_src_code/server/pthread08.c:24-31 | in every run the descriptor a worker holds or serves is the one it took last, the accepted one of the same number, so none is served by two workers |
| ThreadPool.NeverAllAsleep | unpv13e_src_code/server/pthread08.c:22-23 | the pool is never entirely asleep with a descriptor waiting |
| ThreadPool.Ring.Put | unpv13e_src_code/server/serv08.c:40-44 | appends to the ring's contents, or reports the overflow exit exactly at 31 waiting |
| ThreadPool.Ring.Get | unpv13e_src_code/server/pthread08.c:24-26 | removes the head of the ring's contents |
| BoundedBuffer.ProducerKeeps | unpv13e_src_code/threads/example03.c:62-80 | every step of any producer keeps the buffer invariant |
| BoundedBuffer.ConsumerKeeps | unpv13e_src_code/threads/example03.c:82-104 | every step of any consumer keeps it |
| BoundedBuffer.RunInv | unpv13e_src_code/threads/example03.c:62-104 | the invariant holds over every run, for any size, producers, consumers and item count |
| BoundedBuffer.DeliveredInOrder | unpv13e_src_code/threads/example03.c:62-104 | nextput is (nextget + nitems) mod size, 0 <= nitems <= size, and produced is consumed followed by the buffer's slots in order |
| BoundedBuffer.SingleProducer | unpv13e_src_code/threads/example03.c:106-130 | in every run of one produce_loop, which stores its loop counter, the items produced are 0, 1, 2, ... and so are those consumed |
| BoundedBuffer.NeverStuck | unpv13e_src_code/threads/example03.c:67-101 | while items are left to consume some thread can move without a spurious wakeup |
| BoundedBuffer.Buffer.Put | unpv13e_src_code/threads/example03.c:72-75 | appends to the contents |
| BoundedBuffer.Buffer.Get | unpv13e_src_code/threads/example03.c:93-97 | removes the head of the contents |
| ChildPool.FirstIdle | unpv13e_src_code/server/serv05.c:54-59 | the least index with status 0, or the number of children if there is none |
| ChildPool.IdleExists | unpv13e_src_code/server/serv05.c:45-59 | with navail > 0 the search for an idle child succeeds |
| ChildPool.AssignKeeps | unpv13e_src_code/server/serv05.c:50-68 | handing out a connection keeps the pool invariant and does not exit |
| ChildPool.ScanKeeps | unpv13e_src_code/server/serv05.c:71-80 | each turn of the loop over the pipes keeps it |
| ChildPool.FinishKeeps | unpv13e_src_code/server/child05.c:46-49 | a child finishing and reporting keeps it |
| ChildPool.RunInv | unpv13e_src_code/server/serv05.c:30-82 | the invariant holds over every run of parent and live children |
| ChildPool.PoolInvariant | unpv13e_src_code/server/serv05.c:43-81 | navail is the number of idle children, a busy child has exactly one token and an idle one none, every accepted connection is finished or held by one child, "no available children" is unreachable |
| ChildPool.ListenerWatched | unpv13e_src_code/server/serv05.c:44-47 | in every run select can report the listener iff some child is idle |
| ChildPool.CountsAddUp | unpv13e_src_code/server/serv05.c:61-61 | the child counts add up to the connections accepted |
| ChildPool.PassSkipsNothing | unpv13e_src_code/server/serv05.c:77-78 | leaving the loop on nsel == 0 skips no ready child |
| ChildPool.AcceptSkipsNothing | unpv13e_src_code/server/serv05.c:66-67 | going back to select right after an accept skips no ready child |
| ChildPool.Parent.Assign | unpv13e_src_code/server/serv05.c:54-62 | marks exactly the first idle child and keeps navail equal to the idle count |
| ChildPool.Parent.Ready | unpv13e_src_code/server/serv05.c:75-76 | frees exactly that child and keeps navail equal to the idle count |
| Relay.StepKeeps | unpv13e_src_code/nonblock/strclinonb.c:27-123 | every step keeps the invariant, only extends the logs, and writes nothing to the socket after the FIN |
| Relay.RunInv | unpv13e_src_code/nonblock/strclinonb.c:22-123 | the invariant holds over every run |
| Relay.Conservation | unpv13e_src_code/nonblock/strclinonb.c:42-122 | in each direction bytes read are bytes written then the pending slice; Shutdown was called iff stdin is at EOF with every byte written, and then once |
| Relay.LogsGrow | unpv13e_src_code/nonblock/strclinonb.c:42-122 | over any stretch of a run the logs only grow and after the FIN nothing goes to the socket |
| Relay.AlwaysRoomAndWork | unpv13e_src_code/nonblock/strclinonb.c:30-39 | no read is issued without room, so 0 is end of file, and select always waits for something |
| Relay.AsksExactly | unpv13e_src_code/nonblock/strclinonb.c:28-37 | each descriptor is asked for iff there is room to read into or something to write |
| Relay.LoopIsRun | unpv13e_src_code/nonblock/strclinonb.c:27-123 | the blocks of the loop body, on whatever the calls return, are steps of the machine |
| Relay.Pipe.Fill | unpv13e_src_code/nonblock/strclinonb.c:59-59 | bytes read are appended behind the pending slice |
| Relay.Pipe.Drain | unpv13e_src_code/nonblock/strclinonb.c:99-101 | bytes written leave from its front and an emptied buffer starts over |
| Relay.Client.Select | unpv13e_src_code/nonblock/strclinonb.c:28-39 | only what was asked for can come back ready |
| Relay.Client.OnStdin | unpv13e_src_code/nonblock/strclinonb.c:42-62 | the new state for each outcome of read on stdin, with the FIN only if nothing is pending |
| Relay.Client.OnSock | unpv13e_src_code/nonblock/strclinonb.c:64-86 | the new state for each outcome of read on the socket; EOF ends the loop, normally iff stdin is at EOF |
| Relay.Client.OnStdout | unpv13e_src_code/nonblock/strclinonb.c:89-103 | the new state for each outcome of write to stdout |
| Relay.Client.OnSockWrite | unpv13e_src_code/nonblock/strclinonb.c:105-122 | the new state for each outcome of write to the socket, with the deferred FIN |
| AddrInfoSpec.FailsExactly | unpv13e_src_code/libgai/ga_port.c:37-41 | ga_port fails iff two allocations per entry to be cloned are not to be had, and otherwise uses exactly those |
| AddrInfoSpec.BlockGrows | unpv13e_src_code/libgai/ga_port.c:37-63 | a further call adds one clone right behind the head of a block and touches nothing else |
| AddrInfoSpec.CallsMakeBlocks | unpv13e_src_code/libgai/ga_port.c:37-64 | k calls with distinct non-zero types turn each address into one contiguous block, in the original order |
| AddrInfoSpec.EveryPairOnce | unpv13e_src_code/libgai/ga_port.c:8-26 | the list has N*k entries and the block of every address holds every (type, port) pair at one place of its own, address and protocol unchanged, only the first still marked for cloning |
| AddrInfoSpec.ServBlocks | unpv13e_src_code/libgai/ga_serv.c:15-48 | without a socket type from the caller ga_serv's calls have distinct non-zero types, so the blocks result |
| AddrInfoSpec.ServOutcome | unpv13e_src_code/libgai/ga_serv.c:15-56 | memory fails iff both calls are made with fewer than two allocations per address; otherwise the list is the blocks and N*k are found |
| AddrInfoSpec.ServesAsPromised | unpv13e_src_code/libgai/ga_serv.c:15-56 | for every service: without a socket type each address gets a stream entry with the tcp port and right behind it a datagram entry with the udp port, or the one the service has; with one, its port; and which of the four codes |
| AddrInfoSpec.FoundExactly | unpv13e_src_code/libgai/ga_port.c:37-64 | on any list, the count is of the IP entries that are to be cloned or have the type, and the list grows by one per clone |
| AddrInfoSpec.LeftAlone | unpv13e_src_code/libgai/ga_port.c:44-62 | an entry of another type is passed over, and one of no IP family is not counted and keeps its port |
| AddrInfoSpec.SpecifiedInPlace | unpv13e_src_code/libgai/ga_port.c:44-64 | with a socket type from the caller nothing is cloned and every entry gets the port |
| AddrInfoList.GaClone | unpv13e_src_code/libgai/ga_clone.c:8-30 | the list stays acyclic with a copy right behind the entry, with an address of its own; without memory for that the node stays and the result is NULL |
| AddrInfoList.Fill | unpv13e_src_code/libgai/ga_port.c:47-62 | type and port of that one entry are set and no other entry changes |
| AddrInfoList.Step | unpv13e_src_code/libgai/ga_port.c:38-62 | one turn leaves in place of the entry what the specification says, and continues behind it |
| AddrInfoList.GaPort | unpv13e_src_code/libgai/ga_port.c:30-65 | the walk ends despite insertions, and list, count and memory are those of the specification |
| AddrInfoList.GaServ | unpv13e_src_code/libgai/ga_serv.c:8-57 | the list and the code are those promised for every service: EAI_MEMORY, EAI_NONAME without a socket type, EAI_SERVICE with one, or 0 |
| AddrInfoList.FillIn | unpv13e_src_code/libgai/ga_aistruct.c:21-61 | AI_CLONE iff the caller gave no type; the address is a fresh copy, or EAI_MEMORY |
| AddrInfoList.GaAistruct | unpv13e_src_code/libgai/ga_aistruct.c:8-61 | exactly one entry is appended at the tail, also when its address could not be allocated |
| Checksum.FoldIsNorm | unpv13e_src_code/libfree/in_cksum.c:27-29 | two folds reduce every 32-bit sum to its one's-complement value |
| Checksum.OcSumIsNorm | unpv13e_src_code/libfree/in_cksum.c:16-29 | adding with end-around carry word by word is folding the exact sum once |
| Checksum.NoOverflowExactly | unpv13e_src_code/libfree/in_cksum.c:16-25 | the accumulator cannot overflow up to 131074 bytes, and for every greater length some buffer overflows it |
| Checksum.InCksum | unpv13e_src_code/libfree/in_cksum.c:3-32 | the RFC 1071 checksum of every buffer of at most 131074 bytes, odd lengths included; beyond, that of the wrapped sum |
| Checksum.SwapAdd | unpv13e_src_code/libfree/in_cksum.c:16-29 | swapping the bytes of both operands swaps the one's-complement sum |
| Checksum.OrderIndependent | unpv13e_src_code/libfree/in_cksum.c:16-31 | hosts of both byte orders store the same two bytes |
| Checksum.RfcExample | unpv13e_src_code/libfree/in_cksum.c:16-31 | the numerical example of section 3 of RFC 1071, in both byte orders |
| Checksum.SwapPairsCksum | unpv13e_src_code/libfree/in_cksum.c:16-31 | swapping every byte pair of the buffer swaps the checksum |
| Checksum.StoredVerifies | unpv13e_src_code/libfree/in_cksum.c:16-31 | storing the checksum, or 0xffff for 0, in its zeroed aligned field makes recomputation return 0 |
| UdpWrite.SameSum | unpv13e_src_code/udpcksum/udpwrite.c:37-48 | the overlaid layout sums to the same as pseudo-header plus segment of RFC 768 |
| UdpWrite.PacketVerifies | unpv13e_src_code/udpcksum/udpwrite.c:49-56 | the receiver's sum comes out at 0 on hosts of both byte orders, whatever the IP header then says |
| UdpWrite.FillHeader | unpv13e_src_code/udpcksum/udpwrite.c:34-48 | the header before checksumming is exactly the overlay, and the data is untouched |
| UdpWrite.SentBytes | unpv13e_src_code/udpcksum/udpwrite.c:34-70 | version and header length, total length in the byte order of the system, TTL 64, protocol 17, addresses, ports and UDP length, byte by byte |
| UdpWrite.UdpWrite | unpv13e_src_code/udpcksum/udpwrite.c:28-70 | the packet sent: a stored sum that is non-zero and verifies, or zero when sums are off; all header bytes and untouched data |
| Readline.LineIsMaximal | unpv13e_src_code/server/readline.c:11-23 | a line has its newline only at the end and stops for a newline, for want of room, or at EOF |
| Readline.SimpleReadline | unpv13e_src_code/server/readline.c:4-27 | the byte-at-a-time form stores exactly the line; its return value |
| Readline.ReturnsDiffer | unpv13e_src_code/lib/readline.c:40-48 | the two return values agree except by one after a partial line at EOF |
| Readline.LinesConserve | unpv13e_src_code/lib/readline.c:28-49 | over any sequence of calls the lines and what is left are the stream |
| Readline.LineReader.Refill | unpv13e_src_code/lib/readline.c:12-21 | however often interrupted, refilling changes nothing the caller has still to see |
| Readline.LineReader.MyRead | unpv13e_src_code/lib/readline.c:8-26 | the next byte of the stream, or EOF at its end |
| Readline.LineReader.Readline | unpv13e_src_code/lib/readline.c:28-49 | stores the same line as the simple form however read cut the stream; stored plus read-ahead is everything read |
| Readline.LineReader.ReadLines | unpv13e_src_code/lib/readline.c:28-49 | so for any number of calls with any sizes |
| Readline.SimpleReadLines | unpv13e_src_code/server/readline.c:4-27 | the same lines from the simple form |
| SelectServer.NeverFull | unpv13e_src_code/tcpcliserv/tcpservselect01.c:53-54 | "too many clients" is unreachable while descriptors are within select's range |
| SelectServer.AllServed | unpv13e_src_code/tcpcliserv/tcpservselect01.c:78-79 | having served as many as are ready is having served them all |
| SelectServer.Server.constructor | unpv13e_src_code/tcpcliserv/tcpservselect01.c:26-31 | the tables agree initially |
| SelectServer.Server.AddClient | unpv13e_src_code/tcpcliserv/tcpservselect01.c:48-60 | there is always a free entry; for every descriptor accept may return, FD_SET is defined iff it is below FD_SETSIZE, and then it is recorded and the tables still agree |
| SelectServer.Server.CloseClient | unpv13e_src_code/tcpcliserv/tcpservselect01.c:70-74 | exactly that client is forgotten and the tables still agree |
| SelectServer.Server.ServeReady | unpv13e_src_code/tcpcliserv/tcpservselect01.c:66-81 | every ready client is served exactly once, whichever exit is taken |
| SelectServer.Server.Pass | unpv13e_src_code/tcpcliserv/tcpservselect01.c:36-82 | unless FD_SET was undefined, each pass serves every ready descriptor once and none accepted in it, and allset, client[], maxi and maxfd agree again |

## Left out

- Wrappers, `main` programs, name and service lookups, printing, debugging and option parsing: calls into code that is not shown, or easy members.
- The programs under `unp/src`: retyped copies of code modelled here, or wrappers.
- `tcpservpoll01.c`, `icmpd/` and `threads/web01.c` to `web03.c`: their state has no clean invariant to claim.
- `siglongjmp` before `sigsetjmp` in `dg_send_recv`: timeouts are steps while the request waits for its reply.
- Datagrams shorter than the header in `dg_send_recv`: the echo server never sends one, since every request carries a header.
- Rounding of `float` in `rtt.c`: the model computes with reals.
- DgSendRecv.RunResults: stated for fewer than 2^32 requests, since the sequence number wraps then and an old echo can carry the current number; times are those of a clock that never goes back.
- Errors other than EINTR from `read` in both `readline` functions: the stream is free of errors.
- Children that die in `serv05`, and the exits for a closed pipe: children are live.
- `ga_aistruct` for AF_LOCAL, and the parsing of the service string in `ga_serv` (`isdigit`, `atoi`): the service is a port number or what the two lookups return.
- The size check of `inet_ntop4` for its callers: only the use inside `inet_ntop6` is modelled.
- Negative lengths in `in_cksum` and `udp_write`, and the IP header checksum, which the kernel fills in.
- SelectServer.Server.AddClient: nothing is said about the state after FD_SET on a descriptor of FD_SETSIZE or more, which is undefined in C; the method reports that it happens.
- SelectServer.Server.Pass: likewise, nothing is said after such a descriptor was accepted.
- SIGHUP in `dgecho01.c`: it only prints the histogram.
