# Homeboard verification model

A Dafny model of the concurrent and algorithmic core of homeboard, with proofs. One module per
component:

| file | component |
|---|---|
| `PhotoRing.dfy` | the photo ring of `photo-provider/cache.c`: list specification, zipper view, and the class over the array indexed modulo its capacity |
| `CacheProtocol.dfy` | the worker and dispatch threads around that ring and the client id, as a state machine |
| `WwwSession.dfy` | `photo-provider/www_session.c`: response buffer, registration reply, setters that re-register |
| `SpscQueue.dfy`, `WireQueue.dfy` | the lock-free command queue of `transport.c`, step by step and as an object, and that `Wire` uses it faithfully |
| `Frames.dfy`, `SensorStream.dfy` | the frame recogniser of `transport.c`, its round trips and recovery from noise, the decoders and the calibration gate |
| `ResponseSlot.dfy`, `Wire.dfy`, `Answers.dfy` | `session.c`: the single response slot, transactions on the wire under any interleaving, and whose answer a wait takes |
| `SensorParams.dfy` | parameter names, words and codecs of `ld2410s_uart.c` |
| `Debounce.dfy` | the occupancy debouncer of `ld2410s.c` |
| `Slideshow.dfy`, `Display.dfy` | the slideshow wake-up protocol and the force-off latch of `ambience` |
| `WordWrap.dfy`, `ImgRender.dfy`, `EinkSurface.dfy` | word wrap, image scaling and rotation, and the e-ink bit transposition |
| `Basics.dfy` | shared vocabulary and arithmetic |

`dafny verify dfyconfig.toml` checks the whole project.

## How to read it

Concurrent components are state machines: `Step(s, e)` is one critical section or one piece of work
outside the locks, an event that is not enabled changes nothing, and `Exec` runs any list of events.
A lemma over every list of events is therefore a statement about every interleaving. What the
network, the sensor, the clock, the scheduler or an allocation does is carried by the events or by
parameters. Objects the program updates in place are classes; each of their methods is proved equal
to a function of the old state, and the theorems are about those functions.

Words are explicit: the cache generation and the debouncer's counters wrap at 2^32, the queue's
`size_t` counters and the vacancy counter at any suitable word size.

## Where the code and its documentation differ

The model follows the code.

- `photo-provider/README.md` (line 70) calls the generation a `uint64_t`; it is a `uint32_t`
  (`photo-provider/cache.c`, line 33). The stale-photo theorem therefore needs fewer than 2^32
  invalidations during one fetch. `CacheProtocol.WordWrapAdmitsStalePhoto` shows that the bound is
  tight, and `CacheProtocol.NeverStaleIff` is the exact condition.
- The comment above `send_and_wait` (`session.c`, lines 60-61) says that responses to other commands
  are discarded. They are accepted with a log line. `Answers.OwnAnswerIff` says exactly when the
  accepted response is the awaited one, with any number of timeouts: among others whenever the sensor
  had nothing left to answer when the wait began. `Answers.SuccessBeforeSending` is a run in which it
  is not.
- The comment at `ambience/slideshow.c`, lines 195-197, argues that the drain loses no press. That is
  right (`Slideshow.NoLostPress`), but a press can act twice, exactly as `Slideshow.ActsTwiceIff` says,
  and the drain can swallow the post of `slideshow_stop`; `Slideshow.StopReturnsIff` is the exact
  condition for that.
- A setter of `www_session.c` that returns 0 need not leave the server with that configuration;
  `WwwSession.AlwaysInSyncIff` and `WwwSession.InSyncAfterRunIff` say when it does.
- `cairo_render_text` reads past the terminator of some texts, and drops the last line of others;
  `WordWrap.OverrunIffPending` and `WordWrap.RejoinsToText` say exactly which, `WordWrap.LastLine`
  what it looks like.
- A command with 127 or 128 data bytes is accepted by `transport_enqueue` but never written by
  `send_cmd`; `Wire` models it as queued, dequeued and never sent.

## Model

| member | source | states |
|---|---|---|
| PhotoRing.Configured | photo-provider/cache.c:187-188 | the history depth as given and a prefetch depth of at least 1, so the capacity is never below 2 |
| PhotoRing.ShouldFetchIff | photo-provider/cache.c:113-121 | a fetch is due exactly while fewer than prefetch_depth photos wait and there is room, or history to make room |
| PhotoRing.Place | photo-provider/cache.c:154-172 | storing never moves the cursor and keeps the ring valid, whatever the cursor did during the fetch |
| PhotoRing.PopIsForward | photo-provider/cache.c:237-244 | a pop is possible exactly when something is prefetched, and is one step forward of the list zipper |
| PhotoRing.PopPrevIsBackward | photo-provider/cache.c:262-266 | a pop_prev is possible exactly when history is held, and is one step back of the zipper |
| PhotoRing.PlaceOnZipper | photo-provider/cache.c:154-172 | a fetched photo is appended to the prefetched list and drops the oldest history entry only when full; without history to drop it is refused and closed |
| PhotoRing.SlotsDistinct | photo-provider/cache.c:60 | positions less than one capacity apart never share a slot |
| PhotoRing.SlotsCovered | photo-provider/cache.c:60 | any capacity-many consecutive positions reach every slot, so a flush leaves no descriptor behind |
| PhotoRing.PhotoCache.constructor | photo-provider/cache.c:180-198 | the empty ring |
| PhotoRing.PhotoCache.CloseEntry | photo-provider/cache.c:52-58 | closes the descriptor once if there is one and frees the slot |
| PhotoRing.PhotoCache.CloseAll | photo-provider/cache.c:62-64 | closes each live descriptor exactly once, oldest first, and leaves every slot of the array free |
| PhotoRing.PhotoCache.FlushLocked | photo-provider/cache.c:62-68 | the same, and resets the cursors |
| PhotoRing.PhotoCache.Invalidate | photo-provider/cache.c:70-77 | flush and a 32-bit wrapping increment of the generation |
| PhotoRing.PhotoCache.MakeRoom | photo-provider/cache.c:154-158 | the eviction loop drops exactly one photo, and only when the ring is full and the oldest is not the current one |
| PhotoRing.PhotoCache.Store | photo-provider/cache.c:169-172 | the slot stored to is free: no open descriptor is overwritten |
| PhotoRing.PhotoCache.Commit | photo-provider/cache.c:148-173 | a result of another generation, or after shutdown, is closed and changes nothing; otherwise the array does what Place does to the list |
| PhotoRing.PhotoCache.TryPop | photo-provider/cache.c:237-257 | blocks exactly when nothing is prefetched; otherwise advances and returns the photo at the new position, or fails on dup with the cursor moved |
| PhotoRing.PhotoCache.PopPrev | photo-provider/cache.c:260-279 | fails exactly when no history is held; otherwise retreats and returns that photo |
| CacheProtocol.Step | photo-provider/cache.c:123-178 | one critical section of either thread; every step keeps the ring valid |
| CacheProtocol.Exec | photo-provider/cache.c:123-279 | any interleaving keeps the ring valid |
| CacheProtocol.BlockedPopWantsFetch | photo-provider/cache.c:113-121 | when pop blocks, a fetch is due |
| CacheProtocol.PrevNeverDemandsFetch | photo-provider/cache.c:260-270 | moving the cursor back, which broadcasts nothing, never makes a fetch due |
| CacheProtocol.StepKeepsSleepersBlocked | photo-provider/cache.c:128-131 | no step leaves a thread asleep on a condition that has come true |
| CacheProtocol.NoLostWakeupNoMutualWait | photo-provider/cache.c:237-248 | in every run: no lost wake-up, and worker and pop never sleep on each other |
| CacheProtocol.WorkerCheckDecides | photo-provider/cache.c:127-134 | the check fetches exactly while too few photos wait and there is room or history; otherwise it sleeps, and on shutdown it ends with everything closed |
| CacheProtocol.AsleepMeansSupplied | photo-provider/cache.c:113-129 | in every run the worker sleeps only while prefetch_depth photos wait, or the ring is full without history |
| CacheProtocol.FetchRound | photo-provider/cache.c:133-173 | a round with a registration and a fetch that succeeds, undisturbed, adds exactly that photo behind the waiting ones, under that registration and with its own descriptor and metadata |
| CacheProtocol.FailedRound | photo-provider/cache.c:141-147 | a fetch that fails, or finds no registration, changes nothing |
| CacheProtocol.StepKeepsHistory | photo-provider/cache.c:113-172 | the history invariant holds across every step, including a retreat during a fetch |
| CacheProtocol.RunKeepsHistory | photo-provider/cache.c:113-172 | in every run the worker is at most prefetch_depth ahead of the furthest delivered photo, and the history_depth photos before that one are never evicted |
| CacheProtocol.PlaceConservesFds | photo-provider/cache.c:154-172 | storing, evicting and refusing neither lose nor duplicate a descriptor |
| CacheProtocol.CommitConservesFds | photo-provider/cache.c:148-173 | nor does the whole locked tail of a worker iteration |
| CacheProtocol.StepConservesFds | photo-provider/cache.c:52-68 | nor any step of either thread |
| CacheProtocol.RunConservesFds | photo-provider/cache.c:148-176 | in every run each fetched descriptor is exactly one of in hand, in one live slot, closed once; at worker exit all are closed |
| CacheProtocol.PopDecides | photo-provider/cache.c:236-258 | pop moves on exactly when a photo waits, delivers it unless dup fails, and otherwise waits until woken or out of time, leaving no trace |
| CacheProtocol.PrevDecides | photo-provider/cache.c:260-279 | pop_prev moves back exactly when history is held, delivers that photo unless dup fails, and otherwise does nothing |
| CacheProtocol.ShutdownEndsWorker | photo-provider/cache.c:210-219 | once shutdown is requested the worker ends at its next check, wherever it was, with every fetched descriptor closed |
| CacheProtocol.StaleCommitIsWrap | photo-provider/cache.c:148 | a commit that admits an outdated photo needs a positive multiple of 2^32 invalidations during the fetch |
| CacheProtocol.CommitKeepsNoStaleIff | photo-provider/cache.c:148-172 | a commit keeps the registration invariant if and only if it is not such a commit |
| CacheProtocol.StepKeepsNoStaleIff | photo-provider/www_session.c:162-169 | any step of either thread keeps it if and only if it is not such a commit, the window between install and invalidate included |
| CacheProtocol.NeverStaleIff | photo-provider/cache.c:133-152 | over every run the invariant always holds if and only if no commit is of that kind |
| CacheProtocol.WithinWordIsNeverStale | photo-provider/cache.c:148 | fewer than 2^32 invalidations during one fetch rule it out |
| CacheProtocol.RunKeepsNoStale | photo-provider/www_session.c:316-324 | in every run within that bound, outside the window, every photo in the ring was fetched under the installed registration |
| CacheProtocol.DeliveryNotStale | photo-provider/cache.c:244-257 | a step delivers nothing or one photo of the installed registration |
| CacheProtocol.EveryDeliveryFresh | photo-provider/cache.c:133-152 | from start-up, after any run without such a commit, whatever pop or pop_prev hands out was fetched under the registration installed at that moment |
| CacheProtocol.EveryDeliveryFreshWithinWord | photo-provider/cache.c:133-152 | in particular after any run with fewer than 2^32 invalidations during each fetch |
| CacheProtocol.ReregisterDuringFetch | photo-provider/cache.c:70-77 | any number of re-registrations during one fetch leave the ring empty and the fetch in hand |
| CacheProtocol.WordWrapAdmitsStalePhoto | photo-provider/cache.c:148 | the bound is tight: a run of 2^32 re-registrations during one fetch puts a photo of the first registration into the ring |
| CacheProtocol.InitSatisfiesInvariants | photo-provider/cache.c:196-198 | all of the invariants hold at start-up |
| CacheProtocol.CommitRefinesZipper | photo-provider/cache.c:154-172 | a commit that changes the ring is one append on the zipper |
| CacheProtocol.StepRefinesZipper | photo-provider/cache.c:123-279 | every step of either thread is one zipper operation or invisible |
| CacheProtocol.WorkerStepKeepsPhotos | photo-provider/cache.c:123-178 | worker steps never move the cursor or change a stored photo |
| CacheProtocol.WalkBack | photo-provider/cache.c:260-279 | pop_prev calls with any worker steps between deliver the preceding photos, nearest first |
| CacheProtocol.WalkForward | photo-provider/cache.c:226-258 | pops over stored photos never block and deliver them in order, whatever the worker does between |
| CacheProtocol.Replay | photo-provider/cache.c:244-279 | k successful pop_prev calls followed by k pops return the same photos in reverse order and end on the photo they started from, with any worker steps in between |
| WwwSession.MemBuf.constructor | photo-provider/www_session.c:105 | the empty buffer |
| WwwSession.MemBuf.Grown | photo-provider/www_session.c:51-53 | the doubling loop reaches the size needed and never more than twice it (or 4096) |
| WwwSession.MemBuf.Realloc | photo-provider/www_session.c:54-58 | keeps the contents |
| WwwSession.MemBuf.CopyIn | photo-provider/www_session.c:60 | writes the chunk behind the contents and leaves them alone |
| WwwSession.MemBuf.Write | photo-provider/www_session.c:47-64 | appends the chunk and the terminator, reallocating exactly when the chunk does not fit; a failed realloc changes nothing and returns 0 |
| WwwSession.TrimIsTheTightPart | photo-provider/www_session.c:111-117 | however a text splits into blanks, a part without outer blanks and blanks, that part is what trimming gives |
| WwwSession.BlanksAre | photo-provider/www_session.c:112-116 | the blanks are tab, line feed, carriage return and space |
| WwwSession.CString | photo-provider/www_session.c:131 | later uses of an id see it up to its first NUL |
| WwwSession.RegisteredId | photo-provider/www_session.c:119-126 | an id is accepted exactly when its trimmed length is 1 to 127 |
| WwwSession.RegisteredIdIs | photo-provider/www_session.c:111-124 | the id is the reply without its outer blanks, when that has 1 to 127 characters and no NUL |
| WwwSession.HttpRegister | photo-provider/www_session.c:102-127 | the two trimming loops and the length check compute RegisteredId |
| WwwSession.Session.constructor | photo-provider/www_session.c:196-208 | cuts the URL at 255 characters, strips one trailing slash and stores the configuration |
| WwwSession.Session.Init | photo-provider/www_session.c:173-218 | fails exactly on an empty URL, a side outside 128 to 3840, a zero timeout, or a failed allocation or curl handle |
| WwwSession.Session.Reregister | photo-provider/www_session.c:150-171 | a failed registration changes nothing; otherwise id, server state and one invalidation, whatever the pushes did |
| WwwSession.Session.SetTargetSize | photo-provider/www_session.c:237-251 | out of range is refused unchanged; an unchanged size returns 0 untouched; otherwise the size is stored before re-registering |
| WwwSession.Session.SetEmbedQr | photo-provider/www_session.c:253-258 | the same for the QR flag |
| WwwSession.SetterStores | photo-provider/www_session.c:237-258 | an accepted size is stored in its order and leaves the flag alone, a flag leaves the size alone, a size out of range changes nothing |
| WwwSession.SetterReturns | photo-provider/www_session.c:237-258 | a setter returns 0 exactly when the size is in range and either nothing was to change or the server answered with a usable id, and -1 otherwise |
| WwwSession.ZeroMeansInSyncIff | photo-provider/www_session.c:237-258 | after a setter returned 0 the server has the stored configuration if and only if it re-registered and both pushes went through, or it did nothing and the server had it |
| WwwSession.CompleteAttemptSyncs | photo-provider/www_session.c:150-171 | one complete re-registration brings server and session together from any state |
| WwwSession.IncompleteAttemptUnsyncs | photo-provider/www_session.c:152-160 | from agreement, an incomplete one leaves them apart |
| WwwSession.AlwaysInSyncIff | photo-provider/www_session.c:237-258 | over every run of setters: server and session agree throughout if and only if every attempted re-registration was complete |
| WwwSession.InSyncAfterRunIff | photo-provider/www_session.c:150-258 | after any run of setters, whatever failed on the way, server and session agree if and only if the last registration that succeeded had both pushes acknowledged and pushed what is stored now |
| WwwSession.InSyncFromStartIff | photo-provider/www_session.c:220-258 | the same from the start on |
| WwwSession.StartSyncsIff | photo-provider/www_session.c:220-224 | the start leaves them in agreement if and only if its registration and both pushes succeeded |
| WwwSession.RetryIsNoOp | photo-provider/www_session.c:246-250 | after a failed re-registration the retry returns 0 over any network and changes nothing, with the server on the old configuration |
| WwwSession.InstallsAreInvalidations | photo-provider/www_session.c:162-169 | over every run the invalidation count stands still if and only if every attempted registration failed, and then id and server state are unchanged |
| SpscQueue.WrapKeepsSlot | occupancy-sensor-ld2410s/ld2410s_uart/transport.c:98 | a wrapped counter selects the same slot as the true count, because 8 divides the word size |
| SpscQueue.WrapMinus | occupancy-sensor-ld2410s/ld2410s_uart/transport.c:96 | wrapped subtraction gives the true number of held commands |
| SpscQueue.CheckRoomExact | occupancy-sensor-ld2410s/ld2410s_uart/transport.c:94-97 | the room test under a stale tail never lets a ninth command in |
| SpscQueue.CheckEmptyExact | occupancy-sensor-ld2410s/ld2410s_uart/transport.c:104-107 | the emptiness test is exact |
| SpscQueue.StepKeepsInv | occupancy-sensor-ld2410s/ld2410s_uart/transport.c:93-111 | every separate load, copy and store keeps the queue invariant |
| SpscQueue.FifoUnderEveryInterleaving | occupancy-sensor-ld2410s/ld2410s_uart/transport.c:93-111 | under every interleaving: what came out is a prefix of what went in, and at most eight are held |
| SpscQueue.NoTornCopy | occupancy-sensor-ld2410s/ld2410s_uart/transport.c:98-108 | the slot being written is never the slot being read |
| SpscQueue.InitSatisfiesInv | occupancy-sensor-ld2410s/ld2410s_uart/transport.c:30-32 | the zeroed queue satisfies the invariant |
| SpscQueue.WordSizes | occupancy-sensor-ld2410s/ld2410s_uart/transport.c:31-32 | a 32-bit and a 64-bit size_t both qualify |
| SpscQueue.Queue.constructor | occupancy-sensor-ld2410s/ld2410s_uart/transport.c:30-32 | the empty queue |
| SpscQueue.Queue.Enqueue | occupancy-sensor-ld2410s/ld2410s_uart/transport.c:93-101 | succeeds exactly below eight held commands and then appends |
| SpscQueue.Queue.Dequeue | occupancy-sensor-ld2410s/ld2410s_uart/transport.c:103-111 | fails exactly when empty and otherwise removes the oldest command |
| Frames.ReadWriteU16 | occupancy-sensor-ld2410s/ld2410s_uart/transport.c:56-61 | the little-endian codec round trips |
| Frames.LittleEndian16 | occupancy-sensor-ld2410s/ld2410s_uart/transport.c:56-61 | the low byte comes first |
| Frames.LastMatch | occupancy-sensor-ld2410s/ld2410s_uart/transport.c:70-80 | the last occurrence of a pattern: it matches, and nothing after it does |
| Frames.Reader.constructor | occupancy-sensor-ld2410s/ld2410s_uart/transport.c:277-278 | the empty buffer |
| Frames.Reader.Memrfind4 | occupancy-sensor-ld2410s/ld2410s_uart/transport.c:70-80 | the backward scan finds the last occurrence |
| Frames.Reader.FrameFrom | occupancy-sensor-ld2410s/ld2410s_uart/transport.c:243-265 | the frame handed on runs from the last header before the terminator to the end |
| Frames.Reader.ParseBuffer | occupancy-sensor-ld2410s/ld2410s_uart/transport.c:232-271 | recognises the frame that ends the buffer and makes its callbacks |
| Frames.Reader.PushByte | occupancy-sensor-ld2410s/ld2410s_uart/transport.c:309-330 | one byte, with the reset after a frame and on overflow |
| Frames.Reader.Receive | occupancy-sensor-ld2410s/ld2410s_uart/transport.c:303-330 | the reader loop over any bytes leaves the buffer and makes the callbacks that feeding them one by one prescribes |
| Frames.FeedAllConcat | occupancy-sensor-ld2410s/ld2410s_uart/transport.c:303-330 | feeding two pieces one after the other is feeding their concatenation |
| Frames.PrefixKind | occupancy-sensor-ld2410s/ld2410s_uart/transport.c:232-271 | exactly when a buffer is recognised |
| Frames.NothingEarly | occupancy-sensor-ld2410s/ld2410s_uart/transport.c:243-268 | no proper prefix of a clean frame is recognised |
| Frames.HeaderIsLast | occupancy-sensor-ld2410s/ld2410s_uart/transport.c:244-252 | the backward scan of a clean frame finds its own header |
| Frames.WholeFrameMeans | occupancy-sensor-ld2410s/ld2410s_uart/transport.c:193-222 | a whole clean frame yields exactly its command, status and data |
| Frames.FeedRest | occupancy-sensor-ld2410s/ld2410s_uart/transport.c:309-330 | feeding the rest of a quiet frame recognises it at its last byte |
| Frames.FrameRoundTrip | occupancy-sensor-ld2410s/ld2410s_uart/transport.c:232-271 | any transmissible frame fed to an empty buffer comes out exactly once and leaves it empty |
| Frames.StreamRoundTrip | occupancy-sensor-ld2410s/ld2410s_uart/transport.c:303-330 | any concatenation of transmissible frames yields exactly those frames in order and an empty buffer |
| Frames.RoundTripIff | occupancy-sensor-ld2410s/ld2410s_uart/transport.c:232-330 | a frame comes through alone if and only if it is a report, or fits 256 bytes and its body holds no terminator, second header or report pattern |
| SensorStream.RoomyReport | occupancy-sensor-ld2410s/ld2410s_uart/transport.c:234-240 | a report arriving while the buffer has room is delivered verbatim after any noise |
| SensorStream.CrowdedReport | occupancy-sensor-ld2410s/ld2410s_uart/transport.c:327-330 | one arriving at a nearly full buffer is lost to the overflow, and only its tail stays |
| SensorStream.FirstReport | occupancy-sensor-ld2410s/ld2410s_uart/transport.c:309-330 | which of the two happens, for every buffer |
| SensorStream.SelfStabilisation | occupancy-sensor-ld2410s/ld2410s_uart/transport.c:309-330 | from any buffer contents, of two consecutive reports without the byte 0x62 inside the second is delivered verbatim and the buffer ends empty; the first is too unless it met the overflow |
| SensorStream.FrameAfterNoise | occupancy-sensor-ld2410s/ld2410s_uart/transport.c:303-330 | from any buffer contents, a response or calibration frame with a clean body that fits behind them is delivered exactly and leaves the buffer empty; one that does not is lost to the overflow and leaves at most three bytes |
| SensorStream.FrameStabilisation | occupancy-sensor-ld2410s/ld2410s_uart/transport.c:303-330 | so of two such frames in a row the second, if it leaves three bytes of room, is delivered exactly from any buffer contents |
| SensorStream.ReportDecodes | occupancy-sensor-ld2410s/ld2410s_uart/ld2410s_uart.c:111-120 | a report frame decodes to its distance and to occupied exactly for states other than 0 and 1 |
| SensorStream.CalibrationDecodes | occupancy-sensor-ld2410s/ld2410s_uart/ld2410s_uart.c:129-143 | a calibration frame of three or more payload bytes decodes to its progress; shorter ones are dropped |
| SensorStream.Decoder.constructor | occupancy-sensor-ld2410s/ld2410s_uart/ld2410s_uart.c:153 | the counter starts at 0 |
| SensorStream.Decoder.OnReportFrame | occupancy-sensor-ld2410s/ld2410s_uart/ld2410s_uart.c:111-127 | the vacancy counter stays the length of the vacant suffix of all reports, modulo the word |
| SensorStream.Decoder.OnCalibrationFrame | occupancy-sensor-ld2410s/ld2410s_uart/ld2410s_uart.c:129-143 | passes on the progress of long enough frames only |
| SensorStream.Decoder.DeliverOne | occupancy-sensor-ld2410s/ld2410s_uart/transport.c:183-222 | each callback reaches its decoder, and responses leave the decoders alone |
| SensorStream.Decoder.Deliver | occupancy-sensor-ld2410s/ld2410s_uart/transport.c:183-222 | a run of callbacks leaves exactly what decoding each of them in order gives |
| SensorStream.Decoder.StartCalibration | occupancy-sensor-ld2410s/ld2410s.c:186-193 | refuses unless the counter is at least 30; otherwise sends the three parameters |
| SensorStream.VacantSuffix | occupancy-sensor-ld2410s/ld2410s_uart/ld2410s_uart.c:121-126 | the number of latest reports in a row that were vacant |
| SensorStream.MeaningsDecode | occupancy-sensor-ld2410s/ld2410s_uart/ld2410s_uart.c:111-143 | decoding the meanings of any frames gives the reports and the progress they carry |
| SensorStream.StreamReports | occupancy-sensor-ld2410s/ld2410s_uart/ld2410s_uart.c:111-143 | the callbacks of any stream of transmissible frames decode to exactly the reports and the calibration progress sent |
| SensorStream.ReceiveStream | occupancy-sensor-ld2410s/ld2410s_uart/ld2410s_uart.c:111-143 | end to end from the bytes: reader loop and decoders end with the reports and the progress sent, and with the vacancy counter at the length of the vacant suffix of the reports, modulo the word |
| SensorStream.GateNeedsEmptyRoom | occupancy-sensor-ld2410s/ld2410s.c:186-190 | the gate never opens unless the last thirty reports were all vacant, even after the counter wraps, and opens whenever they were until it does |
| SensorStream.SendCmd | occupancy-sensor-ld2410s/ld2410s_uart/transport.c:149-179 | the frame filled by position is header, length, word, data, footer; nothing is written for more than 126 data bytes |
| SensorStream.Fill | occupancy-sensor-ld2410s/ld2410s_uart/transport.c:159-171 | one copy at the write position |
| SensorStream.CommandIsResponseShaped | occupancy-sensor-ld2410s/ld2410s_uart/transport.c:150-171 | a command frame is a response frame whose status is its first two data bytes |
| SensorParams.ReadWriteU32 | occupancy-sensor-ld2410s/ld2410s_uart/ld2410s_uart.c:93-107 | the 32-bit little-endian codec round trips |
| SensorParams.LittleEndian32 | occupancy-sensor-ld2410s/ld2410s_uart/ld2410s_uart.c:93-107 | the low byte comes first |
| SensorParams.Words32At | occupancy-sensor-ld2410s/ld2410s_uart/ld2410s_uart.c:233-238 | the k-th word of an encoded list reads back |
| SensorParams.SetParam | occupancy-sensor-ld2410s/ld2410s_uart/ld2410s_uart.c:309-323 | an unknown name is refused; otherwise the write command of the first table row with that name, its word and the value |
| SensorParams.AskedWords | occupancy-sensor-ld2410s/ld2410s_uart/ld2410s_uart.c:219-221 | a read payload, read word by word, is the word list it was made of |
| SensorParams.ReadPayload | occupancy-sensor-ld2410s/ld2410s_uart/ld2410s_uart.c:219-221 | the payload loop lists the requested words so that they read back |
| SensorParams.BuildCommonRequest | occupancy-sensor-ld2410s/ld2410s_uart/ld2410s_uart.c:219-225 | the read command of the common parameters with their words |
| SensorParams.BuildGateRequest | occupancy-sensor-ld2410s/ld2410s_uart/ld2410s_uart.c:246-252 | a read command of sixteen gate words, 0 to 15 |
| SensorParams.DecodeGates | occupancy-sensor-ld2410s/ld2410s_uart/ld2410s_uart.c:242-265 | fails exactly on a short or missing reply; otherwise the eight trigger and eight hold values |
| SensorParams.ReadingAt | occupancy-sensor-ld2410s/ld2410s_uart/ld2410s_uart.c:215-290 | each value the three getters return, from the reply to the payload they send, is the one the sensor stores under that family and word |
| SensorParams.TableMatchesGetters | occupancy-sensor-ld2410s/ld2410s_uart/ld2410s_uart.c:31-75 | each name of the table writes the place the getters read it from |
| SensorParams.PlacesDistinct | occupancy-sensor-ld2410s/ld2410s_uart/ld2410s_uart.c:31-71 | no two names share a place |
| SensorParams.SetThenGet | occupancy-sensor-ld2410s/ld2410s_uart/ld2410s_uart.c:309-323 | setting one parameter by name changes exactly that parameter in what the three getters then return, requests and replies encoded and decoded |
| SensorParams.NamesAreFields | occupancy-sensor-ld2410s/ld2410s_uart/ld2410s_uart.c:31-71 | each name of the table stands for the getter field of that name, gate by gate |
| SensorParams.SetByName | occupancy-sensor-ld2410s/ld2410s_uart/ld2410s_uart.c:309-323 | setting a parameter by name gives the getter field of that name the value set |
| ResponseSlot.Slot.constructor | occupancy-sensor-ld2410s/ld2410s_uart/session.c:26-31 | the empty slot |
| ResponseSlot.Slot.OnCmdResponse | occupancy-sensor-ld2410s/ld2410s_uart/session.c:36-54 | the newest response replaces an unconsumed one, with its data cut at 128 bytes |
| ResponseSlot.Slot.Clear | occupancy-sensor-ld2410s/ld2410s_uart/session.c:66-68 | empties the slot |
| ResponseSlot.Slot.Consume | occupancy-sensor-ld2410s/ld2410s_uart/session.c:92-109 | with nothing pending nothing changes; otherwise the slot is emptied, the data copied up to the caller's capacity, the full length reported, and the status alone decides the result |
| ResponseSlot.GotFrom | occupancy-sensor-ld2410s/ld2410s_uart/session.c:92-107 | for every buffer size: the first bytes of the data, as many as buffer and slot hold, the length kept, the status as 0 or -1, and whether the word was the expected one |
| ResponseSlot.WaitGetsTheLast | occupancy-sensor-ld2410s/ld2410s_uart/session.c:66-109 | after a reset the wait gets the last response to arrive, whatever the slot held before, with the data exact up to 128 bytes; with none it goes on |
| Wire.Step | occupancy-sensor-ld2410s/ld2410s_uart/session.c:62-171 | one step of a caller, of the reader or of the sensor; steps keep the queue within eight and the slot consistent |
| WireQueue.InitRepresents | occupancy-sensor-ld2410s/ld2410s_uart/transport.c:30-32 | the empty queue represents the start of the protocol |
| WireQueue.RefusalIsFull | occupancy-sensor-ld2410s/ld2410s_uart/transport.c:94-97 | spsc_enqueue refuses exactly when the protocol finds the queue full, and then both drop the command |
| WireQueue.PublishIsPut | occupancy-sensor-ld2410s/ld2410s_uart/transport.c:98-100 | publishing a copied command is the protocol's one put, for which there is still room |
| WireQueue.RemovalIsSend | occupancy-sensor-ld2410s/ld2410s_uart/transport.c:108-110 | the command copied out is the one the protocol sends next, and removing it is the protocol's one send |
| WireQueue.EmptyIsNothingToSend | occupancy-sensor-ld2410s/ld2410s_uart/transport.c:104-107 | spsc_dequeue finds nothing exactly when the protocol has nothing to send |
| WireQueue.OtherQueueSteps | occupancy-sensor-ld2410s/ld2410s_uart/transport.c:93-111 | every other load, copy and store of the queue is invisible to the protocol |
| WireQueue.OtherWireSteps | occupancy-sensor-ld2410s/ld2410s_uart/session.c:62-110 | and every other step of the protocol to the queue |
| Wire.StepKeepsOrder | occupancy-sensor-ld2410s/ld2410s_uart/session.c:149-171 | every step keeps the order invariant |
| Wire.FilterBracketed | occupancy-sensor-ld2410s/ld2410s_uart/transport.c:154-157 | commands that send_cmd refuses to write do not break the bracketing of the rest |
| Wire.WireIsBracketed | occupancy-sensor-ld2410s/ld2410s_uart/session.c:149-171 | in every run with any number of callers: frames leave in queue order, each at most once, no call is interrupted by another, and every parameter command directly follows its own ENABLE_CONFIG |
| Wire.LogGrows | occupancy-sensor-ld2410s/ld2410s_uart/transport.c:285-301 | what one step can add to the send log |
| Wire.StepKeepsSpacing | occupancy-sensor-ld2410s/ld2410s_uart/transport.c:285-319 | every step keeps the spacing invariant |
| Wire.SendsAreSpaced | occupancy-sensor-ld2410s/ld2410s_uart/transport.c:285-319 | in every run any two sends are separated by a response terminator or the full two seconds |
| Wire.RunKeepsDeadline | occupancy-sensor-ld2410s/ld2410s_uart/transport.c:297-299 | in every run the two seconds of an outstanding command count from its sending |
| Wire.NextGoesOutWhenFree | occupancy-sensor-ld2410s/ld2410s_uart/transport.c:285-301 | in every run with a command queued, the next pass sends exactly the next one if nothing was sent, the last one was answered or two seconds have passed, and nothing otherwise |
| Wire.StepKeepsAccept | occupancy-sensor-ld2410s/ld2410s_uart/session.c:62-110 | every step keeps the acceptance invariant |
| Wire.SuccessWasAnswered | occupancy-sensor-ld2410s/ld2410s_uart/session.c:66-107 | in every run an accepted response arrived after its wait reset the slot, and a successful call accepted a status-0 response while waiting on its parameter command |
| Wire.StepKeepsEnabled | occupancy-sensor-ld2410s/ld2410s_uart/session.c:153-162 | every step keeps the enabling invariant |
| Wire.ParamsAreEnabled | occupancy-sensor-ld2410s/ld2410s_uart/session.c:156-162 | in every run a parameter command is queued only after its own ENABLE_CONFIG wait accepted a response of status 0 |
| Wire.UndisturbedRound | occupancy-sensor-ld2410s/ld2410s_uart/session.c:62-110 | with the line free, a command goes out and the status of its answer alone decides how the call goes on |
| Wire.UndisturbedCall | occupancy-sensor-ld2410s/ld2410s_uart/session.c:149-171 | with the line to itself a call writes ENABLE_CONFIG, its command and END_CONFIG and succeeds exactly when the command was answered with status 0; without a good answer to ENABLE_CONFIG the command is left out and the call fails |
| Answers.AtPlaceIff | occupancy-sensor-ld2410s/ld2410s_uart/transport.c:292-301 | a written command is the n-th one queued if and only if it is at the place the writable ones before it leave |
| Answers.StepKeepsSensor | occupancy-sensor-ld2410s/ld2410s_uart/session.c:62-110 | every step with an honest sensor keeps the record of what was asked, answered and accepted |
| Answers.HonestRunKeepsSensor | occupancy-sensor-ld2410s/ld2410s_uart/session.c:62-110 | so does every run, with any number of timeouts and missing answers |
| Answers.OwnAnswerIff | occupancy-sensor-ld2410s/ld2410s_uart/session.c:85-99 | in every such run from start-up, each accepted response is the awaited one if and only if it answers the command at the awaited place; without missing answers, if and only if exactly the earlier written commands had been answered before; always when the sensor had nothing left to answer at the reset, whatever timed out before, and for a wait that takes the first response to arrive only then |
| Answers.PendingIsOwnIff | occupancy-sensor-ld2410s/ld2410s_uart/session.c:85-99 | before the wait looks: the response in the slot is the awaited one if and only if the sensor has answered up to the last command queued |
| Answers.CaughtUpOwns | occupancy-sensor-ld2410s/ld2410s_uart/session.c:66-99 | a wait that resets the slot with nothing left to answer takes its own answer |
| Answers.StepKeepsInStep | occupancy-sensor-ld2410s/ld2410s_uart/session.c:62-110 | every step without a timeout keeps waits and answers in step |
| Answers.TimelyAnswersMatch | occupancy-sensor-ld2410s/ld2410s_uart/session.c:85-99 | from start-up or any later moment with nothing left to answer, as long as no further wait times out every response accepted is the awaited one |
| Answers.InitialSatisfiesSensor | occupancy-sensor-ld2410s/ld2410s_uart/session.c:114-133 | the start-up state is such a moment |
| Answers.SuccessBeforeSending | occupancy-sensor-ld2410s/ld2410s_uart/session.c:93-99 | an honest run in which, after one timeout, a call reports success before its parameter command is written |
| Wire.InitialSatisfiesInvariants | occupancy-sensor-ld2410s/ld2410s_uart/session.c:114-133 | all of the invariants hold at start-up |
| Debounce.PollerThread | occupancy-sensor-ld2410s/ld2410s.c:43-99 | the loop emits exactly Events over the samples it reads |
| Debounce.CommittedUnique | occupancy-sensor-ld2410s/ld2410s.c:71-86 | the specification leaves no choice of state |
| Debounce.MachineMeetsSpec | occupancy-sensor-ld2410s/ld2410s.c:52-97 | for every sample sequence and thresholds, the committed state at each tick is the value of the latest run of at least threshold equal samples, or the first emitted sample |
| Debounce.EventsMeetSpec | occupancy-sensor-ld2410s/ld2410s.c:61-93 | every event agrees with the committed state at its tick, no two consecutive events are equal, the first comes at the start-up delay, and the last is always up to date |
| Debounce.DisagreeingEmitsIff | occupancy-sensor-ld2410s/ld2410s.c:71-86 | a disagreeing sample is emitted exactly at the end of a run as long as its threshold |
| Debounce.OccupiedEventIff | occupancy-sensor-ld2410s/ld2410s.c:78-86 | after a vacant event the occupied event comes exactly at the end of hysteresis_occupied (at least one) occupied samples in a row since the first emission, and no earlier |
| Debounce.VacantEventIff | occupancy-sensor-ld2410s/ld2410s.c:78-86 | the mirror image with hysteresis_vacant |
| Debounce.WrapNeverShows | occupancy-sensor-ld2410s/ld2410s.c:49-50 | the wrap of the 32-bit counters never changes an event |
| Slideshow.InitialSatisfiesInv | ambience/slideshow.c:290-296 | the accounting holds at start-up |
| Slideshow.StepKeepsInv | ambience/slideshow.c:176-220 | every step keeps the press accounting |
| Slideshow.NoLostPress | ambience/slideshow.c:192-218 | in every interleaving, consumed plus still counted presses equal presses made, and the worker never sleeps on a completed press |
| Slideshow.NoPressLostFromStart | ambience/slideshow.c:192-218 | the same for every run from start-up |
| Slideshow.RoundTakesAllPresses | ambience/slideshow.c:198-201 | in every run the exchange takes the sum of all presses made since the last one, so the round goes backward exactly when prevs prevail |
| Slideshow.RoundKeepsPosts | ambience/slideshow.c:198-218 | between the drain and the wait no post is lost, made or taken except for presses already added |
| Slideshow.ActsTwiceIff | ambience/slideshow.c:195-201 | in every interleaving without a further press or stop, presses already consumed cut the coming wait short a second time if and only if a post was left, or still due, after the drain |
| Slideshow.PressMayWakeTwice | ambience/slideshow.c:195-200 | an instance: a press between the drain and the exchange of a worker just started |
| Slideshow.RunBounds | ambience/slideshow.c:176-220 | over any run, waits cut short are bounded by posts held and made, and rounds that find presses by presses made |
| Slideshow.NoPressActsThrice | ambience/slideshow.c:176-220 | from start-up, over any run: rounds that find presses are no more than the presses, and waits cut short no more than presses and stops |
| Slideshow.DoomedForever | ambience/slideshow.c:198-199 | once the stop post has been or will be drained, no step of any thread lets stop return |
| Slideshow.StopReturnsIff | ambience/slideshow.c:363-371 | slideshow_stop returns if and only if the worker is not in its drain loop when the post is made |
| Slideshow.StopCanHang | ambience/slideshow.c:363-371 | a stop right after a start can hang |
| Slideshow.Slideshow.constructor | ambience/slideshow.c:290-296 | the stopped slideshow |
| Slideshow.Slideshow.StartWorker | ambience/slideshow.c:352-361 | starts at most one worker and falls back to stopped when none can be created |
| Slideshow.Slideshow.Skip | ambience/slideshow.c:381-395 | counts and posts, or does nothing when stopped |
| Slideshow.Slideshow.RequestStop | ambience/slideshow.c:367-369 | raises the flag, then posts, then joins |
| Slideshow.Slideshow.FinishStop | ambience/slideshow.c:370-376 | leaves no post and no press behind |
| Slideshow.Slideshow.BeginRound | ambience/slideshow.c:198-201 | the drain loop and the exchange are that many steps of the protocol; backward exactly on a negative sum |
| Slideshow.Slideshow.WaitOrStop | ambience/slideshow.c:176-190 | true exactly when woken with stop requested; a timeout never looks at the flag |
| DisplayLatch.Display.constructor | ambience/display.c:110-120 | the zeroed controller |
| DisplayLatch.Display.UpdateDisplayState | ambience/display.c:43-71 | calls the display only when wish and request differ; a failed call makes the request unknown |
| DisplayLatch.Display.OnOccupancyStateChanged | ambience/display.c:73-97 | a suppressed report changes nothing; a vacant one clears the latch |
| DisplayLatch.Display.OnOccupancyNameOwnerChanged | ambience/display.c:99-108 | losing the service counts as vacancy |
| DisplayLatch.Display.DisplayForceOn | ambience/display.c:142-148 | clears the latch and wishes the display on |
| DisplayLatch.Display.DisplayForceOff | ambience/display.c:150-156 | sets the latch and wishes it off |
| DisplayLatch.LatchedIffForcedOff | ambience/display.c:86-91 | for every event sequence and pattern of failing calls the latch is set if and only if the latest deciding event was a force-off |
| DisplayLatch.HandleKeepsSafe | ambience/display.c:43-108 | every event keeps the safety invariant |
| DisplayLatch.RunIsSafe | ambience/display.c:43-71 | in every run no call turns the display on while latched, and requested 1 or 0 means the slideshow is running or stopped |
| DisplayLatch.QuietWhileLatched | ambience/display.c:86-89 | while latched, events that do not decide the latch change nothing at all |
| DisplayLatch.RetryAfterFailure | ambience/display.c:58-66 | after a failed call the next event let through makes exactly one call, and its success brings display, slideshow and wish together |
| DisplayLatch.WishedOnIff | ambience/display.c:86-95 | over every event list the display is wished on exactly when the latest event not suppressed by the latch was a force-on or an occupied report |
| DisplayLatch.WordIsCarriedOut | ambience/display.c:43-71 | such an event makes exactly the call it asks for, unless just that is requested already; on success the request is recorded and the slideshow runs exactly when the display is on, on failure the request is unknown |
| DisplayLatch.SilenceChangesNothing | ambience/display.c:86-101 | the other events change nothing |
| WordWrap.SpacesAre | lib/eink/cairo_helpers.c:58 | white space is the blank and the characters 9 to 13 |
| WordWrap.ScanWord | lib/eink/cairo_helpers.c:58-60 | stops at the next white space or the terminator |
| WordWrap.RenderText | lib/eink/cairo_helpers.c:48-92 | for every text and width oracle: lines are chained, each is greedy or a single piece too long, and the scan passes the terminator exactly after a too long last line |
| WordWrap.WrapsDetermines | lib/eink/cairo_helpers.c:57-89 | for every text and oracle that leaves one result: the lines and the overrun are determined |
| WordWrap.RejoinsToText | lib/eink/cairo_helpers.c:62-88 | lines with their separators are a prefix of the text, and all of it if and only if it is empty or does not end in white space |
| WordWrap.LinesOfNormalisedText | lib/eink/cairo_helpers.c:71-83 | in a text with single inner blanks each line fits and could not take one more word, or is one word too wide to fit |
| WordWrap.WrapOfFittingWords | lib/eink/cairo_helpers.c:48-92 | if every word of such a text fits alone: no overrun, every line fits and is as full as it can be, nothing is lost |
| WordWrap.LastLine | lib/eink/cairo_helpers.c:62-88 | for every text that ends in a word and every oracle: the overrun happens if and only if the last line is too wide, and then that line is the word or the word and one white-space character before it |
| WordWrap.OverrunIff | lib/eink/cairo_helpers.c:71-88 | in terms of the result: if and only if the last word is too wide alone, or with the white space the last line starts with |
| WordWrap.OverrunBounds | lib/eink/cairo_helpers.c:71-88 | what the last word and the characters before it say by themselves: too wide alone always overruns; otherwise two white-space characters, or one at the very start, must come before it |
| WordWrap.OverrunIffPending | lib/eink/cairo_helpers.c:57-89 | exactly, for every text that ends in a word and in terms known before the call: if and only if the word is too wide alone, or the text before it, rendered by itself, leaves over just the one white-space character before the word and the word is too wide with it |
| WordWrap.TrailingSpaceNeverOverruns | lib/eink/cairo_helpers.c:57-70 | a text that ends in white space never overruns |
| WordWrap.FittingWordOverruns | lib/eink/cairo_helpers.c:73-87 | a leading blank and a word that fits alone do overrun |
| WordWrap.OverrunIffLastWordTooWide | lib/eink/cairo_helpers.c:71-88 | in a text with single inner blanks, the scan reads past the terminator if and only if the last word is too wide on its own |
| ImgRender.RotateCoordsBijective | lib/jpeg_render/img_render.c:6-30 | a bijection from the rotated canvas to the image, undone on both sides by the inverse rotation |
| ImgRender.CanvasIsTurned | lib/jpeg_render/img_render.c:12-29 | the canvas is the image turned clockwise by 0, 1, 2 or 3 quarters |
| ImgRender.PixelInBounds | lib/jpeg_render/img_render.c:45 | the three bytes of any pixel on the image are inside the buffer |
| ImgRender.ColourRoundTrip | lib/jpeg_render/img_render.c:46 | packing a colour loses nothing |
| ImgRender.PixelBytes | lib/jpeg_render/img_render.c:45-46 | a pixel is its three bytes in memory order, red in the high byte of the colour and blue in the low one |
| ImgRender.NearestShowsCell | lib/jpeg_render/img_render.c:34-46 | the nearest sampler shows the pixel whose cell the point is in |
| ImgRender.Lerp | lib/jpeg_render/img_render.c:49 | the weighted point between the arguments, truncated |
| ImgRender.Lerp2 | lib/jpeg_render/img_render.c:75-77 | the sum of the four arguments with the products of the weights, truncated at most twice |
| ImgRender.BilinearWeighs | lib/jpeg_render/img_render.c:51-80 | each channel is, up to that truncation, the weighted sum of the four canvas pixels around the point |
| ImgRender.BilinearBetweenSamples | lib/jpeg_render/img_render.c:51-80 | every channel lies between the least and the greatest of the four samples |
| ImgRender.FitsAndFills | lib/jpeg_render/img_render.c:88-96 | the scaled image fits and fills at least one axis, so the centring offsets do not underflow |
| ImgRender.SamplesOnCanvas | lib/jpeg_render/img_render.c:104-112 | every sample of either kind is on the rotated canvas, the unclamped bilinear corner included |
| ImgRender.SampleShows | lib/jpeg_render/img_render.c:106-112 | pixel (x, y) of the scaled image shows the canvas point that scaling takes there, with either sampler |
| ImgRender.BoxOf | lib/jpeg_render/img_render.c:93-96 | the box lies inside the framebuffer and is centred |
| ImgRender.TargetByRegion | lib/jpeg_render/img_render.c:98-114 | black outside the box, the scaled image inside |
| ImgRender.ClearRows | lib/jpeg_render/img_render.c:98-102 | blackens the visible part of every row and no padding |
| ImgRender.Draw | lib/jpeg_render/img_render.c:104-114 | writes exactly the box |
| ImgRender.Render | lib/jpeg_render/img_render.c:82-115 | every visible pixel becomes its target and the row padding is untouched |
| ImgRender.UnitScaleCopies | lib/jpeg_render/img_render.c:104-112 | at scale one both samplers copy the rotated image pixel for pixel |
| ImgRender.ExactFit | lib/jpeg_render/img_render.c:88-96 | a framebuffer of the canvas size is at scale one and has no bars |
| ImgRender.RotationRoundTrip | lib/jpeg_render/img_render.c:82-115 | rendering under a rotation and again under its inverse, into any framebuffers at scale one, bars or not, restores the image, with either sampler each time |
| EinkSurface.LayoutsAre | lib/eink/eink.c:330-341 | pixel (x, y) is digit x mod 8, from the units, of its byte in row y; device bit d is digit d mod 8, from the top, of its byte in column x |
| EinkSurface.ByteHeight | lib/eink/eink.c:227 | the least number of bytes that holds a column |
| EinkSurface.WriteBit | lib/eink/eink.c:336-344 | sets or clears one bit and no other |
| EinkSurface.WriteOneBit | lib/eink/eink.c:334-344 | as seen through column and bit numbers: exactly one device bit changes |
| EinkSurface.CopyPixel | lib/eink/eink.c:330-344 | copying one pixel extends the copied part by exactly that pixel |
| EinkSurface.RenderRow | lib/eink/eink.c:329-345 | the inner loop copies one pixel row |
| EinkSurface.Clear | lib/eink/eink.c:326 | the buffer is zeroed |
| EinkSurface.RenderBuffer | lib/eink/eink.c:322-346 | for every surface: bit d of column x is set if and only if pixel (x, height - 1 - d) equals invert_color, and padding bits are clear |
| EinkSurface.NothingLost | lib/eink/eink.c:322-346 | the buffer determines every pixel of the surface |
| EinkSurface.TransmitColumns | lib/eink/eink.c:184-188 | the bytes are sent in memory order, each once |
| EinkSurface.LargestFont | lib/eink/eink.c:435-452 | the bisection ends within one of a size that does not fit (or the height), at a size that fits (or 1) |

## Left out

- Weak memory ordering: steps are sequentially consistent. The queue's acquire and release pairs justify this for `SpscQueue`; the plain `stop_requested` flag of the slideshow is covered by its semaphore.
- Liveness beyond the absence of mutual waits, and the accuracy of clocks: time in `Wire` is any monotone clock, and timeouts elsewhere may fire at any moment.
- Floating-point rounding: `ImgRender` and the font bisection use exact reals.
- Overflow of 32-bit pixel indices, of `skip_count`, of the ring's 64-bit positions and of `size_t` sizes in the response buffer; the capacity sum of the ring is assumed not to overflow.
- D-Bus, curl, JPEG decoding, cairo drawing, DRM, GPIO, SPI and termios: their outcomes are parameters. Serial writes are assumed to succeed.
- PhotoRing.PhotoCache.TryPop: models one evaluation of the wait condition and what follows; the waiting itself, with its timeout, is in CacheProtocol.
- The descriptors that pop and pop_prev duplicate belong to the caller and are not tracked; `dump_to_disk` is left out.
- Joining the cache worker takes effect in CacheProtocol as the worker's exit step; memory release is not modelled.
- Slideshow.Slideshow.WaitOrStop: runs in one piece, so a post that arrives while it waits is covered by the state machine only.
- Slideshow.StopReturnsIff: assumes that the worker's own steps keep being taken (fetches end and timed waits return), which the model expresses by iterating worker steps.
- Wire.SuccessWasAnswered: does not say that the accepted response answers the parameter command, because the code does not ensure it; see Answers.OwnAnswerIff.
- SensorParams.SetThenGet: the sensor is assumed to store what it acknowledges and to answer in the requested order; serial number and firmware commands are left out.
- SensorStream.Decoder.StartCalibration: models a sensor with a UART; without one the program reports success and does nothing.
- DisplayLatch.RunIsSafe: assumes that starting the slideshow creates its worker and that stopping it returns; Slideshow.StopReturnsIff says when it does.
- WordWrap.OverrunIffPending: is for widths that do not grow when the front of a line is dropped, which a font with extreme kerning could violate; WordWrap.LastLine needs no such assumption.
- WwwSession.ZeroMeansInSyncIff: refers, for a call that changes nothing, to the agreement before the call; WwwSession.InSyncAfterRunIff traces that back to the last registration.
- Answers.OwnAnswerIff: assumes a sensor that answers commands in the order they were written, each at most once; it may leave answers out and be arbitrarily late.
- EinkSurface.TransmitColumns: is one of the identical RAM writes; commands, resets and waits of the panel are left out.
- EinkSurface.LargestFont: takes "fits" as an arbitrary predicate of the font size, so it finds a boundary, which need not be the largest fitting size.
- JSON configuration and the main loops, `display-mgr`, the DRM library and the MQTT bridge would add easy members only.
