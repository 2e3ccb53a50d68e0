# Shroomio: protocols, pacing, sessions and stores

A Dafny model of the stateful core of a multiplayer game's client and server, and proofs about
every run of it. Most modules follow one source file:

- **Voice.** `SpscRing` is the lock-free ring between two threads, as interleaved atomic steps with
  stale loaded indices and 32-bit wrap-around; `SpscHistory` shows why the rest may take it for one
  queue, and `SpscProgress` that neither thread waits for the other. `AudioCallback` cuts device
  buffers of any size into 960-sample frames and back. `VoiceWorker` numbers and brackets outgoing
  streams through a one-slot overflow, and `VoiceWire` says what of them reaches the wire. `Jitter`
  reorders and plays incoming frames under 16-bit serial numbers (section 3.2 of RFC 1982),
  `JitterHistory` tells its answers by the history of the stream, and `VoicePath` joins the two ends.
- **Lists in chunks.** `Directory` is the registry of servers and its cutting into packets,
  `DirectoryBook` the registry without slots, and `EndpointIds` is about their ids. `Discovery` is the
  client that puts the packets together, `DiscoveryIntake` says what it takes from any packets, and
  `DiscoveryProbes` what it finds out about each server. `Roster` is the list of a lobby's players,
  and `RosterIntake` what becomes of any packets there. `Bitmask` holds the facts about chunk masks.
- **Rate and pacing.** `Scheduler` paces the client's inputs; `Admission` and `AdmissionOrder` are
  the server's token bucket and its test of sequence numbers. `RateLimit` is the sliding-window
  limiter of the REST interface, `RateAnswers` gives its answers in figures, and `RateMemory` and
  `RateCrowd` say what its 128 entries remember of any number of keys.
- **Time and sessions.** `Calendar` is the closed-form day count and the timestamp text of
  section 5.6 of RFC 3339, and `TimestampGrammar` all that its reader takes. `TokenFamilies` is the
  rotation of refresh tokens (section 4.14.2 of RFC 9700) on a token table with rollback,
  `TokenLedger` the same without a table, `TokenCodec` their base64url form (section 5 of RFC 4648).
- **Choosing.** `Selector`, `SelectorFigures` and `SelectorWeights` pick a server, `QuickMatch` and
  `QuickMatchCourse` retry down the list, `Spectator` cycles a camera through the living players.
- **Stores.** `ChatText`, `ChatRecord`, `RecordGrammar`, `ChatCache`, `ChatHistory`, `ChatIntake`,
  `ChatReader` and `ChatLimit` are the chat history file: cleaning, one line and what is taken for
  one, the file, round trips, files of any content, what readers see, and the size limit.
  `MatchPersistence` is the saving of finished rounds, with totals that must agree with detail rows,
  and `MatchLog` what whole runs leave there.

State that the source changes in place is a class whose methods are proved against a function or
relation on values; what holds over whole runs is proved about those. Helper modules are `Serial`
(modular numbers), `Sequences`, `Decimal` and `Numerals`.

Where the code does not do what one would expect of it, the exact condition is proved:

- a failed voice encode uses up its number, so that it leaves a gap in its stream, or the stream
  without its START or END (`VoiceWire.ClosedStreamArrivesExactlyWhen`,
  `VoiceWire.OpenStreamArrivesExactlyWhen`, `VoiceWire.WireCarriesStreamsExactlyWhen`);
- before playout begins, a packet from before START is taken for one far ahead
  (`Jitter.EarlierPacketIsTakenExactlyWhen`, `Jitter.EarlierPacketAfterStart`);
- the timestamp reader accepts days that do not exist, leap seconds and unpadded fields
  (`Calendar.FormattingInvertsParsing`), and text order stops being time order after the year 9999
  (`Calendar.TextOrderIsTimeOrderExactlyUntil`);
- the stored player count of a session is the one given at its beginning, which is 0 for every
  round of the server itself (`MatchPersistence.PlayerCountAgreesExactlyWhen`,
  `MatchPersistence.RoundBegunEmptyStoresAWrongCount`);
- the limiter can forget a pair of key and route when 128 others ask within a minute, and only then
  (`RateMemory.AnswerIsNaiveUnlessCrowded`, `RateCrowd.CrowdOf128IsEnough`);
- the next message stored wipes out the chat history after one failed read, after the clock was set
  back by more than 300 s, and whenever the file is refused for another reason
  (`ChatHistory.RefusedFileIsForgotten`, `ChatHistory.HistoryIsLostExactlyWhen`);
- the limits of the chat cache on contexts and messages allow more than its limit on the file, and
  then the whole history is refused (`ChatHistory.LoadingInvertsSaving`,
  `ChatLimit.RunReachesARefusedFile`, `ChatLimit.RunLosesItsHistory`).

The limiter cuts keys to 63 characters and would never limit a longer one
(`RateLimit.RememberedExactlyWhenItFits`), but its only caller builds its keys in a buffer of that
size (src/server/rest_account.c:141-155), so no such key reaches it.

## Model

| member | source | states |
|---|---|---|
| SpscRing.SlotsStayApartExactlyWhenCapacityDivides | src/client/voice.c:213-223 | Counts less than a capacity apart always use different slots, through every wrap of the 32-bit indices, if and only if the capacity divides 2^32. |
| SpscRing.StepKeepsInv | src/client/voice.c:213-286 | One atomic step of either thread, with whatever index it loaded earlier, keeps the ring's invariant. |
| SpscRing.RunKeepsInv | src/client/voice.c:213-286 | So does every interleaving of steps. |
| SpscRing.EveryInterleavingIsFifo | src/client/voice.c:213-286 | For every interleaving, the consumer receives exactly the granted offers, whole and in order. |
| SpscRing.ThreadsNeverShareASlot | src/client/voice.c:213-286 | The producer never writes the slot the consumer is reading, so no item is torn or overwritten unread. |
| SpscRing.AnswersAreHonestAtTheLoad | src/client/voice.c:213-286 | A push is refused, and a pop comes back empty, exactly when the ring was full, or empty, when the other index was loaded. |
| SpscRing.Queue.Push | src/client/voice.c:213-223 | Taken alone, a push appends exactly when there is room and changes nothing otherwise. |
| SpscRing.Queue.Pop | src/client/voice.c:225-235 | Taken alone, a pop removes the oldest item exactly when there is one. |
| SpscProgress.EveryOfferIsAnswered | src/client/voice.c:213-223 | In every interleaving a push is answered after at most four steps of its own, even if the other thread stands still. |
| SpscProgress.PushWithRoomIsGranted | src/client/voice.c:213-223 | A push that finds room is granted within them. |
| SpscProgress.PopOfAnItemDelivers | src/client/voice.c:225-235 | A pop that finds an item has delivered the oldest one after five steps of its own. |
| SpscHistory.EveryInterleavingIsAQueueHistory | src/client/voice.c:213-286 | Every interleaving is a history of whole pushes and pops on one queue of that capacity, each taking effect at one of its own steps (a store, or the load that decides a refusal), with the same contents, answers and deliveries. |
| SpscHistory.Replay | src/client/voice.c:213-235 | Made one after another on the sequential queue, the operations of such a history get the answers and items they got in the run. |
| AudioCallback.FramesAreTheInputBlocks | src/client/voice.c:288-352 | However the callbacks were sized, the frames offered to the worker are the consecutive 960-sample blocks of everything heard, and the partial buffer is the remainder. |
| AudioCallback.OfferedFrame | src/client/voice.c:288-352 | Offered frames and their answers grow together: captured plus overflowed frames are all whole frames, and the queue got the accepted ones. |
| AudioCallback.PlayedPiece | src/client/voice.c:288-352 | What was played followed by what remains is the popped frames in order, whatever piece is copied next. |
| AudioCallback.Callback.CaptureCutsTheInput | src/client/voice.c:288-352 | Between callbacks, captured plus overflowed frames are the whole frames in everything heard, the worker got or will get the 960-sample blocks the queue accepted, and the partial buffer is the tail. |
| AudioCallback.Callback.OfferFrame | src/client/voice.c:288-352 | A full partial buffer is offered once, whole, and emptied; it is lost exactly when the queue is full. |
| AudioCallback.Callback.Buffer | src/client/voice.c:288-352 | Samples are appended to the partial buffer without loss. |
| AudioCallback.Callback.Capture | src/client/voice.c:288-352 | A callback of any size adds its whole input to what was heard and keeps the capture law, its loop ends, and it loses a frame only if its frames and those queued before exceed the queue. |
| AudioCallback.Callback.Continue | src/client/voice.c:288-352 | The output is filled as far as the frame being played reaches, and what it held before stays. |
| AudioCallback.Callback.Play | src/client/voice.c:288-352 | The output is popped frames in order and then silence; silence appears only once the queue was found empty with no frame left over. |
| AudioCallback.Callback.ProcessAudio | src/client/voice.c:288-352 | One callback, with the worker running in between, keeps both laws. |
| VoiceWire.EncodedIsAllExactlyWhenNoneFailed | src/client/voice.c:525-550 | Every attempted frame is on the wire if and only if no encode failed. |
| VoiceWire.SourceOf | src/client/voice.c:525-550 | Each frame on the wire is an attempted one, as many places earlier as encodes failed before it. |
| VoiceWire.OpenStreamArrivesExactlyWhen | src/client/voice.c:552-623 | What is left of an unfinished stream is a stream (START at sequence 0, consecutive numbers) if and only if nothing gets through without the START and every frame that does has a multiple of 65536 losses before it. |
| VoiceWire.ClosedStreamArrivesExactlyWhen | src/client/voice.c:552-623 | A finished stream arrives whole or not at all if and only if all of it was lost, or its END gets through and what does obeys the same condition. |
| VoiceWire.ShortStreamsStayInStepExactlyWhen | src/client/voice.c:552-623 | For streams of at most 65536 frames that means: all or none of a finished stream encoded, and in an unfinished one no success after a failure. |
| VoiceWire.OneFailureBreaksTheStream | src/client/voice.c:525-550 | One failed encode anywhere in a finished stream, the START and the END included, leaves a damaged stream on the wire. |
| VoiceWire.StreamsInStepAreCarried | src/client/voice.c:552-623 | Under those conditions the wire of any number of streams splits into whole ones, each or nothing of it under its own id, and the open one. |
| VoiceWire.WireCarriesStreamsExactlyWhen | src/client/voice.c:552-623 | Until stream ids repeat, the wire splits in this way if and only if the encoder's answers meet those conditions. |
| VoiceWire.RepeatedIdsHideALoss | src/client/voice.c:584-587 | With one stream more, the remains of two damaged streams can look like one intact stream. |
| VoiceWire.NextFrameStaysBracketed | src/client/voice.c:581-596 | A frame with the next number extends the open stream or starts it. |
| VoiceWire.EndFrameClosesTheStream | src/client/voice.c:597-609 | An END with the next number turns the open stream into a whole one, and no stream is open. |
| VoiceWorker.Worker.QueueEncoded | src/client/voice.c:525-550 | Sent, queued and pending frames stay exactly the encoded frames in order; one more attempt is recorded, with what the encoder made of it, and it failed exactly when that is nothing. |
| VoiceWorker.Worker.Speak | src/client/voice.c:581-596 | A captured frame goes out under the next number of the open stream, opened first if there is none. |
| VoiceWorker.Worker.Finish | src/client/voice.c:597-609 | The active stream is closed by one END frame and counted among the whole ones. |
| VoiceWorker.Worker.RetryPending | src/client/voice.c:575-578 | The pending frame moves to the queue, once and before anything newer, unless the queue is full. |
| VoiceWorker.Worker.SpeakNext | src/client/voice.c:581-596 | The oldest captured frame, if there is one, is spoken; nothing else leaves the capture queue. |
| VoiceWorker.Worker.StopSpeaking | src/client/voice.c:597-609 | Everything captured is dropped, and the active stream is closed unless a frame is pending. |
| VoiceWorker.Worker.Iterate | src/client/voice.c:569-609 | One pass of the loop, with the outbound queue drained before, between and after its steps: with the switch on and no frame left pending, exactly the oldest captured frame is spoken; with it off, all captured frames are dropped and the active stream is closed; a frame stays pending only while the queue is full. |
| VoiceWorker.Worker.Work | src/client/voice.c:569-623 | Over every run of passes the captured frames are, in order, those spoken, those dropped and those still queued; while the switch stays on none is dropped. |
| Jitter.EverySlotPlaysItsFrame | src/client/voice_jitter.c:56-139 | Over every run of arrivals and pops, slot k stands for wire number first + k and plays a frame exactly when one was accepted for it in time: that frame, and only there. |
| Jitter.RunKeepsInv | src/client/voice_jitter.c:56-139 | Every run keeps the buffer in step with the frames accepted per slot. |
| Jitter.FinishesByCount | src/client/voice_jitter.c:93-139 | A buffer finishes once its bound of non-waiting pops is used up. |
| Jitter.FinishedWithinSixPerFrame | src/client/voice_jitter.c:93-139 | From any reachable buffer without new packets, FINISHED comes within 6 * count + 6 pops that do not answer WAIT. |
| Jitter.LostSlotIsConcealed | src/client/voice_jitter.c:93-139 | A slot without a frame is concealed, from its successor exactly when that one is already here, under the missing number. |
| JitterHistory.EveryAnswerIsTheStreams | src/client/voice_jitter.c:56-139 | Over every run, each arrival and each pop is answered as the accepted frames alone demand. A stream is open from an accepted START until the slot of its END, or until five slots in a row were concealed and nothing was accepted for the sixth: then, and only then, an open stream answers FINISHED without an END. The loss count is the number of concealed slots at the end. |
| Jitter.PlayingBufferAccepts | src/client/voice_jitter.c:56-91 | Once playing, a packet is accepted exactly when its slot is still to come within half the number space, is not taken, and there is room. |
| Jitter.EarlierPacketIsTakenExactlyWhen | src/client/voice_jitter.c:76-91 | A packet whose number lies before the next one to play is accepted if and only if playout has not begun, its slot is not taken and there is room; it then goes to a slot at least half a wrap ahead. |
| Jitter.EarlierPacketAfterStart | src/client/voice_jitter.c:76-91 | Such a run: after the first frame of a stream, every packet of the stream with an earlier number is taken at once, for a slot at least half a wrap ahead. |
| Jitter.ByNumberRemove | src/client/voice_jitter.c:37-46 | Closing the gap after a frame is taken out removes exactly that sequence number. |
| Jitter.JitterBuffer.RemoveFrame | src/client/voice_jitter.c:37-46 | The frame at the index is returned and the others keep their order. |
| Jitter.JitterBuffer.FindSequence | src/client/voice_jitter.c:18-25 | The index of the frame with the number, or -1 exactly when there is none. |
| Jitter.JitterBuffer.FindNextSequence | src/client/voice_jitter.c:27-35 | The index of the frame after the expected one across the wrap, or -1 exactly when there is none. |
| Jitter.JitterBuffer.Push | src/client/voice_jitter.c:56-91 | The array buffer refines the map from numbers to frames that the run properties are about, with the same answer. |
| Jitter.JitterBuffer.PopNext | src/client/voice_jitter.c:93-139 | So does a pop. |
| VoicePath.NumberIsThePlace | src/client/voice_jitter.c:5-7 | A timely number stands for the frame's own place in its stream, or is recognized as passed. |
| VoicePath.SlotPlaysItsOwnFrame | src/client/voice_jitter.c:56-139 | For every stream of the worker, and every delivery with losses, repetitions and reordering by less than half the number space, slot k plays the k-th frame of the stream or conceals it. |
| VoicePath.TimelyFrameGetsItsSlot | src/client/voice_jitter.c:56-91 | A frame that arrives before its slot is played, into a buffer with room, is held for that slot. |
| Bitmask.BitAfterSet | src/client/server_discovery_state.c:106-115 | Setting a bit sets that bit and no other. |
| Bitmask.BitOfXor | src/server/directory_registry.c:46-55 | Each bit of an exclusive or is the one or the other. |
| Bitmask.FullExactlyWhenEveryBit | src/client/server_discovery_state.c:111-115 | A mask without bits beyond n equals the full mask of n exactly when every bit below n is set. |
| Directory.SnapshotIsPublishable | src/server/directory_registry.c:162-178 | The active entries of a table with distinct ids keep them distinct, and so their endpoints, and have usable contents. |
| Directory.Registry.Scan | src/server/directory_registry.c:106-118 | The slot with the id, one with the endpoint, and the first free one; an endpoint match is never another slot than the id match. |
| Directory.Registry.Register | src/server/directory_registry.c:78-143 | A heartbeat is taken exactly when it is valid and its slot is known or free; only that slot changes, and the erasing of a second match never happens. |
| DirectoryBook.TableIsTheBook | src/server/directory_registry.c:80-160 | Over every run of heartbeats and evictions the table holds exactly the lines of a book of at most 32 ids, struck out after 15 s, and a heartbeat is accepted exactly when the book takes it. |
| DirectoryBook.AdmissibleExactlyWhen | src/server/directory_registry.c:7-70 | The exact conditions on host, name, port, capacity and players under which a heartbeat can be listed, and as what. |
| DirectoryBook.PacketsInFigures | src/server/directory_registry.c:188-225 | A packet is built exactly for every seven servers or part of them, and one for an empty list; it holds just those servers and the number of packets. |
| DirectoryBook.PacketsHoldTheList | src/server/directory_registry.c:188-225 | All packets of a generation together hold the list, in order. |
| EndpointIds.IdsDifferExactlyWhenPortsDo | src/server/directory_registry.c:46-55 | Two servers of one host have different ids if and only if they have different ports. |
| EndpointIds.TwoServersOfOneHost | src/server/directory_registry.c:101-136 | Another server of a registered host gets a free slot of its own, unless its id collides with that of another host. |
| Directory.Registry.EvictExpired | src/server/directory_registry.c:145-160 | Exactly the slots past their lifetime are freed, and counted. |
| Directory.Registry.CopyActive | src/server/directory_registry.c:162-178 | The copy is the active servers in slot order, all of them or as many as there is room for, with distinct ids and endpoints and usable contents. |
| Discovery.AddNewPosition | src/client/server_discovery_state.c:42-65 | An entry at a position not delivered yet is counted once: as full, or as a new candidate. |
| Discovery.NewChunk | src/client/server_discovery_state.c:82-120 | A chunk seen for the first time adds exactly its servers and completes the list exactly when it was the last one missing. |
| Discovery.RepeatedChunk | src/client/server_discovery_state.c:106-112 | A repeated chunk changes nothing, before and after completion. |
| Discovery.DeliveryInAnyOrder | src/client/server_discovery_state.c:82-120 | For every order of delivery with repeats, the directory phase ends exactly with the last missing chunk; the candidates are then exactly the servers with room, and with the full ones they make up the whole registry. |
| DiscoveryIntake.EntryIsTakenExactlyWhen | src/client/server_discovery_state.c:15-65 | An entry becomes a candidate if and only if it is complete and can be joined, its endpoint is new and there is room; it counts as full exactly when it is complete and has as many players as its capacity. |
| DiscoveryIntake.EntriesAreTaken | src/client/server_discovery_state.c:107-110 | Of any entries in one packet no joinable server is missed unless the list is full, the full ones are counted, and earlier candidates stay. |
| DiscoveryIntake.NewPacketHasAnEffectExactlyWhen | src/client/server_discovery_state.c:87-120 | The exact conditions under which a packet with a new chunk changes the search. |
| DiscoveryIntake.EverySearchIsSound | src/client/server_discovery_state.c:42-120 | Whatever packets arrive, forged ones included, the candidates are at most 32 joinable servers under distinct endpoints, probing never begins without one, and packets of other generations have no part in it. |
| DiscoveryIntake.UnansweredSearchFailsExactlyWhen | src/client/server_discovery_state.c:191-199 | A search that the directory leaves without its last packets has failed if and only if somebody looked at the clock five seconds or more after its beginning; what it has collected stays. |
| Discovery.SearchEnds | src/client/server_discovery_state.c:191-213 | Looking at the clock after the overall timeout always ends the search. |
| Discovery.DiscoveryState.AddDirectoryEntry | src/client/server_discovery_state.c:42-65 | The array of candidates refines the list the delivery properties are about. |
| Discovery.DiscoveryState.IngestDirectory | src/client/server_discovery_state.c:82-120 | A chunk is refused, unchanged, unless it fits the search; otherwise the state becomes that of the delivery properties. |
| Discovery.DiscoveryState.MaybeFinish | src/client/server_discovery_state.c:30-40 | Probing completes exactly when no candidate is pending. |
| Discovery.DiscoveryState.StartProbe | src/client/server_discovery_state.c:122-138 | A probe starts exactly for a pending candidate not probed before; only its nonce and start change. |
| Discovery.DiscoveryState.AcceptProbe | src/client/server_discovery_state.c:140-178 | An answer counts exactly when it is awaited under its nonce and in time; only its candidate changes. |
| DiscoveryProbes.ReachableHasAnswered | src/client/server_discovery_state.c:122-178 | Over every run of launches, true and false answers and looks at the clock, a server reported reachable has answered its own probe, has the room it answered with, and its latency is the clamped time from launch to answer. |
| DiscoveryProbes.EachServerIsJudgedByItself | src/client/server_discovery_state.c:122-213 | Over every run, what is found out about a server depends only on its own probe, the answers under its number and the looks at the clock, and the search is complete if and only if no server is waited for. |
| Discovery.DiscoveryState.Sweep | src/client/server_discovery_state.c:203-211 | Exactly the candidates whose time is over are given up. |
| Discovery.DiscoveryState.Update | src/client/server_discovery_state.c:191-213 | The clock ends a search, or gives up candidates, as the termination property assumes. |
| Roster.RunKeepsInv | src/client/net.c:293-340 | Any traffic keeps the array in step with the chunks of the recorded generation that arrived since it took over. |
| Roster.ReceivedExactlyWhenWhole | src/client/net.c:293-340 | For every interleaving of chunks of any generations, with losses, repeats and malformed packets, the roster counts as received exactly when every chunk of the recorded generation arrived since the switch, and the array is then that generation's list. |
| RosterIntake.ShapedExactlyWhenAPiece | src/client/net.c:293-315 | The client's checks let through exactly the pieces of 128 that lists of at most 256 players are cut into. |
| RosterIntake.EveryRosterIsWhatWasHeard | src/client/net.c:293-340 | Whatever packets arrive, forged and contradictory ones included, the roster is what the packets since the last change of generation say: counts by the first, match state by the last, each player by the last one covering the place, received exactly when every chunk is among them. |
| Roster.ServerPacketsAreShaped | src/server/main.c:1167-1199 | What the server sends passes the client's shape checks. |
| Roster.ClientRoster.Join | src/client/net.c:263-268 | Entering a lobby forgets generation, mask and count. |
| Roster.ClientRoster.HandleLobbyRoster | src/client/net.c:293-340 | The fields and array after a packet are those of the run properties; a malformed one changes nothing. |
| Admission.TokensSpent | src/server/input_admission.c:14-66 | Tokens left plus tokens spent since any earlier arrival never exceed capacity plus refill. |
| Admission.WindowBound | src/server/input_admission.c:14-66 | In every window the N checks not rejected for rate satisfy 1000 N <= 10000 + 30 (t - s). |
| Admission.LevelFound | src/server/input_admission.c:14-37 | While nothing is rejected, the level found is exactly what the last full bucket leaves. |
| Admission.NothingRejectedExactlyWhenConforming | src/server/input_admission.c:14-66 | A run is free of rate rejections if and only if every one of its windows meets the bound. |
| Admission.AdvancedValue | src/client/net.c:170 | The client's numbers skip zero at the wrap. |
| Admission.LaterInputsAreNewer | src/server/input_admission.c:9-12 | Fewer than 2^31 - 1 inputs later a number counts as newer, and not the other way round, across the wrap. |
| Admission.NewerOneWayOnly | src/server/input_admission.c:9-12 | Of two numbers at most one is newer than the other, and neither only if they are equal or half the number space apart. |
| Admission.InputAdmission.Refill | src/server/input_admission.c:14-37 | The fields after a refill are those of the bucket the window properties are about. |
| Admission.InputAdmission.Check | src/server/input_admission.c:45-66 | The fields and answer of a check are those of the bucket the window properties are about. |
| AdmissionOrder.AdmittedExactlyWhenLater | src/server/input_admission.c:45-66 | Over every run of one client's inputs, lost, repeated and reordered within half the number space, an arrival that is not turned away for rate is admitted if and only if it was sent later than every input admitted before it. |
| AdmissionOrder.AdmittedInSendingOrder | src/server/input_admission.c:45-66 | So no input is admitted twice, and the admitted ones are in sending order. |
| AdmissionOrder.InOrderIsAdmitted | src/server/input_admission.c:45-66 | Inputs that arrive in the order sent are all admitted if none is turned away for rate. |
| AdmissionOrder.CountersCountTheAnswers | src/server/input_admission.c:45-66 | The three counters are how often each answer was given. |
| Scheduler.RingPush | src/client/input_scheduler.c:23-50 | Writing behind the tail of the ring appends to the queued actions. |
| Scheduler.RingPop | src/client/input_scheduler.c:79-91 | Moving the head removes the oldest queued action. |
| Scheduler.InputScheduler.Pause | src/client/input_scheduler.c:14-21 | A pause drops what was queued and timed, keeps intent ids and counters, and is the pause of the pace below. |
| Scheduler.InputScheduler.QueueActions | src/client/input_scheduler.c:23-50 | A request is accepted exactly when it asks for something and there is room, under the next intent id; accepted actions stay committed followed by queued ones. |
| Scheduler.InputScheduler.Prepare | src/client/input_scheduler.c:52-77 | Accepted time is the interval times ready and suppressed slots plus a remainder below one interval; a ready slot offers the head; clock and readiness are those of the pace below. |
| Scheduler.InputScheduler.Commit | src/client/input_scheduler.c:79-91 | Exactly the head is done, and only if it is the action that was sent. |
| Scheduler.InputScheduler.Update | src/client/net.c:797-810 | An input is sent exactly in a slot that becomes ready while sending works; an action is committed only with it, so a failed send offers the same head again. |
| Scheduler.InputScheduler.Frame | src/client/net.c:797-812 | A frame of the client ticks or pauses the pace, and sends an input exactly in a slot that becomes ready while sending works. |
| Scheduler.TickKeepsPace | src/client/input_scheduler.c:52-77 | Ready slots stay spaced so that a span T holds at most 30 T + 1 of them. |
| Scheduler.PauseKeepsPace | src/client/input_scheduler.c:14-21 | So they do through a pause. |
| Scheduler.PacedInputsAreNeverRateLimited | src/client/input_scheduler.c:14-77 | Whatever the frame times, pauses and losses, paced inputs that arrive in order with at most 266 ms of delay variation are never rejected for rate. |
| AdmissionOrder.PacedInputsAreAdmitted | src/client/input_scheduler.c:14-77 | Paced inputs, whichever sends fail and whichever packets are lost, are all admitted, each once, if they arrive in the order sent within 266 ms of delay variation. |
| RateLimit.ReplacesTheLeastRecentlySeen | src/server/rest_rate_limit.c:29-47 | A new key takes an unused entry while there is one, otherwise one no other was seen less recently than. |
| RateLimit.RememberedExactlyWhenItFits | src/server/rest_rate_limit.c:39-46 | The next check of a key finds its entry if and only if the key is shorter than 64 characters. |
| RateLimit.LongKeysAreNeverLimited | src/server/rest_rate_limit.c:49-83 | A longer key, which the REST handlers never build, would be allowed every time. |
| RateLimit.RequestKeepsInv | src/server/rest_rate_limit.c:29-83 | One request keeps entries unique and equal to the history within the window. |
| RateLimit.EveryAnswerIsNaive | src/server/rest_rate_limit.c:29-83 | With at most 128 pairs and ordered times, every answer is the naive rule: fewer than the limit allowed in the last 60 seconds. |
| RateAnswers.AllowedExactlyWhen | src/server/rest_rate_limit.c:7-83 | With at most 128 pairs, a request is allowed if and only if fewer than 5 registrations, 5 logins, 10 refreshes or 60 other requests of its key were allowed in the last 60 seconds. |
| RateAnswers.NeverMoreThan | src/server/rest_rate_limit.c:49-83 | So at every request of such a run the last 60 seconds hold no more allowed attempts than that. |
| RateAnswers.AllowanceMeansRoom | src/server/rest_rate_limit.c:75-79 | An allowed answer names the limit, what is left of it, and when the oldest counted attempt leaves the window. |
| RateAnswers.DenialHasNoneLeft | src/server/rest_rate_limit.c:69-74 | A denied one names the limit and nothing left. |
| RateAnswers.LongKeyIsChargedToItsPrefix | src/server/rest_rate_limit.c:42-46 | A key too long for the buffer is counted under its first 63 characters. |
| RateLimit.DenialMeansFull | src/server/rest_rate_limit.c:69-74 | A denial means a full window, and names the moment its oldest attempt leaves it. |
| RateLimit.RetriesAreDenied | src/server/rest_rate_limit.c:49-83 | After a denial every retry before reset_at is denied, whatever else is asked. |
| RateLimit.RetryAtResetIsAllowed | src/server/rest_rate_limit.c:49-83 | A retry at now + retry_after is allowed. |
| RateMemory.AnswerIsNaiveUnlessCrowded | src/server/rest_rate_limit.c:29-83 | For any number of keys, an answer is the naive one unless 128 other pairs of key and route asked within the same window. |
| RateMemory.RunKeepsMemory | src/server/rest_rate_limit.c:29-83 | Over every run, each entry's log, and the empty log of each pair without an entry, says what the whole history says about the window, unless there is such a crowd. |
| RateMemory.EvictionIsKept | src/server/rest_rate_limit.c:33-46 | A pair that loses its entry to a newcomer has nothing left in the window, or there is a crowd. |
| RateMemory.FullTableIsACrowd | src/server/rest_rate_limit.c:33-46 | A full table seen within the window is, with the newcomer, a crowd for each of its members. |
| RateCrowd.CrowdOf128IsEnough | src/server/rest_rate_limit.c:33-46 | A run in which exactly 128 other pairs asked within the window, only one of them after the pair's last request, and the pair is allowed an attempt too many: the bound is tight, and times in whole seconds make it one on the window. |
| RateLimit.RestRateLimiter.FindEntry | src/server/rest_rate_limit.c:29-47 | The slot is the key's own, or the replaced one, cleared; the others stay. |
| RateLimit.RestRateLimiter.Compact | src/server/rest_rate_limit.c:62-67 | Exactly the attempts inside the window are kept, in order. |
| RateLimit.RestRateLimiter.Check | src/server/rest_rate_limit.c:49-83 | The table and answer are those the history properties are about; an empty key is refused. |
| Calendar.ClosedFormCountsDays | src/server/auth.c:89-100 | For every date before and after 1970, the closed form is the naive count of leap years and month lengths. |
| Calendar.NextDayIsOneMore | src/server/auth.c:89-100 | The day after a date exists and has the next number. |
| Calendar.EarlierDatesHaveSmallerNumbers | src/server/auth.c:89-100 | Day numbers are strictly ordered like dates. |
| Calendar.DateOfDayNumber | src/server/auth.c:78-87 | A day number belongs to one date, so the broken-down date undoes the count. |
| Calendar.ParsingInvertsFormatting | src/server/auth.c:78-131 | Reading a written timestamp gives the moment back. |
| Calendar.PaddedTextIsWrittenBack | src/server/auth.c:102-131 | A padded text with fields in the accepted ranges is written back unchanged if and only if its day exists in its month and its second is at most 59. |
| Calendar.FormattingInvertsParsing | src/server/auth.c:102-131 | Of all texts, exactly the canonical ones, of an existing day and second from 1970 on with padded fields, are accepted and written back unchanged. |
| TimestampGrammar.ReaderTakesExactly | src/server/auth.c:99-131 | Over every text and moment, the reader takes exactly six numerals in range with - - T : : between them, blanks and signs before any of them and anything after the last, and reads them as the naive count of their date and time. |
| Calendar.TextOrderIsTimeOrder | src/server/account_auth.c:553-555 | Up to the year 9999, comparing expiry texts is comparing times. |
| Calendar.ExpiryTestsAgree | src/server/auth.c:469-473 | The textual and the numeric expiry test of one token agree up to the year 9999. |
| Calendar.TextOrderIsTimeOrderExactlyUntil | src/server/account_auth.c:715-716 | Text order is time order for all times up to a moment if and only if that moment is not after the year 9999. |
| TokenFamilies.AccountStore.InsertToken | src/server/account_auth.c:265-290 | A digest is inserted once; a taken one changes nothing. |
| TokenFamilies.AccountStore.IssueTokenPair | src/server/account_auth.c:292-307 | Success means both tokens are in the table under one family. |
| TokenFamilies.AccountStore.LogIn | src/server/account_auth.c:508-533 | A session, of a login or a registration, opens with both tokens or the table is unchanged. |
| TokenFamilies.AccountStore.TradeIn | src/server/account_auth.c:536-618 | A live refresh token is replaced by a new pair; an unavailable one revokes its family; any failure rolls back. |
| TokenFamilies.AccountStore.LogOut | src/server/account_auth.c:620-669 | An access token revokes its family, expired or not; any failure rolls back. |
| TokenFamilies.AccountStore.GetMe | src/server/account_auth.c:699-735 | The account is opened for its owner exactly when the database works and the access token is good. |
| TokenFamilies.ExpiryIsComparedAsText | src/server/account_auth.c:553-555 | Up to the year 9999, comparing the expiry column with the current moment as texts is the comparison of times the token properties use. |
| TokenFamilies.RevocationStaysInTheFamily | src/server/account_auth.c:577-581 | A logout or a refused refresh leaves every row of every other family as it was. |
| TokenFamilies.DeadExactlyWhenRevoked | src/server/account_auth.c:536-669 | Over every run, a family is dead if and only if some event of the run that spoke for it revoked it: a logout with one of its access tokens, or a refresh with one of its refresh tokens that was no longer good. |
| TokenFamilies.TradeKeepsInv | src/server/account_auth.c:536-618 | A refresh extends its family's chain at the end and leaves the other families alone. |
| TokenFamilies.RunKeepsInv | src/server/account_auth.c:292-669 | Every run of logins, refreshes and logouts with failures keeps one chain per family. |
| TokenFamilies.EachFamilyHasOneChain | src/server/account_auth.c:593-603 | Over every run, each family's refresh tokens form one simple chain through replaced_by_hash, and at most one of them is live. |
| TokenFamilies.DeadFamilyServesNobody | src/server/account_auth.c:709-732 | With a revoked family's tokens no refresh succeeds and no access is granted. |
| TokenFamilies.RevocationIsForGood | src/server/account_auth.c:577-669 | After a reuse or a logout, no token of that family is honoured again, whatever happens afterwards. |
| TokenFamilies.SecondUseRevokesTheFamily | src/server/account_auth.c:561-588 | Presenting a traded refresh token at any later moment is refused and revokes its family. |
| TokenFamilies.RunRevokesTogether | src/server/account_auth.c:536-669 | Over every run, a token is revoked alone only by being traded in; otherwise its whole family is. |
| TokenFamilies.AccessIsGrantedExactlyWhen | src/server/account_auth.c:709-732 | Over every run, an access token opens the account if and only if its lifetime lasts and no event of the run has revoked its family. |
| TokenFamilies.RefreshSucceedsExactlyWhen | src/server/account_auth.c:549-610 | Over every run, with a working database and a fresh pair, a refresh token is traded in if and only if it is the newest of its family, its lifetime lasts and no event of the run has revoked its family. |
| TokenLedger.TableReflectsTheLedger | src/server/account_auth.c:292-669 | Over every run, the token table holds exactly what a ledger without a table holds: each session's one owner, its token pairs in order of issue with their times, and whether it was revoked. |
| TokenLedger.EveryAnswerIsTheLedgers | src/server/account_auth.c:508-735 | Every login, refresh and logout of a run is answered as the ledger says, and an access token opens the account of the session's owner exactly as long as the ledger says. |
| TokenCodec.ScanningInvertsPrinting | src/server/account_auth.c:95-116 | The printed form determines the bytes, and its length is four letters for three bytes, rounded up. |
| TokenCodec.GenerateToken | src/server/account_auth.c:88-119 | 32 random bytes become 43 letters from which they can be read back. |
| Selector.PrecedenceIsTransitive | src/client/matchmaking_selector.c:16-32 | The order by score, latency, load, host and port is transitive. |
| Selector.PrecedenceIsTotal | src/client/matchmaking_selector.c:16-32 | Two candidates that neither precedes the other agree in all five. |
| Selector.OneMoreCandidate | src/client/matchmaking_selector.c:85-103 | Comparing only with the best so far keeps the best of all candidates seen, the first among equals. |
| Selector.Select | src/client/matchmaking_selector.c:45-111 | A selection exists exactly when the weights are valid and somebody is joinable; it is the least in the order among the joinable candidates of its latency tier, which is the near one whenever that is not empty. |
| Selector.SelectionIgnoresOrder | src/client/matchmaking_selector.c:63-110 | Lists with the same candidates, in any order and with any repetitions, lead to the same endpoint and score. |
| Selector.SelectionIsNotDominated | src/client/matchmaking_selector.c:94-98 | Whatever the weights, no eligible candidate is at least as close and as empty as the chosen one and better in one of the two. |
| SelectorFigures.ChoiceInFigures | src/client/matchmaking_selector.c:5-112 | A server is chosen if and only if the weights are usable and one can be joined; none within its tier has a lower weighted sum of load and latency relative to the greatest, and of those with the same sum none is closer, emptier, or first by host and port; the choice is marked exactly when it is beyond 200 ms. |
| SelectorWeights.MoreLatencyWeight | src/client/matchmaking_selector.c:85-103 | Raising the weight of latency alone never moves the choice to a farther server. |
| SelectorWeights.MoreLoadWeight | src/client/matchmaking_selector.c:85-103 | Raising the weight of load alone never moves it to a fuller one. |
| SelectorWeights.OnlyLatencyCounts | src/client/matchmaking_selector.c:85-103 | Without weight on load the closest eligible server is chosen. |
| SelectorWeights.OnlyLoadCounts | src/client/matchmaking_selector.c:85-103 | Without weight on latency the emptiest one is. |
| QuickMatch.MovingOnPicksAnOpenServer | src/client/quick_match.c:5-40 | The search previews a joinable server not excluded, a near one if any is open, and fails exactly when nothing is open. |
| QuickMatch.ReceivingStartsTheRun | src/client/quick_match.c:58-84 | The first selection from the offered servers establishes the invariant of the run. |
| QuickMatch.RunKeepsInv | src/client/quick_match.c:100-130 | Ticks, failures, success and cancellation in any order keep the invariant. |
| QuickMatch.EveryRunIsFair | src/client/quick_match.c:5-130 | No server is tried twice, only joinable ones are, near ones first; attempts equal failures plus the connection under way and never exceed the list; giving up means all joinable ones were tried. |
| QuickMatch.ConstantFailureTriesEveryServer | src/client/quick_match.c:100-116 | When every connection fails, as many rounds as there are joinable servers try each exactly once and end the search, exhausted unless there were none. |
| QuickMatchCourse.EveryRunFollowsItsEvents | src/client/quick_match.c:5-130 | Over every run, phase and reported failure depend on the events and on the number of servers that can be joined, and on nothing else: previews of 750 ms, a next preview after each failure while servers are left, and the first outcome is final. |
| QuickMatchCourse.OffersAndCancels | src/client/quick_match.c:58-130 | Servers are taken only by a search that waits for them, and every search without an outcome can be cancelled. |
| QuickMatch.QuickMatchState.SelectNext | src/client/quick_match.c:5-40 | The state moves to a best candidate among those not excluded. |
| QuickMatch.QuickMatchState.SetCandidates | src/client/quick_match.c:58-84 | A waiting search takes at most 32 offered servers and selects, or reports them full. |
| QuickMatch.QuickMatchState.Update | src/client/quick_match.c:100-107 | The preview turns into an attempt after 750 ms, as a tick of the run. |
| QuickMatch.QuickMatchState.ConnectionFailed | src/client/quick_match.c:109-116 | The failed server is excluded and the search moves on, as a failure of the run. |
| QuickMatch.QuickMatchState.ConnectionSucceeded | src/client/quick_match.c:118-123 | Only a search that is connecting succeeds. |
| QuickMatch.QuickMatchState.CancelSearch | src/client/quick_match.c:125-130 | Only an active search is cancelled. |
| Spectator.SelectNextTarget | src/client/spectator_target.c:10-45 | The result is the first eligible target met going round, or 0 exactly when there is none. |
| Spectator.CameraFollowsTheRing | src/client/spectator_target.c:10-45 | From one target the camera goes to its neighbour on the ring of targets. |
| Spectator.TourVisitsEveryTargetOnce | src/client/spectator_target.c:29-42 | As many presses as there are targets show every target exactly once and end where they began. |
| Spectator.BackwardUndoesForward | src/client/spectator_target.c:29-42 | A step one way and a step the other way return to the same target. |
| Spectator.CameraShowsALivingPlayer | src/client/spectator_target.c:3-45 | The camera shows only the first piece of a living player who is not excluded, and it shows one exactly when there is one. |
| MatchPersistence.MatchDatabase.Begin | src/server/match_persistence.c:10-32 | A session row is inserted once and a known one is left alone. |
| MatchPersistence.MatchDatabase.RecordEvent | src/server/match_persistence.c:34-66 | An event is recorded exactly for an active session. |
| MatchPersistence.MatchDatabase.SaveParticipant | src/server/match_persistence.c:95-181 | It succeeds exactly when none of its four statements fails, the player has a row and is not recorded yet; row, totals, play time and event are then all written. |
| MatchPersistence.MatchDatabase.SaveParticipants | src/server/match_persistence.c:237-242 | It succeeds exactly when every participant can be saved and none of their statements fails; all of them are then saved. |
| MatchPersistence.MatchDatabase.Save | src/server/match_persistence.c:183-280 | It succeeds exactly when the match can be saved and no statement fails, and then the whole save is there; wherever a statement fails the database is unchanged; a finished session answers so. |
| MatchPersistence.SaveGoesThroughExactlyWhen | src/server/match_persistence.c:183-280 | A save without failing statements goes through exactly when the session is named and unfinished, every player has a row and none appears twice. |
| MatchPersistence.RunKeepsAgreement | src/server/match_persistence.c:10-280 | Every run of begins, saves, events and enrolments with failures keeps totals and rows in agreement. |
| MatchPersistence.AbsorbedIsTheSum | src/server/match_persistence.c:104-118 | Repeated upserts add up the columns of the games. |
| MatchPersistence.AbsorbedKeepsTheRecords | src/server/match_persistence.c:115-117 | Highest mass, best rank and longest survival are those of the initial row or of some game. |
| MatchPersistence.TotalsAgreeWithTheRows | src/server/match_persistence.c:95-181 | Over every run a player's totals are the initial ones plus the sums over the participant rows added since, and play time adds the durations of their sessions. |
| MatchPersistence.FirstTotalsAgreeWithTheRows | src/server/match_persistence.c:104-118 | A player without totals gets them with the first row, and over every run they are the sums over the rows, with records no row exceeds. |
| MatchPersistence.SavedSessionHoldsItsMatch | src/server/match_persistence.c:191-251 | A saved session is finished with the match's duration, winner and status, and holds exactly its participants. |
| MatchPersistence.FinishedSessionsAreFrozen | src/server/match_persistence.c:209-215 | A finished session keeps its row, participants and events through every later run, and saving it again changes nothing. |
| MatchPersistence.NoSessionIsSavedTwice | src/server/match_persistence.c:243-251 | In no run does a session's save go through twice. |
| MatchPersistence.PlayerCountAgreesExactlyWhen | src/server/match_persistence.c:185-235 | The stored player count is the number of participant rows if and only if the session was not begun earlier with another count. |
| MatchPersistence.RoundBegunEmptyStoresAWrongCount | src/server/main.c:880-897 | A round begun without participants, as the server begins every round, and saved with some keeps a stored count of 0, whatever happens in between. |
| MatchLog.TotalsAreTheRows | src/server/match_persistence.c:95-181 | Over every run from an empty database, sessions, play time, sums and records of a player are the figures of all the rows of that player. |
| MatchLog.LogTellsEverySession | src/server/match_persistence.c:34-280 | Over every such run the event log holds of a session nothing before it begins, its recorded events in order while it runs, and then one summary for each participant row and one closing event that agrees with its status. |
| ChatText.SanitizeText | src/client/chat_cache.c:43-74 | The loop computes the cleaned text that the properties below are about. |
| ChatText.SanitizedIsClean | src/client/chat_cache.c:43-74 | The result is printable with single inner blanks, and no longer than its source. |
| ChatText.CleanTextIsKept | src/client/chat_cache.c:43-74 | Clean text that fits is left alone, so cleaning is idempotent. |
| ChatText.SanitizedIsTheClippedCollapse | src/client/chat_cache.c:58-73 | The visible characters survive in order up to the buffer's end, and the terminator has room exactly when no separator fell on the last place. |
| ChatText.SanitizedIsItsWords | src/client/chat_cache.c:43-74 | With room for it, the result is the words of the first 200 characters with single blanks between them: control characters, blanks and deletes end a word, characters beyond ASCII are passed over. |
| ChatRecord.HexEncode | src/client/chat_cache.c:108-122 | Encoding succeeds exactly when two digits per byte and the terminator fit. |
| ChatRecord.HexDecode | src/client/chat_cache.c:137-153 | Decoding rejects exactly odd lengths, other characters and too small a buffer. |
| ChatRecord.DecodingInvertsEncoding | src/client/chat_cache.c:108-153 | Decoding an encoded text gives it back. |
| ChatRecord.ParsingInvertsPrinting | src/client/chat_cache.c:174-202 | A printed number within its limit is read back, by the rules of strtoul. |
| ChatRecord.SplitLine | src/client/chat_cache.c:205-220 | A line splits exactly when it has eight separators. |
| ChatRecord.SplittingInvertsJoining | src/client/chat_cache.c:205-220 | Fields without separators are got back from the line. |
| ChatRecord.ParsingInvertsRecording | src/client/chat_cache.c:204-245 | A written record is parsed back to the same key and message. |
| ChatRecord.RecordsFitTheLine | src/client/chat_cache.c:411-416 | A record takes at most 671 characters, so every line fits the reading buffer, and holds no line end. |
| RecordGrammar.DecodedExactlyWhen | src/client/chat_cache.c:124-153 | A text decodes to some bytes if and only if it is two hexadecimal digits, of either case, for each of them. |
| RecordGrammar.RecordIsTakenExactly | src/client/chat_cache.c:204-245 | Over every line, it is taken as a record if and only if it is that record's nine fields with eight separators between them: texts in hexadecimal that fit their buffers, numerals within their limits, and neither history nor message id 0. |
| ChatCache.NormalizeKey | src/client/chat_cache.c:81-100 | The loop computes the normal form that the next property is about, or rejects the key. |
| ChatCache.NormalizingIsIdempotent | src/client/chat_cache.c:81-100 | A normalized key is normal and is its own normal form. |
| ChatCache.FindContext | src/client/chat_cache.c:155-163 | The first context with the key, or none. |
| ChatCache.LoadLine | src/client/chat_cache.c:305-350 | One line adds its message, is passed over when expired or repeated, or spoils the file. |
| ChatCache.LoadCache | src/client/chat_cache.c:247-353 | Reading line by line computes the cache that the round trips are about. |
| ChatCache.SaveCache | src/client/chat_cache.c:398-422 | The written text is the header and every message of every context in order. |
| ChatCache.AddMessage | src/client/chat_cache.c:486-501 | A known id changes nothing; otherwise the message is appended to its context, which may replace the oldest one. |
| ChatCache.CacheFile.StoreMessage | src/client/chat_cache.c:465-503 | The file and answer are those of the run properties; a failure leaves the file as it was. |
| ChatCache.CacheFile.LoadContext | src/client/chat_cache.c:445-463 | The newest messages of the lobby, at most as many as asked for. |
| ChatIntake.EveryLoadedCacheIsSound | src/client/chat_cache.c:247-353 | Whatever the file contains, it is refused, or it begins with the header, is not too large, and gives at most eight lobbies under distinct normal keys, each with one to fifty clean, retained messages, no two in a row with one id. |
| ChatIntake.NumberIsTakenExactly | src/client/chat_cache.c:174-202 | A number field is taken if and only if it is one numeral (blanks, a sign, digits) whose conversion is within the limit; negative numbers wrap and long ones saturate. |
| ChatHistory.TextIsReadByLines | src/client/chat_cache.c:305-350 | Reading concatenated lines takes them one after the other. |
| ChatHistory.TidyLineIsLoaded | src/client/chat_cache.c:305-350 | A stored line is read back as its message, passed over when expired, and refused when too far in the future. |
| ChatHistory.LoadingInvertsSaving | src/client/chat_cache.c:247-443 | Loading a saved cache gives the same contexts and messages in order without the expired ones; it is refused exactly when the file is over its limit or a message is over 300 s ahead. |
| ChatHistory.StoringKeepsTidy | src/client/chat_cache.c:486-501 | Storing keeps keys and ids distinct, texts clean and counts within limits. |
| ChatHistory.EveryFileLoadsBack | src/client/chat_cache.c:465-503 | After every run of arriving messages with failing reads and writes, the file holds a well-formed cache that loads back as above. |
| ChatHistory.StoredMessageIsLoadedBack | src/client/chat_cache.c:465-503 | A stored message is read back at once together with the unchanged rest of the history, exactly while the file is within its limit. |
| ChatHistory.StoredMessageIsShownLast | src/client/chat_cache.c:445-503 | A reader of the lobby then sees it last. |
| ChatReader.ReaderSeesTheEnd | src/client/chat_cache.c:445-503 | Over every run of acceptable, retained messages with ids of their own, working reads and writes and a file within its limit, a reader of a lobby sees the last min(capacity, 50) messages of the lobby's history. |
| ChatReader.ReaderSeesTheLastMessages | src/client/chat_cache.c:165-172 | With at most eight lobbies that history is every message that arrived for the lobby, in order. |
| ChatReader.NinthLobbyClosesTheOldest | src/client/chat_cache.c:486-493 | A ninth lobby takes the place of the one opened longest ago; every other lobby keeps its history since it was opened. |
| ChatReader.SmallRunsFit | src/client/chat_cache.c:278-286 | Such a run of up to 390 messages never meets the limit of the file. |
| ChatReader.MessageIsShownExactlyWhile | src/client/chat_cache.c:36-41 | A message alone in the file is shown from 300 s before its time until seven days after it, and at no other time. |
| ChatReader.AnswerIsHonest | src/client/chat_cache.c:465-503 | A refused message leaves the file as it was, a stored one is in the history read back at once, and an acceptable one is refused only when the file cannot be written. |
| ChatHistory.ModestCachesFit | src/client/chat_cache.c:278-286 | A cache of up to 390 messages stays within the file's limit. |
| ChatHistory.OversizedFileIsForgotten | src/client/chat_cache.c:483-485 | When the file is over its limit, the next stored message is the only one left. |
| ChatHistory.RefusedFileIsForgotten | src/client/chat_cache.c:483-485 | After any read that fails and any file that is refused, the next stored message is the only one left. |
| ChatHistory.HistoryIsLostExactlyWhen | src/client/chat_cache.c:483-501 | For a well-formed file a new message ends up alone if and only if the read failed, the file is over its limit, some message lies more than 300 s ahead of the clock, or nothing is still retained. |
| ChatLimit.LongRunIsStored | src/client/chat_cache.c:465-503 | Up to 391 arriving messages of the greatest length are all stored, each added to what the file held. |
| ChatLimit.RunReachesARefusedFile | src/client/chat_cache.c:278-286 | 391 accepted messages, with every read and write working, lead to a file that is refused at every moment. |
| ChatLimit.RunLosesItsHistory | src/client/chat_cache.c:483-485 | Whatever message is stored next is then the only one left. |

## Left out

- SpscRing.EveryInterleavingIsFifo: steps are sequentially consistent; the acquire and release orders of C11 and the contents of a half-written item are not modelled beyond a two-step copy.
- AudioCallback.Callback.Capture: the level meter, the volume and the self-mute are left out; samples are reals.
- VoiceWorker.Worker.Iterate: the capture queue is drained without the callback running during the drain, decoding and mixing of incoming frames are left out, and the encoder is any function that may fail.
- VoiceWire.WireCarriesStreamsExactlyWhen: assumes fewer than 2^32 - 1 finished streams in the necessity direction, because repeated ids hide losses (VoiceWire.RepeatedIdsHideALoss); the statements about one stream and the sufficiency have no bound.
- VoicePath.SlotPlaysItsOwnFrame: the frames between the two ends keep their bytes; a frame that was never encoded counts as lost.
- Jitter.JitterBuffer.Push: the protocol's checks of a packet's sizes and flags are one flag of the packet.
- Directory.Registry.Register: the packet's type and size checks are one flag of the heartbeat.
- Discovery.DiscoveryState.Update: marking a candidate unavailable, a failed directory, cancelling and listing the results are left out; they only set one field or read.
- Roster.ReceivedExactlyWhenWhole: the server is the sender of well-formed chunks of its own generations, and generation numbers are not reused within one run; RosterIntake.EveryRosterIsWhatWasHeard assumes neither.
- Admission.InputAdmission.Check: the counters of rejected inputs are unbounded.
- Scheduler.InputScheduler.Prepare: frame times are reals, so rounding of the accumulator is not modelled.
- RateLimit.EveryAnswerIsNaive: 64-bit clock overflow is not modelled, and the lock around the table is left out.
- Calendar.ParsingInvertsFormatting: the reader's numbers are unbounded integers, so digit strings beyond the range of int are not modelled.
- TokenFamilies.RevocationIsForGood: digests, family ids and random bytes are fresh where the source draws them and digests are injective; passwords, user and player rows and the last-login update are left out, and row ids start at 1 as in the schema.
- Selector.Select: scores are exact reals, so ties and differences made by float rounding are not modelled; a missing host is an empty one.
- QuickMatch.QuickMatchState.SetCandidates: names and the cutting of over-long texts are left out, and so are the two events of a failed or full directory.
- Spectator.TourVisitsEveryTargetOnce: the end of a watched life is left out.
- MatchPersistence.MatchDatabase.Save: columns that are only copied (power-ups, zone times, splits, ejects, event metadata, times of day) are left out, sessions are named by uuid instead of row id, and masses and distances are reals.
- ChatCache.LoadCache: opening, inspecting and replacing files are reduced to whether they succeed; unsigned long has 64 bits.
- Rendering, audio synthesis, screens, settings, paths, telemetry and the simulation have no part in the model.
- SQLite, ENet, civetweb, Opus and the cryptographic primitives are reduced to what their callers see.
