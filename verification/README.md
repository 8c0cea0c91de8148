# AIMP Remote Control: a verified model

AIMP Remote Control is a plugin that lets an Android client control the AIMP player over HTTP. This
project models the parts of it that are more than calls into the player, and proves what they promise:

- **Checksums and identifiers.** `Crc32.dfy` (table-driven CRC-32 against the shift register),
  `PlaylistChecksum.dfy`, `Probing.dfy`, `IdTables.dfy`, `IdManager.dfy` (the five maps),
  `IdConcurrency.dfy` (threads), `IdCollision.dfy` and `IdExamples.dfy` (concrete identifiers).
- **Listeners.** `NetworkAddresses.dfy`, `Tries.dfy` (which addresses a pass binds), `Listeners.dfy`
  and `BindReports.dfy` (the remote control server and its whole histories), `Discovery.dfy`,
  `NetworkWatcher.dfy` and `NetworkRuns.dfy` (the watcher, its subscribers, settings and operating
  system interleaved).
- **Timer and long polls.** `SleepTimer.dfy`, `TimerRuns.dfy`, `StateEvents.dfy`, `LongPoll.dfy`.
- **Scales, lists, authentication, uploads.** `PercentScale.dfy`, `ExclusionList.dfy`,
  `OptionsPage.dfy`, `Digest.dfy`, `UploadNaming.dfy`, `UploadTrack.dfy`; `Texts.dfy`, `Options.dfy` and
  `Sets.dfy` hold shared vocabulary.

A class of the program is a class here, with the program's fields; each method is one critical section
or one whole call, and its contract equates the new state with a function of the old one. What the
program promises is then proved about those functions. Threads are state machines: a step is one
critical section, call or return, a run is any sequence of steps, and a step that cannot be taken
changes nothing. Wake-ups may happen at any moment, with or without a notification. The outcome of
calls to the outside (binding a socket, writing a file, what a clock shows) is a parameter. Text is a
sequence of characters below 256, as `std::string` is.

Some promises do not hold outright. For each the code is modelled as it is, the case in which it falls
short is shown, and where there is a condition that decides, it is proved to:

- Identifiers are described as stable across restarts (docs/remote-control-protocol.md:130-131). They
  are, in every order of requests, exactly when no two keys start probing at the same identifier
  (`StableAcrossRestarts`); "kogel" and "vejica" do (`IdentifierDependsOnOrder`). A single key's identifier
  is stable exactly when the other keys alone do not take its home and no request overflows
  (`KeyStableExactlyIf`).
- The playlist checksum is said to change when the content changes (docs/remote-control-protocol.md:132).
  For any two playlists it stays equal exactly if the difference of the concatenated names, aligned at their
  ends, cancels what the longer one's surplus did to the register (`ChecksumEqualExactlyIf`); for names of
  one length, exactly if the difference takes the zero register back to zero (`SameLengthEqualExactlyIf`),
  so never for a change within four bytes. Boundaries between names are invisible to it
  (`BoundariesAreInvisible`).
- The same line calls the checksum signed; the code sends it unsigned
  (src/remoteControlCommands/getPlaylistsCommand.cpp:74), and the model keeps the 32-bit word.
- An address that appears between the start of the watcher's thread and its registration for
  notifications is missed until something else requests a refresh (`ChangeBeforeRegistrationIsMissed`),
  and a remote control server that is stopped and started again serves nothing until then
  (`QuiescenceMeansAgreement`).
- The server is said to compare the path of the signed uri (docs/remote-control-protocol.md:120-122). A
  client that signs the absolute uri is answered as it should be for every target
  (`SigningTheAbsoluteUri`); one that signs the target as it stands is refused exactly if the target contains
  "://" and what follows it is not the request's path (`SigningTheTarget`), as for GET /p?u=x://y
  (`UrlInQueryExample`).
- An upload whose last buffer cannot be written when its file is closed counts as saved; a saved file holds
  what was uploaded exactly if that did not happen (`BatchConserves`).
- A discovery socket stays on the interface it was opened on. For distinct addresses, after a pass every
  socket is on the interface its address is listed under exactly if no address has moved while its socket was
  open (`InterfacesExactly`); if one has, it may be served on an excluded interface (`ServedThoughExcluded`).
- An interface listed twice stays excluded when its box is ticked (`ShownFollowTicks`).
- A pass that leaves everything served asks for a retry it does not need exactly if an address without a
  listener is listed more than once, fails at its first try and succeeds at a later one (`PassAgrees`;
  `IncompleteThoughAgreeing` shows one).
- The protocol description gives nonces 24 hours (docs/remote-control-protocol.md:110-112); the code
  gives them 15 minutes (src/digestAuthenticator.h:24), and so does the model.

## Model

| member | source | states |
|---|---|---|
| Crc32.BuildTable | src/helpers/crc32.cpp:7-18 | every table entry is its index after eight shifts of the register |
| Crc32.ByteStepIsEightBits | src/helpers/crc32.cpp:10-15 | one table look-up has the effect of feeding the byte's eight bits one at a time |
| Crc32.Crc32Update | src/helpers/crc32.cpp:21-28 | the table-driven loop computes the bit-serial CRC of section 8 of RFC 1952, for every start value and data |
| Crc32.Streaming | src/helpers/crc32.cpp:21-28 | continuing from a checksum equals checksumming the concatenation; no data leaves it unchanged |
| Crc32.FeedBitsInjective | src/helpers/crc32.cpp:25-26 | registers that differ stay different whatever follows |
| Crc32.ShortMessageInjective | src/helpers/crc32.cpp:25-26 | from one register value, two different messages of equal length up to 32 bits lead to different values |
| Crc32.BurstChangesRegister | src/helpers/crc32.cpp:25-26 | bit strings that differ only within 32 consecutive bits lead to different registers |
| Crc32.BurstDetected | src/helpers/crc32.cpp:21-28 | byte strings of one length that differ only within 32 consecutive bits have different checksums |
| Crc32.FourByteChangeDetected | src/helpers/crc32.cpp:21-28 | the same for a change within four consecutive bytes |
| Crc32.DetectedExactlyIf | src/helpers/crc32.cpp:21-28 | byte strings of any two lengths have equal checksums if and only if the difference of their bits, aligned at the end, cancels what the longer one's surplus in front did to the register |
| Crc32.EqualLengthDetectedExactlyIf | src/helpers/crc32.cpp:21-28 | for one length: if and only if the difference takes the zero register back to zero, whatever the start value |
| PlaylistChecksum.ComputePlaylistCrc32 | src/remoteControlCommands/getPlaylistsCommand.cpp:19-40 | the loop equals one CRC over all retrieved names; missing lists, missing names and empty names contribute nothing |
| PlaylistChecksum.ChecksumTellsChange | docs/remote-control-protocol.md:132 | playlists whose concatenated names differ within four bytes have equal checksums exactly if those names are equal |
| PlaylistChecksum.ChecksumEqualExactlyIf | docs/remote-control-protocol.md:132 | for any two playlists, exactly when the checksum stays the same: the condition above on their concatenated names |
| PlaylistChecksum.SameLengthEqualExactlyIf | docs/remote-control-protocol.md:132 | for concatenated names of one length: exactly if their difference takes the zero register back to zero |
| PlaylistChecksum.BoundariesAreInvisible | src/remoteControlCommands/getPlaylistsCommand.cpp:27-37 | splitting a name in two leaves the checksum unchanged |
| PlaylistChecksum.MissingNamesDoNotMatter | src/remoteControlCommands/getPlaylistsCommand.cpp:21-37 | names that cannot be retrieved or are empty do not matter wherever they stand; no list has checksum 0 |
| Probing.Search | src/remoteControlIdManager.cpp:20-22 | the loop finds the first identifier from the hash on that is neither 0 nor taken, or meets the 32-bit limit, in at most taken + 1 increments |
| Probing.PlaceIsFirst | src/remoteControlIdManager.cpp:62-64 | nothing below the place found is free, so the first free identifier is unique |
| Probing.WalkBound | src/remoteControlIdManager.cpp:62-64 | a walk over 0 and taken identifiers is at most one longer than their number |
| Probing.ProbeSucceeds | src/remoteControlIdManager.cpp:20-22 | with hash + taken + 1 within 31 bits there is no overflow and the identifier is in 1..2^31-1 |
| Probing.ProbeFailsExactly | src/remoteControlIdManager.cpp:20-22 | probing overflows exactly if every identifier from the hash to 2^31-1 is taken |
| Probing.PlacesCommute | src/remoteControlIdManager.cpp:20-24 | two probes take the same two identifiers in either order |
| Probing.OccupancyOrderIndependent | src/remoteControlIdManager.cpp:20-24 | request sequences over the same keys, in any order and with repetitions, occupy the same identifiers |
| IdTables.RequestServes | src/remoteControlIdManager.cpp:17-25 | a request keeps both maps inverse, serves its key with an identifier nobody else has, and changes no other mapping |
| IdTables.ServeAllOccupies | src/remoteControlIdManager.cpp:20-24 | a history succeeds exactly if unbounded probing stays within 31 bits, and then occupies the same identifiers |
| IdTables.ServeAllOrderIndependent | src/remoteControlIdManager.cpp:20-24 | overflow and the occupied identifiers do not depend on the order of requests |
| IdTables.StableAcrossRestarts | docs/remote-control-protocol.md:130-131 | identifiers agree for all orders of requests after a restart if and only if all keys have distinct homes, and then each key gets its home |
| IdTables.KeyStableExactlyIf | docs/remote-control-protocol.md:130-131 | one key gets the same identifier for all orders of requests after a restart if and only if the requests fit into 31 bits and the other keys alone do not take its home, and then it is its home |
| IdTables.ClearTopBitExactly | src/remoteControlIdManager.cpp:20 | of a checksum exactly the top bit is lost |
| IdTables.StartsAlikeExactly | docs/remote-control-protocol.md:130-131 | two keys start probing at the same place exactly if their checksums agree in the low 31 bits |
| IdTables.SeedsDistinct | src/remoteControlIdManager.cpp:61-62 | different tracks never have the same seed |
| IdTables.RequestPlaylistValid | src/remoteControlIdManager.cpp:7-26 | the five tables keep agreeing, and the identifier returned leads back to the playlist |
| IdTables.RequestItemValid | src/remoteControlIdManager.cpp:45-69 | the five tables keep agreeing, the groups stay an exact partition without empty groups, and the identifier leads back to the track |
| IdTables.WithoutItemsValid | src/remoteControlIdManager.cpp:96-111 | removing a playlist's items forgets exactly its tracks, keeps every other mapping and keeps the tables agreeing |
| IdTables.WithoutPlaylistValid | src/remoteControlIdManager.cpp:87-94 | removing a playlist forgets exactly it and its identifier and keeps the tables agreeing |
| IdTables.WithoutOneMore | src/remoteControlIdManager.cpp:102-109 | erasing an identifier and its key from both maps is forgetting one more identifier |
| IdManager.RemoteControlIdManager.PlaylistGetOrGeneratePluginId | src/remoteControlIdManager.cpp:7-26 | keeps the maps agreeing; answers the known or the probed identifier, none only on overflow; the identifier leads back to the key |
| IdManager.RemoteControlIdManager.PlaylistGetKey | src/remoteControlIdManager.cpp:28-35 | the key that was given this identifier, empty if none |
| IdManager.RemoteControlIdManager.PlaylistRemoveByKey | src/remoteControlIdManager.cpp:37-43 | forgets the playlist and all its items and nothing else |
| IdManager.RemoteControlIdManager.PlaylistItemGetOrGeneratePluginId | src/remoteControlIdManager.cpp:45-69 | as for playlists, and files the identifier under its playlist |
| IdManager.RemoteControlIdManager.PlaylistItemGetKey | src/remoteControlIdManager.cpp:71-78 | the track that was given this identifier, an empty key if none |
| IdManager.RemoteControlIdManager.PlaylistItemsRemoveByPlaylistKey | src/remoteControlIdManager.cpp:80-85 | forgets all items of the playlist and nothing else |
| IdManager.RemoteControlIdManager.PlaylistRemoveByKeyUnlocked | src/remoteControlIdManager.cpp:87-94 | forgets the playlist's own entry in both maps |
| IdManager.RemoteControlIdManager.PlaylistItemsRemoveByPlaylistKeyUnlocked | src/remoteControlIdManager.cpp:96-111 | forgets the group and its items, whatever the iteration order |
| IdManager.RemoteControlIdManager.EraseItems | src/remoteControlIdManager.cpp:102-109 | the loop erases exactly the group's identifiers and their keys, in any order |
| IdConcurrency.RequestKeeps | src/remoteControlIdManager.cpp:7-26 | a request answers its key and leaves every known key's identifier alone |
| IdConcurrency.LivesUntilRemoved | src/remoteControlIdManager.cpp:28-35 | in any history a key keeps its identifier, and the identifier leads back to it, until the key is removed |
| IdConcurrency.SameAnswer | src/remoteControlIdManager.cpp:7-26 | two answers for one key with no removal in between are equal |
| IdConcurrency.Linearizable | src/remoteControlIdManager.cpp:9-25 | under every interleaving of checks, inserts and removals the effects form a sequential history that yields the tables, each call taking effect between its start and its end |
| IdConcurrency.ConcurrentCallsAgree | src/remoteControlIdManager.cpp:50-68 | concurrent calls for one key with no removal between their effects return one identifier |
| IdConcurrency.UndisturbedCallReturns | src/remoteControlIdManager.cpp:7-26 | a call left alone returns what the tables answer, files it, and takes effect once |
| IdCollision.CrcKogel | src/helpers/crc32.cpp:21-28 | the checksum of a concrete name |
| IdCollision.CrcVejica | src/helpers/crc32.cpp:21-28 | the checksum of another, equal in its low 31 bits |
| IdCollision.IdentifierDependsOnOrder | docs/remote-control-protocol.md:130 | two concrete playlists whose identifiers differ with the order of requests after a restart |
| IdExamples.CheckValue | src/helpers/crc32.cpp:21-28 | the customary check value: the nine digits have checksum 0xCBF43926 |
| IdExamples.StartsOfExamples | docs/remote-control-protocol.md:130-131 | playlist "a" starts probing at 0x68B7BE43 and its track number 12 at 0x05A8790E |
| IdExamples.FirstIdentifiers | src/remoteControlIdManager.cpp:20-24 | asked for first, any playlist and any track gets the identifier at which it starts probing, and nothing else is filed |
| NetworkWatcher.AllowedExactly | src/helpers/networkWatcher.cpp:141-144 | an address is allowed exactly if it is listed and its interface is not excluded |
| NetworkWatcher.AllowedKeepsDistinct | src/helpers/networkWatcher.cpp:141-144 | distinct addresses stay distinct |
| NetworkWatcher.NetworkWatcher.StoreExcluded | src/helpers/networkWatcher.cpp:120-123 | the first lock of a setter replaces the exclusions and nothing else |
| NetworkWatcher.NetworkWatcher.Refresh | src/helpers/networkWatcher.cpp:148-155 | a refresh is requested and the waiting threads are notified once |
| NetworkWatcher.NetworkWatcher.AllowedAddresses | src/helpers/networkWatcher.cpp:133-146 | the listed addresses whose interface is not excluded, in order |
| NetworkWatcher.NetworkWatcher.Start | src/helpers/networkWatcher.cpp:157-166 | a start without a thread requests a first pass, makes the thread and registers for notifications; with one it changes nothing |
| NetworkWatcher.NetworkWatcher.BeginStop | src/helpers/networkWatcher.cpp:168-175 | unregisters, marks the end and notifies once |
| NetworkWatcher.NetworkWatcher.WakeUp | src/helpers/networkWatcher.cpp:184-195 | leaves when stopping, starts a pass when one is requested or a retry is due and takes the request, sleeps on otherwise |
| NetworkRuns.QuiescenceMeansAgreement | src/helpers/networkWatcher.cpp:118-205 | in every run a watcher blocked in its untimed wait, with no notification or request still to come, has served the current exclusions and addresses; discovery listens on exactly the allowed addresses, and so does the running remote server if and only if it was not restarted since or nothing is allowed |
| NetworkRuns.LatestInputsServed | src/helpers/networkWatcher.cpp:118-205 | in every run a quiescent watcher that was not bypassed has both servers listening on exactly those of the machine's latest addresses whose interface is not among the exclusions last set |
| NetworkRuns.NoLostWakeUp | src/helpers/networkWatcher.cpp:148-193 | in every run a worker blocked although a refresh or the end is requested has a notification under way that will wake it |
| NetworkRuns.StepKept | src/helpers/networkWatcher.cpp:180-205 | every step keeps that an outdated pass is followed by a requested one, and that served handlers agree with their pass |
| NetworkRuns.UndisturbedPassRepairs | src/helpers/networkWatcher.cpp:184-204 | a requested or retried pass that is left alone and whose bindings succeed ends with both servers on exactly the allowed addresses |
| NetworkRuns.WakesExactly | src/helpers/networkWatcher.cpp:184-195 | a waking worker ends exactly if stopped, begins a pass on a request at once and on a retry only after its time-out, and else sleeps on with nothing changed |
| NetworkRuns.PassBeginsExactly | src/helpers/networkWatcher.cpp:184-195 | whatever the step, a pass begins only on a request or after a timed-out retry |
| NetworkRuns.PassEnds | src/helpers/networkWatcher.cpp:195-204 | a pass calls both servers with the same addresses and asks for a retry exactly if one of them was incomplete |
| NetworkRuns.StopThenStart | src/helpers/networkWatcher.cpp:157-178 | whatever the worker is doing, a stop ends it within five sections, and a start after it requests a first pass |
| NetworkRuns.ServedThoughExcluded | src/serviceDiscoveryServer.cpp:72-88 | a complete pass leaves a socket on an excluded interface when its address has moved to an allowed one |
| NetworkRuns.ChangeBeforeRegistrationIsMissed | src/helpers/networkWatcher.cpp:163-165 | a run in which an address is missed for good |
| Tries.BoundAfterExactly | src/remoteControlServer.cpp:213-227 | an address is bound after the tries exactly if it was before or one of its tries succeeds |
| Tries.EachServedExactly | src/remoteControlServer.cpp:213-227 | every try is served exactly if each address was bound before or has a successful try up to that one |
| Tries.UnservedMeansLate | src/remoteControlServer.cpp:213-227 | when all addresses end up bound, some try was not served exactly if an unbound address failed at its first try and succeeded later |
| Listeners.RemoteControlServer.Start | src/remoteControlServer.cpp:268-276 | the server runs on the port; listeners are untouched |
| Listeners.RemoteControlServer.CloseAll | src/remoteControlServer.cpp:253-260 | stops and closes every listener, in order |
| Listeners.RemoteControlServer.Reconcile | src/remoteControlServer.cpp:188-228 | one pass, proved about below; nothing when stopped |
| Listeners.RemoteControlServer.CloseUnwanted | src/remoteControlServer.cpp:199-208 | erasing while walking leaves the wanted listeners in order and closes the others |
| Listeners.RemoteControlServer.TryAddress | src/remoteControlServer.cpp:214-226 | opens the address only if unbound, and reports a failure unless already reported |
| Listeners.RemoteControlServer.Open | src/remoteControlServer.cpp:230-244 | adds one listener at the end exactly if binding succeeds |
| Listeners.PassEdits | src/remoteControlServer.cpp:188-228 | wanted listeners stay untouched and in order, the others are closed, only allowed addresses without a listener get one, addresses stay distinct |
| Listeners.PassAgrees | src/remoteControlServer.cpp:213-227 | a complete pass leaves exactly the allowed addresses bound; a pass that does is incomplete if and only if an address without a listener failed at its first try and succeeded at a later one, never for distinct addresses |
| Listeners.PassCompleteExactly | src/remoteControlServer.cpp:213-227 | for which listeners and answers a pass is complete, and for which it leaves exactly the allowed addresses bound |
| Listeners.IncompleteThoughAgreeing | src/remoteControlServer.cpp:213-227 | an address listed twice that asks for a needless retry |
| Listeners.PassSettles | src/remoteControlServer.cpp:210-227 | after a pass the reported addresses are exactly those allowed without a listener, whatever they were before |
| Listeners.QuietPasses | src/remoteControlServer.cpp:191-225 | a stopped server's pass does nothing and is complete; without a handler nothing is reported |
| BindReports.ReportedOncePerEpisode | src/remoteControlServer.cpp:210-227 | over any history of passes, stops and starts the reports of an address number the maximal runs of passes in which it is allowed but fails |
| BindReports.ListenersConserved | src/remoteControlServer.cpp:230-260 | over any history every listener ever opened is listening or was closed once; a stopped server has none |
| BindReports.NothingOpensAfterStop | src/remoteControlServer.cpp:188-192 | after a stop no pass opens, closes or reports anything until the next start |
| Discovery.ServiceDiscoveryServer.Reconcile | src/serviceDiscoveryServer.cpp:70-90 | one pass over the socket map, proved about below |
| Discovery.ServiceDiscoveryServer.Open | src/serviceDiscoveryServer.cpp:45-68 | adds a socket on the interface the address is listed under exactly if opening succeeds |
| Discovery.ServiceDiscoveryServer.CloseUnwanted | src/serviceDiscoveryServer.cpp:72-84 | erasing while walking keeps exactly the wanted sockets |
| Discovery.ServiceDiscoveryServer.CloseAll | src/serviceDiscoveryServer.cpp:92-100 | closes every socket |
| Discovery.PassEdits | src/serviceDiscoveryServer.cpp:70-90 | wanted sockets are kept with their interface, the others closed, and new ones are opened only for allowed addresses without one |
| Discovery.PassAgrees | src/serviceDiscoveryServer.cpp:85-89 | a complete pass serves exactly the allowed addresses; one that does is incomplete if and only if an address without a socket failed at its first try and succeeded at a later one |
| Discovery.SocketInterface | src/serviceDiscoveryServer.cpp:57-65 | after a pass the socket of an address is on the interface of a listing exactly if it was already, or is new and the first successful try was for that interface |
| Discovery.InterfacesExactly | src/serviceDiscoveryServer.cpp:57-88 | for distinct addresses, after a pass all sockets are on the listed interfaces exactly if those kept were |
| Discovery.SocketsConserved | src/serviceDiscoveryServer.cpp:45-100 | over any history every socket ever opened is open at one address or has been closed, never both |
| SleepTimer.SleepTimer.Set | src/sleepTimer.cpp:112-120 | a new generation with its action and deadline replaces the setting |
| SleepTimer.SleepTimer.Cancel | src/sleepTimer.cpp:126-131 | the setting becomes inactive |
| SleepTimer.SleepTimer.MarkStopped | src/sleepTimer.cpp:87-91 | stopped and inactive |
| SleepTimer.SleepTimer.Get | src/sleepTimer.cpp:98-110 | the active action and the seconds left, rounded to the nearest and never negative |
| SleepTimer.CountsDown | src/sleepTimer.cpp:98-118 | a timer that was set reads its action and the seconds left of its delay; an inactive one reads none |
| SleepTimer.SleepTimer.EnterLoop | src/sleepTimer.cpp:140-148 | how the worker goes to sleep from the top of its loop |
| SleepTimer.SleepTimer.WakeFromIdleWait | src/sleepTimer.cpp:142-147 | sleeps on unless stopped or set, else back to the top of the loop |
| SleepTimer.SleepTimer.WakeFromTimedWait | src/sleepTimer.cpp:148-156 | fires, and deactivates, only on a time-out with the setting unchanged and its deadline passed |
| TimerRuns.FiringsJustified | src/sleepTimer.cpp:137-162 | in every run a firing carries out the action of the setting directly before it among the locked changes, after its deadline: no cancel, stop, firing or newer setting came between |
| TimerRuns.FiresAtMostOnce | src/sleepTimer.cpp:148-155 | in every run no setting fires twice |
| TimerRuns.DelayIsKept | src/sleepTimer.cpp:112-156 | in every run the setting made with a delay fires, if at all, with its action no earlier than the delay after the call, and while it stands is due exactly from then on |
| TimerRuns.NoLostWakeUp | src/sleepTimer.cpp:112-151 | in every run a worker blocked although what its wait is for has come about has a notification under way that will wake it |
| TimerRuns.NothingBeginsAfterStop | src/sleepTimer.cpp:85-96 | in every run no action begins between the return of Stop and the next start, and each begun action is that of one firing |
| TimerRuns.DueTimerFires | src/sleepTimer.cpp:137-162 | an active setting past its deadline is fired by the undisturbed worker within five sections |
| TimerRuns.WakesExactly | src/sleepTimer.cpp:140-156 | when a waking worker ends, fires, sleeps on, or turns to another setting |
| TimerRuns.FiredActionRuns | src/sleepTimer.cpp:155-160 | a fired action begins once, ends and is announced before the timer is looked at again |
| TimerRuns.StopThenStart | src/sleepTimer.cpp:76-96 | whatever the worker is doing, Stop ends it within four sections without a firing, and a later start runs |
| StateEvents.StateUpdateEvents.Notify | src/stateUpdateEvents.cpp:201-208 | counts one more notification of the kind, touches no other, and notifies the waiting polls once |
| StateEvents.StateUpdateEvents.MarkStopped | src/stateUpdateEvents.cpp:137-143 | stopped, and the waiting polls are notified once; versions untouched |
| StateEvents.StateUpdateEvents.Sample | src/stateUpdateEvents.cpp:194-195 | the version a wait compares against |
| StateEvents.StateUpdateEvents.WakeUp | src/stateUpdateEvents.cpp:196-198 | goes on waiting only if not stopped, unchanged and not timed out; succeeds only if changed and not stopped |
| LongPoll.NoLostWakeUp | src/stateUpdateEvents.cpp:192-199 | in every run, once its kind was announced after a poll sampled, the poll's next wake-up succeeds unless stopped, even a time-out |
| LongPoll.BlockedPollIsWoken | src/stateUpdateEvents.cpp:192-208 | in every run a poll blocked although its kind was announced since it sampled, or the events stopped, has a notification under way that will wake it |
| LongPoll.NoPollOutlivesStop | src/remoteControlCommands/subscribeOnAIMPStateUpdateEventCommand.cpp:37-38 | in every run, after a stop every waiting poll is refused on waking, however it wakes |
| LongPoll.TimerReplyIsFresh | src/remoteControlCommands/subscribeOnAIMPStateUpdateEventCommand.cpp:35-50 | in every run a timer reply is the timer's state after all changes up to a point past every change announced between sample and waking |
| LongPoll.FiringIsAnnounced | src/sleepTimer.cpp:154-160 | the worker announces exactly the firing it has carried out |
| LongPoll.PollStarts | src/remoteControlCommands/subscribeOnAIMPStateUpdateEventCommand.cpp:16-27 | each of the four event names waits for its kind from the present version on; every other name is refused |
| LongPoll.WakesExactly | src/stateUpdateEvents.cpp:192-199 | a waking poll succeeds exactly if its version changed and nothing is stopped, fails once stopped or timed out, and else waits on; no other poll moves |
| LongPoll.WokenPollIsAnswered | src/remoteControlCommands/subscribeOnAIMPStateUpdateEventCommand.cpp:37-53 | a poll whose wait has ended is refused exactly if it failed and the events are stopped; otherwise it is answered, a timer poll with the timer at that moment |
| LongPoll.IdlePollIsAnswered | docs/remote-control-protocol.md:617-620 | a poll for which nothing happens ends by its time-out and is answered with the state as it is |
| LongPoll.SettingIsAnnounced | src/sleepTimer.cpp:112-135 | in every run setting or cancelling the timer owes one announcement, which counts one notification of the timer and no other |
| LongPoll.EventCounts | src/stateUpdateEvents.cpp:201-208 | a player event counts one notification of its kind and no other |
| PercentScale.RangeFor | src/remoteControlCommands/statusCommand.cpp:91-122 | every range has a positive span and a pivot, if any, strictly inside |
| PercentScale.Galois | src/remoteControlCommands/statusCommand.cpp:149-162 | reading is at least p exactly if the value is at least what writing p sends, across both segments and the pivot |
| PercentScale.FromPercentIncreasing | src/remoteControlCommands/statusCommand.cpp:156-162 | writing is strictly increasing, also across the pivot |
| PercentScale.PercentCells | src/remoteControlCommands/statusCommand.cpp:149-162 | a value reads as p exactly if it lies from the value of p up to that of p + 1 |
| PercentScale.RoundTrip | src/remoteControlCommands/statusCommand.cpp:149-162 | what is written is read back, for every integer |
| PercentScale.ToPercentMonotone | src/remoteControlCommands/statusCommand.cpp:149-155 | a larger value never reads lower |
| PercentScale.PerturbedDown | src/remoteControlCommands/statusCommand.cpp:149-162 | a value lowered by at most one step reads one lower exactly if lowered at all |
| PercentScale.Ends | src/remoteControlCommands/statusCommand.cpp:156-162 | 0, the pivot and 100 percent are the minimum, the pivot value and the maximum |
| PercentScale.WriteThenRead | src/remoteControlCommands/statusCommand.cpp:185-190 | with a player that limits values to the range, writing any percentage reads back as it, limited to 0..100; without an answer 0 is read |
| PercentScale.PropertiesDistinct | src/remoteControlCommands/statusCommand.cpp:91-122 | different status identifiers are different properties |
| PercentScale.ClientResets | src/remoteControlCommands/statusCommand.cpp:99-118 | the percentages the client resets to are the neutral values |
| PercentScale.ScalesExactly | docs/remote-control-protocol.md:416-444 | which status identifiers are scales |
| PercentScale.StatusTable | docs/remote-control-protocol.md:416-444 | the property of every scale, and the values sent for both ends and for every pivot or middle |
| PercentScale.EqualizerIsARange | src/helpers/equalizerBands.h:8-16 | the equalizer scale is a straight range of 15 dB either way, with the same connection and round trip |
| PercentScale.EqualizerEnds | docs/remote-control-protocol.md:426 | the equalizer reaches 15 dB either way with 0 dB in the middle |
| ExclusionList.JoinList | src/settings.cpp:126-132 | the loop builds the joined text the round trips are about |
| ExclusionList.SplitList | src/settings.cpp:109-124 | the search loop yields the nonempty pieces between separators |
| ExclusionList.JoinedText | src/settings.cpp:126-132 | items stand one after the other with one separator in between and none at the ends |
| ExclusionList.RoundTrip | src/settings.cpp:109-132 | splitting what was joined gives the items back, empty ones dropped, if and only if no item contains the separator |
| ExclusionList.SaveThenLoad | src/settings.cpp:185-188 | saving and loading gives the list back if and only if its items are nonempty and free of the vertical bar; only its own entry is touched, and an empty list removes it |
| OptionsPage.BuildRows | src/optionsFrame.cpp:278-316 | the loop computes the rows that are proved about below |
| OptionsPage.RowsExactly | src/optionsFrame.cpp:282-312 | rows have distinct interfaces, exactly those with an address whose controls could be created |
| OptionsPage.RowsInOrder | src/optionsFrame.cpp:282-312 | rows stand in the order of the first such address of each interface |
| OptionsPage.OrderedExactly | src/optionsFrame.cpp:279-281 | loopback addresses go first, and the order within either kind is that of the list |
| OptionsPage.SaveToSettings | src/optionsFrame.cpp:433-442 | the editing loop computes the merge that is proved about below |
| OptionsPage.ShownFollowTicks | src/optionsFrame.cpp:433-442 | every shown interface ends up excluded exactly if unticked, if and only if no ticked one was listed more than once |
| OptionsPage.TickedButExcluded | src/optionsFrame.cpp:440-441 | an interface listed twice stays excluded though ticked |
| OptionsPage.LoadThenSave | src/optionsFrame.cpp:398-401 | loading and saving without edits changes nothing, whatever the list |
| OptionsPage.MergeExactly | src/optionsFrame.cpp:433-442 | from a list without duplicates: what is not ticked stays in order, and newly unticked interfaces follow in the order of their boxes |
| OptionsPage.MergeOfCleanList | src/optionsFrame.cpp:433-442 | from a list without duplicates: excluded exactly if unticked, hidden entries keep their order, no duplicates arise |
| OptionsPage.TicksDecideAllowed | src/optionsFrame.cpp:398-442 | after saving, storing and reading back, the watcher allows an address exactly if its interface's box was ticked |
| Digest.EqualConstantTime | src/digestAuthenticator.cpp:29-35 | true exactly for equal texts |
| Digest.DigestAuthenticator.Authorize | src/digestAuthenticator.cpp:98-173 | the checks in the program's order come to one decision, proved about below |
| Digest.AcceptedExactly | src/digestAuthenticator.cpp:98-173 | a request is accepted if and only if authentication is off or not set up, or it carries the response only the password's hash yields over a nonce the server marked at most 900 seconds ago; stale=true exactly for an older one; every challenge carries a newly marked nonce |
| Digest.NoPasswordRefused | src/digestAuthenticator.cpp:143-163 | without the response that the client's formula yields a request is challenged |
| Digest.NonceChecks | src/digestAuthenticator.cpp:60-85 | a nonce made with the same credentials, before a restart or after, is valid exactly until it is 900 seconds old and then expired |
| Digest.NonceStates | src/digestAuthenticator.cpp:60-85 | for every text: valid exactly if marked with the password's hash at most 900 seconds ago, expired exactly if marked earlier |
| Digest.ResponsesAgree | src/digestAuthenticator.cpp:143-152 | the server expects what section 3.4.1 of RFC 7616 (or RFC 2069) has the client compute |
| Digest.AbsoluteUri | src/digestAuthenticator.cpp:20-27 | the path of an absolute uri is what follows the authority, or "/" |
| Digest.OriginFormUri | src/digestAuthenticator.cpp:20-27 | a uri is its own request path if and only if it contains no "://" |
| Digest.SignerDecision | src/digestAuthenticator.cpp:98-173 | who knows the credentials and signs a nonce made with them is refused over the uri only, and otherwise answered by the age of the nonce |
| Digest.SigningTheAbsoluteUri | docs/remote-control-protocol.md:120-122 | a client that signs scheme, authority and target is accepted exactly if its nonce is at most 900 seconds old and else told stale=true, for every target |
| Digest.HonestClientConverges | src/digestAuthenticator.cpp:98-173 | a client that signs the absolute uri, or a target without "://", is accepted exactly if its nonce is at most 900 seconds old; otherwise it is told stale=true with a nonce whose prompt reuse is accepted |
| Digest.SigningTheTarget | src/digestAuthenticator.cpp:127-133 | a client that signs its target is answered likewise if and only if the target has no "://" or what follows it is the request's path, and is refused otherwise |
| Digest.UrlInQueryRefused | src/digestAuthenticator.cpp:127-133 | a family of correctly signed requests that is refused |
| Digest.UrlInQueryExample | src/digestAuthenticator.cpp:127-133 | one of them: GET /p?u=x://y on a fresh nonce |
| UploadNaming.ClientFileName | src/remoteControlCommands/uploadTrackCommand.cpp:70-76 | never empty, never "." or "..", never with a separator |
| UploadNaming.CandidatesDiffer | src/remoteControlCommands/uploadTrackCommand.cpp:60-66 | different numbers give different names |
| UploadNaming.UniqueTarget | src/remoteControlCommands/uploadTrackCommand.cpp:56-68 | ends with the first candidate that does not exist, within files + 1 candidates (two more for "." and "..") |
| UploadNaming.FirstFreeUnique | src/remoteControlCommands/uploadTrackCommand.cpp:60-66 | the first free candidate is unique |
| UploadNaming.CutAtLastPeriod | src/remoteControlCommands/uploadTrackCommand.cpp:62-64 | names are cut before the last period, unless it begins the name or the name is ".." |
| UploadNaming.NumberedBeforeExtension | src/remoteControlCommands/uploadTrackCommand.cpp:60-66 | the number stands in parentheses between stem and extension |
| UploadNaming.NamesMade | src/remoteControlCommands/uploadTrackCommand.cpp:70-107 | names made of tags are artist, dash, title; unusable client names become "track", others are only sanitized |
| UploadTrack.UploadTrackCommand.WriteFile | src/remoteControlCommands/uploadTrackCommand.cpp:78-82 | reports success also when closing loses the end; what is on the disk is a beginning of the content, all of it unless lost or broken off, and only under the target |
| UploadTrack.UploadTrackCommand.RestoreName | src/remoteControlCommands/uploadTrackCommand.cpp:110-120 | the file moves to a free name made of its tags, or stays |
| UploadTrack.UploadTrackCommand.SaveAll | src/remoteControlCommands/uploadTrackCommand.cpp:147-157 | the loop computes the batch that is proved about below and breaks off at the first failed write |
| UploadTrack.UploadTrackCommand.Handle | src/remoteControlCommands/uploadTrackCommand.cpp:126-162 | the status codes; an exception exactly for a playlist number out of range; a refused request leaves the folder alone |
| UploadTrack.NumbersNamePlaylists | src/remoteControlCommands/uploadTrackCommand.cpp:133 | an identifier names its own playlist; with a 64-bit long two numbers name one playlist exactly if they differ by a multiple of 2^32, with a 32-bit one every other number throws |
| UploadTrack.OrdinaryName | src/remoteControlCommands/uploadTrackCommand.cpp:56-76 | a file with an ordinary name is saved under it if free, and else as number 2 if that is free; the form's field names a file without a name |
| UploadTrack.SecondUpload | src/remoteControlCommands/uploadTrackCommand.cpp:56-68 | a second song.mp3 becomes song (2).mp3, for every stem and extension |
| UploadTrack.RestoredName | src/remoteControlCommands/uploadTrackCommand.cpp:110-120 | a name with a question mark is replaced by the tags' if there is a title and renaming works, and kept otherwise |
| UploadTrack.RenamedElsewhere | src/remoteControlCommands/uploadTrackCommand.cpp:116-119 | a file is renamed to another name even if its tags spell the one it has |
| UploadTrack.BatchConserves | src/remoteControlCommands/uploadTrackCommand.cpp:147-157 | whatever fails, old files are untouched and saved names are new and distinct; each holds a beginning of what was uploaded, and all of it if and only if its write was not lost on closing; nothing else appears but what one failed write may leave |
| Texts.DecimalInjective | src/remoteControlIdManager.cpp:61 | different numbers print differently |
| Texts.DecimalDigits | src/remoteControlIdManager.cpp:61 | a number is printed in base ten, last digit last, with a minus sign if negative |
| Texts.ParseDecimal | src/digestAuthenticator.cpp:62-78 | what std::to_string prints, std::stoll reads back, over the 64-bit range and no further |
| Texts.ParseSurrounded | src/digestAuthenticator.cpp:62-78 | spaces before a number, a sign, and what follows its digits do not matter; without a digit there is none |

## Left out

- PlaylistGetOrGeneratePluginId: answers None where the program's 32-bit increment overflows, which is undefined there.
- PlaylistItemGetOrGeneratePluginId: answers None where the program's 32-bit increment overflows, which is undefined there.
- TimerReplyIsFresh: covers changes announced while the poll waits; changes between two polls are not carried over by the program.
- UndisturbedPassRepairs: assumes that every binding succeeds, since a binding that keeps failing is retried for ever.
- The loops of NetworkWatcher::Run, SleepTimer::Run and the wait of StateUpdateEvents::Wait: they do not end, so each of their critical sections is a method and the loop is a state machine over them.
- The scheduler: that a notification under way arrives and that a timed wait ends is assumed, not proved.
- Durations of waits (two seconds before a retry, ten minutes of a long poll): a timed wait may time out at any moment.
- Wrap-around of the 64-bit generation and version counters after 2^64 steps.
- Unlocked accesses: the flags set by Start and the pointers to the player and the events are treated as read and written atomically.
- Restricting a discovery socket to an interface is taken to succeed; on Windows a socket is bound to its address instead.
- ListIPv4Addresses is one atomic read of the machine's address list.
- Subscribers that arrive while the watcher runs, and a discovery server stopped before the watcher: the plugin does neither.
- Sockets, HTTP, netlink and Windows notifications: opening a socket is a flag, a notification is a step.
- What the sleep timer's actions do in the player or the operating system, and which actions are supported.
- MD5 and the parsing of the Authorization header: the hash is a parameter, the header a map of fields. How long the constant-time comparison takes is not stated.
- Float rounding of the scales and the limits of int in their results: exact reals and integers.
- The status command's boolean and enumerated properties, JSON, and the other commands: easy tables and calls into the player.
- Settings other than the excluded interfaces, CanonicalFolder, and the other controls of the options page.
- Windows file names in SanitizeFileName, case-insensitive folders, failing existence checks and other writers to the upload folder.
