# Door alarm: the gateway and its sensors, modelled and proved

The system is a door alarm on RIOT OS.  A gateway keeps a table of authorized sensors, each with a
watchdog counter, and a list of authorized actuators.  An operator types commands at its shell, nodes
send CoAP messages, a watchdog thread ages the counters once a second, and an alarm thread sends ON to
every listed actuator while an alarm is pending and the system is engaged.  A sensor filters its
accelerometer, detects taps and changes of side, and reports them while it is authorized.

Five actors share the gateway's globals, and only the table has a lock.  The project models the
gateway as a transition system in which any actor may step at any time, proves what every step keeps,
and proves safety over every finite run.  The data structures and handlers are also written on the
heap, with their loops and pointers, and each is proved to have the effect of the transition system.

## How it is built

| file | what it holds |
|---|---|
| Base.dfy | names, endpoints, options |
| Latch.dfy | what some moments begin and others end |
| NameHash.dfy | the bucket function: the wrapping loop against the polynomial |
| ChainTable.dfy | the table as ten chains of rows, and the map they refine |
| HashTable.dfy | the table on the heap: bucket heads, chained records, the four-case unlink, the ageing walk |
| SharedList.dfy | the actuator list on values: every record ever inserted, live or dead |
| ActuatorList.dfy | the actuator list on the heap |
| Gateway.dfy | the transition system: handlers, watchdog, buttons, shell thread, alarm thread |
| Invariant.dfy | the inductive invariant |
| Traversal.dfy | the unlocked walk of the alarm thread under interference |
| Watchdog.dfy | counters against history; no false alarm |
| Latency.dfy | from a silent sensor, a tap or a test press to the next round |
| History.dfy | every global of the gateway read off its event history |
| Answers.dfy | what each message is answered, and what is stored from it |
| Witnesses.dfy | runs from power-up to the states in which a property of the program fails |
| Disengaging.dfy | the bounded tail after a disengage; stale alarms and atomicity |
| Sessions.dfy | what an auth session may change; when its success report can be believed |
| Admission.dfy | which registrations get in while an auth session lasts |
| Timeouts.dfy | how long `register_node` polls |
| Polls.dfy | a poll of `register_node` with its test and its write apart |
| Replies.dfy | how an actuator session ends after its success: whom it tells |
| Deauth.dfy | the unlink, `deauth_sensor`, and what the list keeps through every command |
| Lookups.dfy | the `node_exists` walk and the search of `delete_node` under interference; the whole of `deauth_actuator`; mismatching actuator registrations |
| Agreement.dfy | gateway table against `connection_status`, over ordered lossless channels |
| Solo.dfy | thread bodies without interference, as runs |
| Controller.dfy | the gateway program on the heap, method by method |
| SensorNode.dfy | the sensor's side: what it may send, which detections it reports |
| DetectionSleep.dfy | the detection loop's `thread_sleep` against the handler's `thread_wakeup` |
| Detectors.dfy | the truncated filter, sides, taps, and the warm-up gate of both detectors |

Granularity: one step is a CoAP handler, an `ht_*` call, a `register_node` poll, one advance of a list
walk, the set-up of `delete_node`, its `current == head` test, its unlink, the alarm thread's test, one
send with the advance after it, the alarm thread's reset of `is_timeout`, a watchdog pass, or a button
interrupt.  The assignment of SENSOR_ID or ACTUATOR_ID by a command is a step of its own, and so is its
reset after a deauthorization.  A run is any finite sequence of such steps; a command typed while the
shell is busy is not read.  On a sensor, each thread's test, its send, and the write that lowers its
flag are steps of their own.

Results that differ from what the program's comments or the obvious reading suggest:

- A session's success can be believed exactly when `is_registered` was down at its start or the name
  was registered already (`SuccessIsTrueIff`, `ActuatorSuccessIsTrueIff`).  The flag is up exactly when
  a node has been admitted and no poll has come since (`RegisteredHistory`).  A timeout
  leaves it up, as it does not read the flag again (`LateAdmissionLeavesFlag`), and so does a
  registration that falls between the `ht_del` of a deauthorization and the reset of SENSOR_ID
  (`DeauthLeavesFlag`).
- A registration under another name closes a sensor session exactly when that name is unregistered or the
  typed one is registered (`MismatchClosesIff`): a registered sensor with the wrong name leaves SENSOR_ID
  set (`RegisteredMismatchLeavesOpen`).  An actuator session is closed by it except while a
  `deauth_actuator` is about to take the typed name out (`ActuatorMismatchClosesIff`).
- With the test and the write of a poll apart, a registration that falls in between loses its flag
  (`SplitPollSafeIff`, `SplitPollBreaks`); it takes a flag left up before and a name still open to
  registration (`SplitPollHarmlessIff`).
- A `deauth_sensor` that has removed its sensor can return with it in the table again
  (`DeauthSensorLeaves`, `RemovedSensorReturns`).
- A `deauth_actuator` removes and tells its actuator exactly when ACTUATOR_ID is still set and the name
  listed at the set-up of `delete_node` (`DeauthActuatorLeaves`).  For an unlisted name the command
  itself opens the way for a registration, which its search does not see: it finds nothing and leaves
  the actuator listed with the flag up (`RegistrationPassesSearch`).
- A successful actuator session tells its actuator exactly when ACTUATOR_ID is still set as `get_node`
  is called and the record is listed (`ReplyTellsIff`); a message without a payload can clear it after
  the poll (`ClearedNameTellsNobody`).
- A fourth silent tick leads to a round at the alarm thread's next test, unless it falls into a round in
  progress: that round's end lowers `is_timeout`, and only a tap or test press, before or since, or
  another expired tick makes the next test a round (`SilenceReachesActuators`, `TickBeforeResetIsLost`).
- A sensor believes itself connected exactly when it is in the table and a session for it has returned
  success, with SENSOR_ID still set, since its latest admission (`ConnectionAgreement`).
- A detection that falls between a sensor's report and the write that lowers `sensor_fired` is lost, and
  no other is (`RaiseKeptIff`, `SecondRaiseLost`).
- An AUTH that comes between the detection loop's test and its `thread_sleep` wakes nobody: the node
  believes itself connected, its heartbeats go on, and it detects nothing until the next AUTH
  (`StuckIff`, `StuckKeepsBeating`, `FirstAuthMissed`).
- The threshold for a change of side reads 500 and acts at 600 (`NoSideBelow600`, `LeftIff600`); the
  filter stops 99 short of a constant from below and reaches it exactly from above.
- The 32-bit wrap of the hash changes the bucket of some names of six letters (`WrapMatters`), and it is
  harmless exactly when the number of lost laps is a multiple of five (`WrapHarmlessIff`).
- The prompt speaks of five seconds; `register_node` sleeps 51 times a tenth (`PollLaw`, `TimesOutIff`).

## Model

| member | source | states |
|---|---|---|
| Invariant.StepKeepsInv | gateway/gateway_list.c:17-98 | every step of every actor keeps: pointers lead to strictly older nodes and skip no listed one, listed names distinct, at most one session name, every shell walk and alarm walk at a valid node, counters at most 3, no alarm pending while disengaged |
| Invariant.Reachable | gateway/gateway_node.c:137-186 | the invariant holds after every finite run from power-up |
| Invariant.InsertKeepsShell | gateway/gateway_coap.c:245-255 | a registration that inserts, in the middle of any shell walk, leaves the walk's own invariant true |
| Invariant.TestDecides | gateway/gateway_list.c:61-62 | at the test of `delete_node`, the match is the head if and only if `previous` is NULL |
| Invariant.SearchKeeps | gateway/gateway_list.c:44-59 | a search step keeps `previous` leading to `current`, and a match is the typed name |
| SharedList.InsertListed | gateway/gateway_list.c:17-27 | after an insertion a walk meets the new record and then exactly the old list |
| SharedList.InsertInv | gateway/gateway_list.c:17-27 | inserting an unlisted name keeps order, no-skip and distinct names |
| SharedList.UnlinkListed | gateway/gateway_list.c:61-77 | both unlink branches take exactly the match out, keep the order of the rest, and leave every name, remote and the removed record's pointer as they were |
| SharedList.UnlinkInv | gateway/gateway_list.c:61-77 | unlinking keeps order, no-skip (for dead records too) and distinct names |
| SharedList.UnlinkRemovesOnlyMatch | gateway/gateway_list.c:155-169 | after the unlink `node_exists` denies the removed name and answers as before for every other |
| Traversal.StepList | gateway/gateway_list.c:17-77 | one step leaves the list alone, inserts an unlisted name at the head, or unlinks one reached node |
| Traversal.RoundKept | gateway/gateway_list.c:83-98 | at every point of a walk, whatever happens around it: passed survivors have had one ON, nobody two, nodes ahead none, and the walk has shortened by each advance |
| Traversal.RoundTerminates | gateway/gateway_list.c:83-98 | the walk ends within a bound fixed at its start, insertions notwithstanding |
| Traversal.EveryListedActuatorFiredOnce | gateway/gateway_list.c:83-98 | when the walk is over: exactly one ON to every record listed throughout, at most one to a record deleted meanwhile, none to one inserted later or deleted before |
| Traversal.OnGoesToItsRecord | gateway/gateway_list.c:94 | in every run every ON went to the endpoint of a record that was registered |
| Watchdog.RowStep | gateway/gateway_hashtable.c:226-305 | a row's counter moves only by admission, an accepted status message, or a tick |
| Watchdog.CounterIsHistory | gateway/gateway_hashtable.c:226-305 | in every reachable state a registered sensor's counter is min(3, ticks since the later of its latest admission and its last accepted status message); taps do not reset it |
| Watchdog.LastResetExists | gateway/gateway_node.c:103-108 | every registered sensor has such a latest reset in the run |
| Watchdog.TimeoutIffFourthSilentTick | gateway/gateway_hashtable.c:264-305 | a tick leaves `is_timeout` up if and only if it was up, or the system is engaged and the tick is at least the fourth silent one of some registered sensor |
| Watchdog.QuietUntilCause | gateway/gateway_node.c:137-156 | in every run without a test press, a tap of a registered sensor or a fourth silent tick while engaged, nothing is pending and no ON was sent |
| Watchdog.NoFalseAlarm | gateway/gateway_node.c:119-156 | with prompt sensors, no taps and no test presses, no ON is sent, however often the alarm is engaged |
| Latency.BetweenTests | gateway/gateway_node.c:137-153 | between two tests of the alarm thread, in all interleavings without a disengage, a raised `is_timeout` lasts if and only if no round was in progress, or an expired tick came after that round's end |
| Latency.FiredIff | gateway/gateway_coap.c:187-193 | over every run of an engaged system without a disengage, `is_sensor_fired` is up if and only if it was, or a test press or a tap of a registered sensor has come |
| Latency.SilenceReachesActuators | gateway/gateway_node.c:119-156 | after a fourth silent tick while engaged, at any position of the alarm thread, if nobody disengages before its next test: that test starts a round if and only if the thread was at its test at the tick, or a tap or test press was pending or came since, or another expired tick came after its return; the round gives one ON to every actuator listed throughout |
| Witnesses.TickBeforeResetIsLost | gateway/gateway_node.c:148-149 | from power-up: a silent tick before the reset of `is_timeout` is lost, and the next test is no round although the sensor is silent and the system engaged |
| Latency.TriggerKeepsRounds | gateway/gateway_node.c:45-61 | after a test press, or a tap of a registered sensor, while engaged, every alarm iteration is a round until someone disengages |
| History.EngagedHistory | gateway/gateway_shell.c:145-182 | in every run the system is engaged if and only if the operator engaged it and nobody has disengaged it since; it starts disengaged |
| History.FiredHistory | gateway/gateway_node.c:45-61 | in every run `is_sensor_fired` is up if and only if, while engaged, the test button was pressed or a registered sensor sent a tap, and nobody has disengaged since; rounds do not lower it |
| History.TimeoutHistory | gateway/gateway_node.c:137-153 | in every run `is_timeout` is up if and only if, while engaged, a tick found a sensor past the limit, and since then nobody has disengaged and no round has ended |
| Disengaging.BoundedTail | gateway/gateway_node.c:142-153 | while the system stays disengaged, ON goes at most once to each record the walk in progress had yet to pass, and to nobody when there was no walk |
| Disengaging.EveryWalkWasEngaged | gateway/gateway_node.c:144 | every walk in progress goes back to a test that read the system as engaged with an alarm pending |
| Disengaging.NeverStale | gateway/gateway_node.c:241-255 | in every reachable state a pending alarm implies an engaged system |
| Disengaging.EngageStartsQuiet | gateway/gateway_shell.c:147-162 | an engage of a disengaged system never finds an alarm pending |
| Disengaging.EngagedIff | gateway/gateway_shell.c:147-179 | from an engaged state, over every run, the system is engaged at the end if and only if no disengage lacks a later engage that the shell reads |
| Disengaging.SplitWriteSafeIff | gateway/gateway_hashtable.c:280-288 | were the watchdog's test and write separate steps, the write would leave no stale alarm if and only if every disengage among the events in between is followed by an engage that the shell reads |
| Disengaging.SplitWriteBreaks | gateway/gateway_hashtable.c:280-288 | from power-up: a sensor falls silent, the button disengages between the two, and the stale alarm starts no round until the next engage, and one then |
| Disengaging.SplitTapSafeIff | gateway/gateway_coap.c:189-192 | were the tap handler's test of `is_engaged` and its write separate steps, the write would leave no stale alarm under the same condition, and only then |
| Disengaging.SplitTapBreaks | gateway/gateway_coap.c:189-192 | from power-up: the button between a tap's test and its write, and the stale alarm starts a round at the next engage |
| Sessions.NeverBothNames | gateway/gateway_shell.c:29-144 | SENSOR_ID and ACTUATOR_ID are never both set |
| Sessions.AuthSensorAdmitsOne | gateway/gateway_coap.c:75-126 | over all interleavings of one `auth_sensor`, at most one row is added, only under the typed name, none removed, and the list is untouched |
| Admission.AdmittedIffInTime | gateway/gateway_coap.c:79-124 | over every run of one `auth_sensor t` begun with SENSOR_ID set: while it lasts SENSOR_ID is t if and only if no registration under another, unregistered name has come, and else cleared; t is in the table if and only if it was or a registration under t came before any such one |
| History.SensorIdHistory | gateway/gateway_coap.c:79-124 | in every run SENSOR_ID is t if and only if a sensor command for t was read, and since then no registration under another, unregistered name has come and the command has not ended; empty payloads, registered names and repeated registrations leave it set |
| History.TableHistory | gateway/gateway_hashtable.c:48-87 | in every run a name is in the table if and only if it registered while SENSOR_ID was set to it and no `ht_del` has come since with SENSOR_ID set to it |
| Timeouts.PollLaw | gateway/gateway_node.c:159-186 | a sensor or actuator session at poll `count`, over every run until it leaves its polls: each of its next 51 - count shell steps that finds the flag down counts one poll, the first that finds it up is success, and the one after them ends the session |
| Timeouts.TimesOutIff | gateway/gateway_node.c:165-171 | it ends without success if and only if it has taken 52 - count shell steps and found the flag down at each of the first 51 - count |
| Sessions.SuccessIsTrueIff | gateway/gateway_node.c:159-186 | `register_node` reports success only for a registered sensor, in all interleavings, if and only if the flag was down at the command or the name was registered |
| Sessions.SuccessMeansFlag | gateway/gateway_node.c:172-179 | a session opened with the flag down raises it only by admitting its sensor, and reports success only after that, with the flag down again |
| Sessions.LateAdmissionLeavesFlag | gateway/gateway_node.c:165-171 | a registration accepted after the last poll times out with the name in the table, the flag up and no AUTH sent |
| History.RegisteredHistory | gateway/gateway_node.c:158-186 | in every run `is_registered` is up if and only if a registration came under the session's name while that was neither in the table nor listed, and none of the 51 polls of any session has come since |
| Polls.SplitPollSafeIff | gateway/gateway_node.c:172-178 | were a poll's test and its write separate steps, with any events in between, the outcome would be that of the one-step poll with those events after it if and only if they accept no registration |
| Polls.SplitPollHarmlessIff | gateway/gateway_node.c:172-178 | no events in between can make a difference if and only if, as the flag is read, the session's name is registered already or cleared |
| Polls.SplitPollBreaks | gateway/gateway_node.c:172-178 | from power-up: a flag left up is read, the sensor is admitted before the write, and the write lowers the flag it has raised |
| Witnesses.DeauthLeavesFlag | gateway/gateway_shell.c:72-77 | from power-up and with no auth session: a registration between the `ht_del` of a deauthorization and the reset of SENSOR_ID leaves the flag up at the prompt and the sensor in the table, untold |
| Witnesses.RemovedSensorReturns | gateway/gateway_shell.c:72-77 | from power-up: a confirmed sensor is removed and told so, and a registration before the reset of SENSOR_ID brings it back into the table, untold, with the flag up |
| Sessions.MismatchClosesIff | gateway/gateway_coap.c:94-116 | after a registration under another name than the typed one, no sensor is added on any run without a sensor command if and only if that other name is not registered or the typed one is |
| Witnesses.RegisteredMismatchLeavesOpen | gateway/gateway_coap.c:94-98 | from power-up: in a session for one sensor, a registration from another, registered one leaves SENSOR_ID set, and the first is admitted after it |
| Sessions.AuthActuatorAdmitsOne | gateway/gateway_coap.c:226-274 | over all interleavings of one `auth_actuator`, the list is as it was or has one new head, under the typed name, which was not listed |
| Admission.ActuatorAdmittedIffInTime | gateway/gateway_coap.c:230-271 | over every run of one `auth_actuator t` begun with ACTUATOR_ID set: it stays t until a message without a payload, or one under another name while t is not listed; t is listed if and only if it was or a registration under t came before that |
| History.ActuatorIdHistory | gateway/gateway_coap.c:230-271 | in every run ACTUATOR_ID is t if and only if an actuator command for t was read, and since then no such message has come and the command has not ended |
| History.ListHistory | gateway/gateway_list.c:17-81 | in every run an actuator is listed if and only if it registered while ACTUATOR_ID was set to it and no `delete_node` has unlinked it since |
| Lookups.CheckRefusesIff | gateway/gateway_list.c:155-169 | over every run of the `node_exists` walk: the session is refused if and only if ACTUATOR_ID was set and the name listed as the walk began, whatever is inserted meanwhile; otherwise it polls |
| Lookups.CheckEnds | gateway/gateway_list.c:155-169 | that walk ends within a bound fixed at its start |
| Sessions.ActuatorSuccessIsTrueIff | gateway/gateway_shell.c:90-119 | the same exact condition for actuators, through the `node_exists` walk |
| Sessions.NoActuatorNameNoAdmission | gateway/gateway_coap.c:258-271 | once ACTUATOR_ID is cleared, no record is added until an actuator command is typed |
| Lookups.ActuatorMismatchClosesIff | gateway/gateway_coap.c:245-263 | after an actuator registration under another name than the typed one, no record is added on any run without an actuator command if and only if no `deauth_actuator` is on its way to unlinking the typed name |
| Replies.ReplyTellsIff | gateway/gateway_shell.c:109-115 | over every run from a successful poll to the prompt: the session sends AUTH to the record it was opened for, and nothing else, if ACTUATOR_ID is set when `get_node` is called and the record is listed; otherwise it sends nothing |
| Replies.ReplyEnds | gateway/gateway_list.c:139-153 | that walk ends within a bound fixed at its start, insertions notwithstanding |
| Replies.FetchNeverMisses | gateway/gateway_list.c:139-153 | a walk that looks for a name listed at or below it never passes the record: each step keeps that, or ends with AUTH to it |
| Witnesses.ClearedNameTellsNobody | gateway/gateway_coap.c:265-271 | from power-up: a message without a payload after the successful poll leaves the actuator listed and nobody told |
| Deauth.UnlinkNeverOverlapsInsert | gateway/gateway_list.c:61-77 | from the match of `delete_node` to its unlink, in every state of every run: the node stays listed, `previous` still leads to it, the head branch still holds the head, and no registration inserts |
| Deauth.UnlinkStepRemovesTyped | gateway/gateway_shell.c:121-144 | the unlink removes the only record with the typed name, keeps the order of the rest and tells that node |
| Deauth.ListLength | gateway/gateway_list.c:17-81 | in every run the list is as long as accepted registrations minus completed deletions |
| Deauth.ActuatorNamesDistinct | gateway/gateway_coap.c:245-255 | no two listed actuators share a name, although `insert_node` never compares |
| Answers.StatusAnsweredIffCounted | gateway/gateway_coap.c:148-165 | after every run a status message is answered CHANGED if and only if the watchdog's history counts it as a sign of life, and BAD_REQUEST otherwise |
| Answers.TapAnsweredIffRegistered | gateway/gateway_coap.c:178-215 | after every run a tap is answered CHANGED if and only if its sender is registered by the history, and it raises the alarm if and only if the system is also engaged by the history |
| Answers.RegistrationAnsweredIffAdmitted | gateway/gateway_coap.c:79-124 | a registration of a sensor or an actuator is answered CHANGED if and only if the session is open under its name and the name is not yet in the table or listed |
| Answers.EmptyPayloadRefused | gateway/gateway_coap.c:118-124 | a message without a payload is refused and changes nothing, except that an actuator registration without one clears ACTUATOR_ID |
| Answers.RefusedChangesNothing | gateway/gateway_coap.c:75-274 | a refused message leaves the table, the list, the flags, `is_registered` and the threads as they were |
| Answers.RemoteIsHistory | gateway/gateway_node.c:63-110 | in every run a sensor's row carries the endpoint of its latest admission |
| Answers.RecordIsHistory | gateway/gateway_node.c:188-233 | in every run each actuator record carries the name and the endpoint of an accepted registration |
| Deauth.DeauthSensorLeaves | gateway/gateway_shell.c:61-87 | over all interleavings of one `deauth_sensor`: no other sensor and no actuator is touched; at the prompt the typed name is in the table if and only if a registration was accepted after the `ht_del`, or that found SENSOR_ID cleared and the name there; the flag is up if and only if it was or a registration was accepted in between |
| Deauth.DeauthActuatorTouchesOnlyTyped | gateway/gateway_shell.c:121-144 | over all interleavings of one `deauth_actuator`, the table's names and the listing of every other actuator stay as they were |
| Lookups.DeauthActuatorLeaves | gateway/gateway_list.c:30-81 | over all interleavings of one whole `deauth_actuator`: one DEAU, to the record with the typed name, if ACTUATOR_ID is set and the name listed at the set-up of `delete_node`, else no control message; at the prompt the name is listed if and only if a registration was accepted after the set-up, or that found ACTUATOR_ID cleared and the name listed; the flag is up if and only if it was or a registration was accepted on the way |
| Lookups.DeauthActuatorEnds | gateway/gateway_list.c:43-59 | from its set-up the command returns to the prompt within a number of shell steps fixed by the head it starts from |
| Lookups.FindsShellStep | gateway/gateway_list.c:43-77 | a search with the record ahead of it moves closer to it or to its unlink at each shell step; the unlink takes it out and tells it |
| Witnesses.RegistrationPassesSearch | gateway/gateway_coap.c:245-255 | from power-up: a registration accepted behind the search of `delete_node` for the same, unlisted name leaves that actuator listed with the flag up, and the command has found nothing |
| Agreement.ToldStep | gateway/gateway_hashtable.c:207-213 | one step makes a sensor's latest word AUTH or keeps it so exactly when it confirms that sensor, or leaves it registered |
| Agreement.ToldImpliesRegistered | gateway/gateway_shell.c:46-52 | in every run, a sensor whose latest word is AUTH is in the table |
| Agreement.LastAdmissionExists | gateway/gateway_coap.c:99-108 | in every run a registered sensor has a latest admission |
| Agreement.ToldIffConfirmed | gateway/gateway_shell.c:46-52 | in every run a sensor's latest word is AUTH if and only if it is in the table and a session for it returned success since its latest admission |
| Agreement.ChannelsFaithful | sensor_mpu/coap.c:274-302 | over ordered lossless channels, a drained node believes the latest word sent to it |
| Agreement.ConnectionAgreement | sensor_mpu/coap.c:282-293 | whenever its channel is empty, a sensor believes itself connected if and only if it is in the table and a session for it returned success since its latest admission |
| Agreement.DrainedAgrees | sensor_mpu/coap.c:274-302 | from every run on, once the messages in its channel are delivered, a sensor believes itself connected if and only if it is in the table and confirmed since its latest admission |
| Agreement.DeviceRuns | sensor_mpu/coap.c:274-302 | in every run of the network each node is where its own program leads on its own events and the messages delivered to it |
| Agreement.ConfirmedAdmissionsAgree | sensor_mpu/coap.c:282-293 | when every latest admission was followed by such a success, the sensor believes itself connected if and only if it is in the table |
| SensorNode.SilentUnlessAuthorized | sensor_mpu/sensor_node.c:191-230 | while the latest control word the node has received is not AUTH, over every run: it sends one heartbeat if its test had passed before, one alarm likewise, and no other |
| SensorNode.HeartbeatsWhileAuthorized | sensor_mpu/sensor_node.c:191-206 | while the latest word received is AUTH, every two steps of the status thread send one heartbeat |
| SensorNode.RaiseKeptIff | sensor_mpu/sensor_node.c:213-230 | a detection is still waiting or has been followed by a report, after every continuation, if and only if it did not fall between the send of a report and the write that lowers the flag |
| SensorNode.LostWhileClearing | sensor_mpu/sensor_node.c:222-224 | one that did fall there is wiped out by that write, whatever else happens meanwhile |
| SensorNode.SecondRaiseLost | sensor_mpu/sensor_node.c:154-161 | from power-up: two detections, one report, nothing waiting |
| SensorNode.WaitingIsReportedIff | sensor_mpu/sensor_node.c:217-224 | while the node stays authorized, a waiting detection has been reported if and only if the thread has taken its test and its send, or the one of them that was left |
| SensorNode.NoSpuriousReport | sensor_mpu/sensor_node.c:213-253 | in every run, reports sent and reports owed are at most the detections, and `fire_status` is up if and only if a report was sent or is about to be |
| SensorNode.PressIsSentIff | sensor_mpu/sensor_node.c:163-184 | a waiting press of the register button has led to a registration, authorized or not, if and only if the register thread has taken its test and its send, or the one that was left |
| SensorNode.PressKeptIff | sensor_mpu/sensor_node.c:144-184 | a press is still waiting or has been followed by a registration, after every continuation, if and only if it did not fall between a send and the write that lowers `send_id` |
| SensorNode.NoSpuriousRegistration | sensor_mpu/sensor_node.c:144-184 | in every run, registrations sent and owed are at most the presses |
| DetectionSleep.StuckIff | sensor_mpu/tap_detector.c:226-231 | in every run the node believes itself connected with its detection loop asleep if and only if the latest control word was an AUTH that came between the loop's test and `thread_sleep`, and the loop has gone to sleep since |
| DetectionSleep.StuckKeepsBeating | sensor_mpu/coap.c:282-293 | such a node stays so until the next control word, and keeps sending a heartbeat for every two steps of its status thread |
| DetectionSleep.FirstAuthMissed | sensor_mpu/coap.c:284-285 | from power-up: the first AUTH falls between the test and the sleep |
| DetectionSleep.SleepsIff | sensor_mpu/tap_detector.c:222-231 | while no AUTH comes, the loop of a disconnected node is asleep if and only if it has finished its iteration, tested and slept |
| DetectionSleep.StaysAwake | sensor_mpu/tap_detector.c:222-231 | while no DEAU comes, the loop of a connected node that is not about to sleep alternates test and iteration and never sleeps |
| DetectionSleep.AuthWakes | sensor_mpu/coap.c:282-285 | after every run that ends asleep, an AUTH makes the loop go on with an iteration |
| SensorNode.Node.ConnectionHandler | sensor_mpu/coap.c:274-302 | after any history, `connection_status` is up if and only if the latest AUTH or DEAU received was an AUTH; other payloads change nothing |
| SensorNode.Node.RegisterInterrupt | sensor_mpu/sensor_node.c:145-151 | a press raises `send_id`, with fewer registrations sent than presses made |
| SensorNode.Node.DetectionThread | sensor_mpu/sensor_node.c:213-230 | after any history, an iteration sends one report if and only if the flag is up and the latest word received is AUTH; a test press during the send is lost; reports never outnumber detections |
| SensorNode.Node.StatusThread | sensor_mpu/sensor_node.c:191-206 | after any history, an iteration sends one heartbeat if and only if the latest word received is AUTH |
| NameHash.Hash | gateway/gateway_hashtable.c:14-28 | the loop that wraps at 2^32 at every character returns the unwrapped polynomial modulo 2^32, then modulo 10 |
| NameHash.HornerIsWeightedSum | gateway/gateway_hashtable.c:20-25 | that polynomial is the sum of the characters weighted by powers of 37, the first weighing most, and the bucket is that sum modulo 2^32, then modulo 10 |
| NameHash.WrapHarmlessIff | gateway/gateway_hashtable.c:22-25 | one modulus would do if and only if the number of lost laps is a multiple of five |
| NameHash.WrapMatters | gateway/gateway_hashtable.c:22-25 | for some name that fits its buffer it would not |
| ChainTable.SetRefines | gateway/gateway_hashtable.c:48-87 | on the map, `ht_set` adds the sensor unless its name is there, and then changes nothing |
| ChainTable.DelRefines | gateway/gateway_hashtable.c:157-224 | on the map, `ht_del` removes the name and nothing else |
| ChainTable.DelKeepsOrder | gateway/gateway_hashtable.c:157-224 | every chain loses the rows with that name and keeps the others in their order |
| ChainTable.ResetRefines | gateway/gateway_hashtable.c:226-261 | on the map, `ht_update_time` zeroes that sensor's counter and nothing else |
| ChainTable.AgeRefines | gateway/gateway_hashtable.c:264-305 | on the map, `ht_wdt` ages every counter, and finds one past the limit exactly when the map has one |
| ChainTable.RunRefines | gateway/gateway_hashtable.c:48-305 | from any well-formed table, every sequence of calls gives the answers a map gives, leaves the map's contents, and keeps every row in the chain of its name with no name twice |
| ChainTable.TableIsAMap | gateway/gateway_hashtable.c:30-305 | from `ht_create` on, no sequence of calls answers differently from a map |
| HashTable.Slot.Set | gateway/gateway_hashtable.c:56-86 | the walk inserts at the end of the chain, or changes nothing when the name is met |
| HashTable.Slot.Bypass | gateway/gateway_hashtable.c:182-205 | the four cases write one pointer, the bucket head or the predecessor's `next` |
| HashTable.Slot.Del | gateway/gateway_hashtable.c:161-224 | the walk and the unlink remove the first match, the others keeping their order, in an acyclic chain |
| HashTable.Slot.UpdateTime | gateway/gateway_hashtable.c:230-260 | only the matching record's counter changes |
| HashTable.Slot.Age | gateway/gateway_hashtable.c:270-300 | the inner loop ages each record of the chain once and reports one past the limit |
| HashTable.SensorTable.constructor | gateway/gateway_hashtable.c:30-46 | ten empty, disjoint chains, an empty map |
| HashTable.SensorTable.Set | gateway/gateway_hashtable.c:48-87 | keeps chains acyclic, disjoint and duplicate-free; the rows and the map change as `ht_set` should |
| HashTable.SensorTable.Get | gateway/gateway_hashtable.c:89-120 | the name if and only if the map has it |
| HashTable.SensorTable.GetNode | gateway/gateway_hashtable.c:122-153 | the record with the map's value if and only if the map has the name |
| HashTable.SensorTable.Del | gateway/gateway_hashtable.c:157-224 | 0 and the removed record's endpoint, or 1 and nothing changed; rows and map as for `ht_del` |
| HashTable.SensorTable.UpdateTime | gateway/gateway_hashtable.c:226-261 | rows and map as for `ht_update_time` |
| HashTable.SensorTable.Wdt | gateway/gateway_hashtable.c:264-305 | both loops: every counter of the map aged once, and whether one was past the limit before |
| ActuatorList.List.Insert | gateway/gateway_list.c:17-27 | the heap list becomes the old one behind the new record |
| ActuatorList.List.GetNode | gateway/gateway_list.c:139-153 | a listed record with the name if there is one, else NULL |
| ActuatorList.List.NodeExists | gateway/gateway_list.c:155-169 | 0 if and only if the name is listed |
| ActuatorList.List.Search | gateway/gateway_list.c:33-59 | the match with the pointer that leads to it, or NULL when the name is not listed |
| ActuatorList.List.DeleteNode | gateway/gateway_list.c:30-81 | 0 if and only if the name was listed; then that record is unlinked and its endpoint told, else nothing changes |
| ActuatorList.List.TraverseAndFire | gateway/gateway_list.c:83-98 | left alone, one ON to every listed record, newest first |
| Solo.SoloAlarm | gateway/gateway_node.c:142-153 | the steps of one iteration, with nobody in between, add up to one ON per listed actuator and a lowered `is_timeout`, or to nothing |
| Solo.SoloTimeout | gateway/gateway_node.c:159-186 | a sensor session left alone, without a registration, polls exactly 51 times before it closes |
| Solo.SoloDeauthSensor | gateway/gateway_shell.c:61-87 | the steps of `deauth_sensor` add up to removing the row and telling its node, if it was there |
| Solo.SoloDeauthActuator | gateway/gateway_shell.c:121-144 | the steps of `deauth_actuator` add up to unlinking the named record and telling it, or to nothing |
| Controller.Controller.SensorRegister | gateway/gateway_coap.c:75-126 | on the heap, the handler's state and response are those of the transition system |
| Controller.Controller.SensorStatus | gateway/gateway_coap.c:137-167 | the lookup and the reset on the heap table have the handler's effect on the map, unregistered and empty payloads included |
| Controller.Controller.SensorTap | gateway/gateway_coap.c:178-215 | the handler raises `is_sensor_fired` only for a name the map has, and only while engaged |
| Controller.Controller.ActuatorRegister | gateway/gateway_coap.c:226-274 | the `node_exists` walk and the insertion on the heap list have the handler's effect, each refusal included |
| Controller.Controller.WatchdogTick | gateway/gateway_hashtable.c:264-305 | the walk over the heap table has the effect of one tick on counters and `is_timeout` |
| Controller.Controller.TestInterrupt | gateway/gateway_node.c:45-61 | the interrupt is the test-button step |
| Controller.Controller.DeactivateAlarm | gateway/gateway_node.c:248-255 | the interrupt is the disengage step |
| Controller.Controller.AlarmIteration | gateway/gateway_node.c:142-153 | one iteration left alone is a run of alarm steps |
| Controller.Controller.DeAuthSensorNode | gateway/gateway_shell.c:61-87 | the command left alone is a run of its three steps; 0 exactly when the sensor was registered |
| Controller.Controller.DeAuthActuatorNode | gateway/gateway_shell.c:121-144 | the command left alone is a run of shell steps; 0 exactly when the actuator was listed |
| Controller.Controller.RegisterNode | gateway/gateway_node.c:159-186 | the polling loop is the run of its polls with the arrivals of each sleep after them, in order; 0 at the first poll that succeeds, 1 after exactly 51 that do not |
| Controller.RegistrationHolds | gateway/gateway_node.c:165-184 | that run holds every arrival of the sleeps once and in order, and one shell step for each poll |
| Controller.Controller.AuthSensorNode | gateway/gateway_shell.c:29-57 | the command is the run of its opening, those polls with every arrival in order, and its close; 1 at once for a registered name, else what the polls returned; the shell is back at its prompt |
| TapDetector.GetSide | sensor_mpu/tap_detector.c:84-113 | no side exactly when the vector points toward none beyond 500; otherwise one it does point to, x before z before y |
| TapDetector.DetectTap | sensor_mpu/tap_detector.c:123-151 | a tap exactly when the magnitude along the resting axis has grown by more than 200 |
| TapDetector.Filter | sensor_mpu/tap_detector.c:242-244 | one step stores the hundredth part of 99 times the old value plus the sample, rounded toward zero |
| TapDetector.RisesGeometrically | sensor_mpu/tap_detector.c:242-244 | after k samples of a constant c >= 99 the distance to it lies between c 0.99^k and (c - 99) 0.99^k + 99 |
| TapDetector.FallsGeometrically | sensor_mpu/tap_detector.c:242-244 | after k samples from a > c >= 0 the distance lies between (a - c + 99) 0.99^k - 99 and (a - c) 0.99^k |
| TapDetector.TurnsLeft | sensor_mpu/tap_detector.c:242-256 | a steady x reading of c >= 600 shows LEFT once 0.99^k is at most (c - 600) / (c - 99), and not while it is at least (c - 500) / c |
| TapDetector.FilterRestsIff | sensor_mpu/tap_detector.c:242-244 | the exact dead band of the truncated filter |
| TapDetector.RisesToNinetyNineBelow | sensor_mpu/tap_detector.c:242-244 | from 0 toward c >= 99 it climbs at every step and stops at c - 99 |
| TapDetector.FallsToExactly | sensor_mpu/tap_detector.c:242-244 | from above c >= 0 it sinks at every step and stops at c |
| TapDetector.NoSideBelow600 | sensor_mpu/tap_detector.c:84-113 | no stream of samples within 599 on every axis ever changes the side |
| TapDetector.LeftIff600 | sensor_mpu/tap_detector.c:242-256 | a steady x reading of c >= 0 is LEFT from the 501st sample on if and only if c >= 600 |
| TapDetector.AxesApart | sensor_mpu/tap_detector.c:242-244 | each axis is filtered on its own from its own readings |
| TapDetector.RestingSide | sensor_mpu/tap_detector.c:242-256 | from the 501st sample of a constant acceleration on, the side is the one whose axis reads at least 600, x before z before y, and none when all read less |
| TapDetector.SlowMotionNeverTaps | sensor_mpu/tap_detector.c:123-151 | no stream whose axes change by at most 200 per sample ever taps |
| TapDetector.MirrorRun | sensor_mpu/tap_detector.c:233-260 | turning every sample around turns every side around and fires at the same iterations |
| TapDetector.MirrorTap | sensor_mpu/tap_detector.c:123-151 | negating both samples does not change tap detection |
| TapDetector.CountIsSinceSleep | sensor_mpu/tap_detector.c:222-257 | the warm-up counter is min(101, iterations since the last sleep or start) |
| TapDetector.FiredIff | sensor_mpu/tap_detector.c:224-263 | in every run `sensor_fired` is up if and only if some iteration raised it, connected, with 101 iterations since the last sleep, on a tap or a turn to a new side, and the detection thread has not cleared it since; the loop never lowers it |
| TapDetector.Detector.Iteration | sensor_mpu/tap_detector.c:224-263 | the loop body on the device's variables is one step of the detector |
| TapDetector.Detector.DetectionLoop | sensor_mpu/tap_detector.c:219-264 | any number of iterations is a run |
| IrDetector.CountIsSinceSleep | sensor_ir/ir_detector.c:77-102 | the same counter law for the light barrier |
| IrDetector.FiredIff | sensor_ir/ir_detector.c:88-96 | in every run `sensor_fired` is up if and only if an object was seen while connected with 101 iterations since the last sleep, and nothing has cleared it since |
| IrDetector.Detector.DetectionLoop | sensor_ir/ir_detector.c:74-104 | the loop on the device's variables is a run |

## Left out

- Interleaving inside heap methods: a method cannot be interrupted, so heap methods run alone or take their arrivals as an argument, and all interleavings are proved on the transition system.
- Reads of SENSOR_ID or ACTUATOR_ID through NULL, after a handler has cleared them in mid-session: a missing name compares unequal and a missing record is sent nothing, where the C library's behaviour is undefined.
- The `entries` array is ten slot objects, one for each element, instead of one array of pointers.
- Sending: a message sent is an entry in a log that specifications read; `coap_put` and its failures are not part of this model.
- Name buffers: names have any length and no terminator problem; `set_sensor_name` and the ten-byte fields are not part of this model.
- Memory release: `ht_del` takes the record out of its chain; `free` and the unused `malloc` of `insert_node` are not modelled.
- Sleeping in the detector loops: an iteration that finds the node disconnected is one whose input is the state after waking; the sleep itself and a lost wake-up are in DetectionSleep.dfy, where the handler's write of `connection_status` and its `thread_wakeup` are one step.
- TapDetector.Filter: exact rational arithmetic truncated toward zero, in place of the rounding of 0.99 and 0.01 as doubles.
- Samples are unbounded integers; the int16 range of the driver is not imposed, and the results hold for all integers.
- Reading of several flags in one condition is one step: the alarm thread's test reads `is_timeout`, `is_sensor_fired` and `is_engaged` together, and `deactivate_alarm` writes the three together.  The test and the write of the watchdog and of the tap handler are one step in the transition system; what separate ones would allow is `SplitWriteSafeIff` and `SplitTapSafeIff`.  A poll's test and write are one step too; apart, they are in Polls.dfy.
- A poll that times out and the reset of the session name after it are one step.  So are, in an auth session that is refused or has succeeded, its last lookup, the AUTH, and that reset.  While the name is in the table or the list, no registration is accepted in that window (`Deauth.DeauthSensorRun`, `Sessions.AuthActuatorStep`), so the merge hides one only after a success without a record, where the source reads through NULL.
- Time: seconds are watchdog and alarm steps in any order; nothing is claimed about how often a thread runs.
- Agreement.ConnectionAgreement: assumes channels that lose, repeat and reorder nothing, nodes that register with their own address, and distinct addresses (`SomeBookIsValid`: such an assignment exists), because control messages are non-confirmable (section 4.3 of RFC 7252) and nothing at this level repairs a loss.
- CoAP encoding, block-wise follow-ups, link format, IPv6 parsing and endpoints: a message is its kind and its fields, an endpoint is opaque.
- The log thread and its buffer, the shell's texts, `show_actuators`, `traverse_and_off`, beepers and device set-up.
- The actuator firmware, and the files of sensor_ir that repeat those of sensor_mpu.
