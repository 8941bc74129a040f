# Verification of the gateway's own algorithms

This project models, in Dafny, the parts of the IEC 61850 data gateway that decide
something themselves, and proves properties of them: how Modbus points are batched into block
reads and decoded, what the rotating log keeps, how the two traversals of an SCL file's data
type templates relate, how structured MMS values are flattened into log lines, and five
state machines (Modbus reconnection, control ownership and toggling in the demo server, the
IEC 60870-5-104 client loop and point table, and the log rate limiter). The protocol
libraries appear only as arbitrary answers.

| file | models | main results |
|---|---|---|
| `RegisterPlan.dfy`, `RegisterPlanLaws.dfy` | the plan of block reads | partition, fewest requests, each register read as often as points ask for it, when configuration order matters |
| `BlockDecoding.dfy`, `ModbusPoller.dfy` | decoding by a running offset; the cycle itself | batch decoding equals reading each point alone; when the cycle as called is right |
| `RegisterNumbers.dfy` | plan and decoding in register numbers | requests, multiplicities and stores per data type |
| `LogFiles.dfy`, `RotatingSink.dfy`, `RotatingFileSink.dfy`, `RotatingHistory.dfy` | the log directory and the rotating sink | what survives is a suffix cut between files, determined by the messages; size accounting; two rotations in one second |
| `IcdModel.dfy`, `IcdTheorems.dfy`, `IcdParser.dfy`, `IcdDocument.dfy`, `IcdNodes.dfy`, `IcdLookups.dfy`, `Places.dfy` | the SCL document and the parser | when lookups agree with the enumeration; the whole result, item by item in document order |
| `IndexPaths.dfy`, `MmsFlattening.dfy`, `MmsLines.dfy` | element paths and the depth-limited walk | exactly the leaves in reach, once each and with their values; paths can be read back; visit bound met exactly |
| `ModbusLink.dfy`, `LinkHistory.dfy` | the reconnect loop beside reads and writes | retry budget, when contexts are lost, exhaustion is final |
| `BeagleControl.dfy`, `BeagleHistory.dfy` | control ownership and the toggle scheduler | no takeover without disconnect, toggle spacing, counter of rising edges |
| `Iec104Client.dfy`, `Iec104History.dfy`, `Iec104Table.dfy`, `Iec104Replies.dfy` | the 104 client loop; the server's table and replies | semaphore count, silence after a lost link, when a restart is fatal, interrogation pacing; entries against history, snapshots |
| `RateLimiter.dfy` | the log rate limiter | spacing per key, keys independent |
| `Wrappers.dfy`, `Sorting.dfy`, `Spacing.dfy` | shared vocabulary, `std::sort` | |

Dafny checks the whole project with `dafny verify dfyconfig.toml`.

## Conventions

- Methods follow the source's loops and fields and are tied by their `ensures` to a
  specification function or relation; the lemmas are about that specification.
- A class method's contract gives the whole new state as one step of the state machine.
- Clocks, library results, file ages, rename results and formatted time stamps are
  parameters, so statements hold for every behaviour of the surroundings.
- Widths that matter are written out: `int32` and `uint64` wrap-around, `size_t` in the
  backup-name filter, the truncating `duration_cast`.
- Lemmas that assume known data types rely on the configuration reader, which rejects the others
  (`common/config/config.cc:316`); the planner's own branch for unknown types is modelled.
- The `History`, `Numbers`, `Lines`, `Document`, `Nodes` and `Lookups` files restate what the machines and
  functions compute in terms of the inputs alone: events, messages, register numbers, values, places.
- Atomic steps: a worker section, a callback, one I/O call and one loop turn each happen as a whole,
  in any interleaving.

## Findings

- The polling cycle hands every buffer the whole point list. It stays inside the buffers and
  stores the right registers on every device exactly when the points form one gap-free run
  (`CycleIsPointwiseIffGapFree`); otherwise a buffer can be long enough and the values still be
  wrong (`WholeListMisreads`). Decoding run by run, as the plan intends, is right for every list
  (`PlannedCycleIsPointwise`).
- The requests depend on the configuration order exactly when two points share an address but
  not a width (`OrderIndependentIff`). Nothing caps a read at the protocol's 125 registers
  (`ReadsAreNotCapped`, `ReadsWithinLimit`).
- Two rotations in one second overwrite a backup; what is left is then a suffix of what was
  written only if the oldest backup was the one overwritten, or by coincidence (`ReusedNameIff`). The size
  accounting can drift exactly for a base file whose own name is one that a rotation produces --
  process name, a real date and time, ".log" -- while backups are kept (`SizesAlwaysAgreeIff`). The
  name filter accepts three-letter names (`BackupNames`). The source comments call the sort key the
  creation time (`common/log/custom_rotating_file_sink-inl.h:185`); the code compares the last write time, as
  does the model.
- A present but empty `lnType` is looked up but not enumerated (`DoiPassIsRedundantIff`). A dot in any
  DO name, or in a DA name where there is a DO, breaks the agreement of the traversals for some
  templates with these names; without conflicting duplicates nothing else does (`AgreementIffDotFree`).
- Every creation of a Modbus context that fails after allocation loses one context for good, and
  nothing else does (`ContextsLost`, `NoContextLostIff`).
- A test check takes control of a free demo server (`TestCheckTakesControl`); test checks are
  harmless exactly when each meets a controlled one (`TestsLeaveNoTraceIff`).
- Once the worker of a 104 client has reacted to a closed or failed connection, `start` ends the
  process, unless `stop` had begun before that reaction and has joined the worker since; only then
  the client starts again (`RestartFailsIff`, `LossWithoutStopIsFinal`). Its `stop`
  never sends STOPDT (`StopNeverSendsStopDt`); and because nothing sets `start_dt_sent_`, it never
  interrogates unless some other code sets the flag (`NoFlagNoInterrogation`).

## Model

| member | source | states |
|---|---|---|
| Sorting.Sort | core/modbus/app_modbus_client.cc:251-256 | in place: ascending by the key and a permutation; the order of equal keys is left open, as for `std::sort` |
| RegisterPlan.PlanPartitionsThePoints | core/modbus/app_modbus_client.cc:123-193 | the plan's requests are, one for one, the start and total width of the parts of an in-order partition of the points into non-empty gap-free runs of which no two neighbours could be merged |
| RegisterPlan.MaximalCutIsThePlan | core/modbus/app_modbus_client.cc:259-287 | any partition into gap-free runs that cannot be merged is the one the plan reads |
| RegisterPlan.PlanIsMinimal | core/modbus/app_modbus_client.cc:123-193 | no way of cutting the points into gap-free reads has fewer requests |
| RegisterPlan.RequestCount | core/modbus/app_modbus_client.cc:259-287 | the number of requests is one plus the adjacent pairs that cannot share a read |
| RegisterPlanLaws.ReadsMatchPoints | core/modbus/app_modbus_client.cc:123-193 | for any point list and any register, the requests that cover it number exactly the points that span it |
| RegisterPlanLaws.NoRegisterReadTwiceIffNoOverlap | core/modbus/app_modbus_client.cc:246-272 | no register is read twice in a cycle if and only if no two points overlap |
| RegisterPlanLaws.RangesAreSeparated | core/modbus/app_modbus_client.cc:246-272 | on sorted, known, non-overlapping points each request ends strictly before the next begins |
| RegisterPlanLaws.GapIsUnread | core/modbus/app_modbus_client.cc:246-272 | the register where a separated request ends is read by no request at all |
| RegisterPlanLaws.OrderIndependentIff | core/modbus/app_modbus_client.cc:246-272 | every result of the sort gives the same request sequence if and only if points that share an address share a width |
| BlockDecoding.OffsetIsDistance | core/modbus/app_modbus_client.cc:195-241 | in a run the running offset of a point is its address minus the run's first address |
| BlockDecoding.BatchDecodeIsPointwise | core/modbus/app_modbus_client.cc:195-241 | walking a run through its block stores what reading and decoding each point alone stores |
| BlockDecoding.PlannedCycleIsPointwise | core/modbus/app_modbus_client.cc:259-287 | planning, block reads and per-run decoding of a whole list equal reading each point alone, in order, for every list |
| BlockDecoding.WholeListFitsIffGapFree | core/modbus/app_modbus_client.cc:280-286 | walking every buffer with the whole list stays inside all buffers if and only if the points are one gap-free run |
| BlockDecoding.AsCalledIsPointwiseIffGapFree | core/modbus/app_modbus_client.cc:280-286 | for any single request: in bounds and right for every memory if and only if the points are one gap-free run |
| BlockDecoding.WholeListMisreads | core/modbus/app_modbus_client.cc:271-286 | a concrete cycle whose first read fails: no walk leaves its buffer, and the first point is stored with a register of the second |
| BlockDecoding.CycleFaultIff | core/modbus/app_modbus_client.cc:259-287 | the cycle as called leaves a buffer if and only if an answered read is shorter than the walk's reach; otherwise every request is issued |
| BlockDecoding.CycleIsPointwiseIffGapFree | core/modbus/app_modbus_client.cc:259-287 | the cycle as called neither faults nor misreads on any device if and only if the points are one gap-free run |
| BlockDecoding.ReadsWithinLimit | core/modbus/app_modbus_client.cc:259-266 | no request exceeds a limit if and only if no gap-free stretch of points is wider than it |
| BlockDecoding.ReadsAreNotCapped | core/modbus/app_modbus_client.cc:259-266 | n adjacent one-register points are one request of n registers, for every n up to 65536 |
| ModbusPoller.FindContinuousRegisters | core/modbus/app_modbus_client.cc:123-193 | the empty range past the end; else the longest gap-free run from the index with its start and total width; the end address cannot overflow an int |
| ModbusPoller.ProcessUserData | core/modbus/app_modbus_client.cc:195-241 | leaves the buffer exactly when it is shorter than the walk's reach; otherwise stores each known point's slice at its offset |
| ModbusPoller.ReadAll | core/modbus/app_modbus_client.cc:259-287 | the planning loop terminates and does what the reference cycle over the reference plan does, request by request |
| ModbusPoller.ProcessContinuousRegisters | core/modbus/app_modbus_client.cc:243-288 | on some sorting of the configured points, the requests, stores and fault of the reference cycle |
| RegisterNumbers.PlanInNumbers | core/modbus/app_modbus_client.cc:123-193 | for any list: cut exactly where the next point does not start one register (16 bit) or two (32 bit) after the last; each piece is one request from its first address to its last point's end |
| RegisterNumbers.ReadsInNumbers | core/modbus/app_modbus_client.cc:123-193 | each register is read as many times as there are known points at it plus 32-bit points just before it |
| RegisterNumbers.FitsInNumbers | core/modbus/app_modbus_client.cc:195-243 | a buffer suffices if and only if each point finds its register, and a float both, at the sum of the sizes before it |
| RegisterNumbers.WalkInNumbers | core/modbus/app_modbus_client.cc:195-243 | what one more point adds to a walk: key, type, and for a float two registers, for other known types one, at that sum; nothing for unknown types |
| RegisterNumbers.ReadEachInNumbers | core/modbus/app_modbus_client.cc:195-243 | each point read alone stores the register at its address, a float also the next, under its key and type |
| RegisterNumbers.AbuttingPointsCycle | core/modbus/app_modbus_client.cc:246-288 | abutting points of known types are one request, and the answered cycle stores each point's own registers |
| LogFiles.BackupNames | common/log/custom_rotating_file_sink-inl.h:175-183 | the scan accepts exactly the names with the prefix that end in ".log" or have three letters |
| LogFiles.PruningKeepsNewest | common/log/custom_rotating_file_sink-inl.h:185-196 | pruning leaves the quota or all backups, touches nothing else, and deletes none newer than one kept |
| LogFiles.Prune | common/log/custom_rotating_file_sink-inl.h:170-196 | scan, sort and deletion loop remove exactly the excess head of some age order of the backups |
| RotatingSink.SinkKeepsSizes | common/log/custom_rotating_file_sink-inl.h:103-118 | the running size stays the base file's size and within the limit or the message's own size; a call fails exactly when a needed rename does |
| LogFiles.RotatedNames | common/log/custom_rotating_file_sink-inl.h:76-150 | a name can be produced by a rotation if and only if it is the process name, a calendar date and time of day as formatted, and ".log" |
| LogFiles.StampsAreMoments | common/log/custom_rotating_file_sink-inl.h:76-85 | the time stamps of the model are exactly the formatted dates and times of day |
| RotatingSink.SizesAlwaysAgreeIff | common/log/custom_rotating_file_sink-inl.h:76-205 | over all states, messages and surroundings the running size is right if and only if the base name is none that a rotation can produce, or no backup is kept |
| RotatingSink.RotationPrunes | common/log/custom_rotating_file_sink-inl.h:170-204 | after a rotation at most `max_files_` backups stand beside the base file, and files that are no backups are untouched |
| RotatingSink.RotationKeepsNewest | common/log/custom_rotating_file_sink-inl.h:185-196 | no deleted backup is newer than one that is kept |
| RotatingSink.RotationTracks | common/log/custom_rotating_file_sink-inl.h:127-205 | a rotation to a free name adds the base file to the archive and keeps exactly its newest files, in order of age |
| RotatingSink.SinkTracks | common/log/custom_rotating_file_sink-inl.h:103-118 | an undisturbed call either appends to the base file or archives it and starts a new one with the message |
| RotatingSink.RunKeepsArchive | common/log/custom_rotating_file_sink-inl.h:103-205 | over every undisturbed run all that was written is archive plus base file, with one archived file per rotation and exactly the newest still there |
| RotatingSink.RunKeepsSizes | common/log/custom_rotating_file_sink-inl.h:103-118 | over any run whose rotated names differ from the base name the running size is the base file's size, within the limit or the last message's own size |
| RotatingSink.AccountedIsSuffix | common/log/custom_rotating_file_sink-inl.h:170-205 | when the newest files of the archive are there, dropped files followed by what is read from the directory are all that was written |
| RotatingSink.SurvivorsAreSuffix | common/log/custom_rotating_file_sink-inl.h:103-205 | the contents of all backups, oldest first, and of the base file after such a run are a contiguous suffix of everything written, cut between two files |
| RotatingSink.DistinctSecondsAreFree | common/log/custom_rotating_file_sink-inl.h:134-160 | if no two rotations share a second and there were no backups at first, the rotated name is always free |
| RotatingSink.ReusedNameIff | common/log/custom_rotating_file_sink-inl.h:162-205 | renaming over a backup keeps a suffix of the archive if and only if each older backup equals its successor |
| RotatingHistory.CallInNumbers | common/log/custom_rotating_file_sink-inl.h:102-118 | a call appends if old contents and message fit the limit or the file is empty; otherwise, and only then, the base file is moved away, or emptied when the rename fails; other files are untouched |
| RotatingHistory.RunPacks | common/log/custom_rotating_file_sink-inl.h:102-205 | the files of an undisturbed run are those that packing its messages into files up to the limit makes |
| RotatingHistory.PackedIsWritten | common/log/custom_rotating_file_sink-inl.h:107-117 | packed files, joined, are what was written |
| RotatingHistory.FullFilesWereFull | common/log/custom_rotating_file_sink-inl.h:107-115 | every archived file was not empty and was closed by a message that would have taken it past the limit |
| RotatingHistory.FilesWithinLimit | common/log/custom_rotating_file_sink-inl.h:107-117 | a packed file is within the limit or a single message |
| RotatingHistory.SurvivorsArePacked | common/log/custom_rotating_file_sink-inl.h:102-205 | base file and backups after such a run, from the messages alone: the file being filled and the newest full files, as many as may be kept |
| RotatingFileSink.Sink.Create | common/log/custom_rotating_file_sink-inl.h:27-47 | refused for zero size, more than 200000 files or a failed first rotation; otherwise the opened or rotated directory with its size |
| RotatingFileSink.Sink.Rotate | common/log/custom_rotating_file_sink-inl.h:126-205 | the whole new directory and size, for a successful and for a failed rename |
| RotatingFileSink.Sink.SinkIt | common/log/custom_rotating_file_sink-inl.h:102-118 | the call is one step of the sink relation the theorems are about |
| IcdTheorems.LookupIsEnumerated | core/iec61850/icd_parse.h:280-316 | for any document a looked-up constraint is emitted, under the same path, by the enumeration |
| IcdTheorems.ControlIsEnumerated | core/iec61850/icd_parse.h:239-278 | a DO found to be a control object is also emitted as one by the enumeration |
| IcdTheorems.DoiPassIsRedundantIff | core/iec61850/icd_parse.h:164-197 | over all documents the DOI/DAI pass adds nothing new if and only if the type attribute is not present-but-empty |
| IcdTheorems.NodesAreFcdaAndTemplates | core/iec61850/icd_parse.h:63-212 | as a set, the nodes that parsing a document yields are those of its data sets and of the templates alone |
| IcdTheorems.PathInjective | core/iec61850/icd_parse.h:355-357 | under one logical node a path determines its dot-free DO and DA names |
| IcdTheorems.LookupAgreesWithEnumeration | core/iec61850/icd_parse.h:280-366 | on templates without conflicting duplicates and with dot-free names the lookup yields f if and only if the enumeration emits the path with f, for arbitrary queried names |
| IcdTheorems.AgreementIffDotFree | core/iec61850/icd_parse.h:280-366 | over all templates without conflicting duplicates that take their names from a vocabulary, lookup and enumeration agree on every query if and only if no name in it has a dot or it has no DO names |
| IcdParser.GetDoTypeId | core/iec61850/icd_parse.h:239-261 | nested cursors with early return find the type of the first matching DO in document order |
| IcdParser.IsControlObject | core/iec61850/icd_parse.h:263-278 | the first DOType with the id decides, by class SPC or DPC |
| IcdParser.GetFcFromDoType | core/iec61850/icd_parse.h:280-316 | four nested cursors find the first matching attribute over all matching types, going on past types without one |
| IcdParser.ExtractAllDoDa | core/iec61850/icd_parse.h:318-366 | appends, in document order, the control node and attribute nodes of every DO of every matching type |
| IcdParser.ParseLn | core/iec61850/icd_parse.h:106-198 | one logical node's data set, report, DOI and template results are appended in that order |
| IcdParser.Parse | core/iec61850/icd_parse.h:63-212 | the result is the join of all LN and LN0 results in document order; empty for a file that does not load or has no root |
| IcdDocument.SitesListed | core/iec61850/icd_parse.h:79-117 | the logical nodes parsed are exactly the LN and LN0 children of the devices of servers, one each, in document order, with their IED and device names or the defaults |
| IcdDocument.PathTellsParts | core/iec61850/icd_parse.h:136-143 | an FCDA's path determines device, logical node, data object and attribute, for names without the separators |
| IcdNodes.DocumentInOrder | core/iec61850/icd_parse.h:63-212 | the result holds, in document order and one for each: data sets with the paths of their FCDAs that have an fc, reports with name, data set and flag, and nodes of FCDAs, DOIs and types |
| IcdNodes.TypeNodesListed | core/iec61850/icd_parse.h:318-366 | the enumeration yields one node for each control DO and each attribute with an fc, in the order of types, objects and attributes |
| IcdLookups.TypeIdIsFirst | core/iec61850/icd_parse.h:239-261 | the lookup finds the type of the first DO of the name in document order, or nothing |
| IcdLookups.ControlIsFirst | core/iec61850/icd_parse.h:263-278 | the first DOType with the id decides, by the class SPC or DPC |
| IcdLookups.FcIsFirst | core/iec61850/icd_parse.h:280-316 | the four loops find the first matching attribute in the order of LNodeType, DO, DOType and DA, or nothing |
| Places.ListedUnique | core/iec61850/icd_parse.h:81-200 | what stands at which place determines a result list completely |
| IndexPaths.DecimalRoundTrip | core/iec61850/lec61850Client.cc:311 | the printed element number reads back as the number |
| IndexPaths.PathRoundTrip | core/iec61850/lec61850Client.cc:311 | decoding a printed index path gives the path |
| IndexPaths.PathsDistinct | core/iec61850/lec61850Client.cc:311 | under one node path different index paths print differently |
| MmsFlattening.LeavesReported | core/iec61850/lec61850Client.cc:302-376 | a leaf line with its shown value appears if and only if the index path leads to that leaf and is no longer than the levels left |
| MmsFlattening.LeavesReportedOnce | core/iec61850/lec61850Client.cc:302-376 | no two leaf lines of a walk have the same index path |
| MmsFlattening.LeafLineNamesLeaf | core/iec61850/lec61850Client.cc:302-376 | every leaf line of a log extends the node path by text that reads back as an index path of length at most 11 leading to a leaf with the shown value |
| MmsFlattening.LogNamesLeavesOnce | core/iec61850/lec61850Client.cc:302-376 | no two leaf lines of a log have the same path |
| MmsFlattening.LeafHasLine | core/iec61850/lec61850Client.cc:302-376 | every leaf at an index path of length at most 11 has a line with its printed path and value |
| MmsFlattening.VisitsBounded | core/iec61850/lec61850Client.cc:210-214 | on any value graph with at most b elements a structure, at most b + b^2 + ... visits over the levels left |
| MmsFlattening.BoundIsAttained | core/iec61850/lec61850Client.cc:210-214 | a structure that contains itself b times is visited exactly that often |
| MmsFlattening.RenderBits | core/iec61850/lec61850Client.cc:341-349 | one character per bit, in order |
| MmsFlattening.ParseStructure | core/iec61850/lec61850Client.cc:199-376 | terminates on every value graph and logs exactly the lines of the reference walk, counting its element visits |
| MmsLines.ElementIsLogged | core/iec61850/lec61850Client.cc:302-366 | each leaf within eleven indices has exactly one line, telling its value: signed as is, unsigned as the congruent 64-bit number, bit strings bit by bit |
| MmsLines.LineIsOfElement | core/iec61850/lec61850Client.cc:302-366 | each leaf line is of such an element and tells its value |
| MmsLines.TimeShowsParent | core/iec61850/lec61850Client.cc:350-361 | a time's line is made from the enclosing structure |
| MmsLines.OtherLines | core/iec61850/lec61850Client.cc:208-214 | missing, structure and depth-limit lines stand for exactly the places without element, the structures in reach, and those at eleven indices |
| MmsLines.WalkInOrder | core/iec61850/lec61850Client.cc:302-376 | the lines come in the order of the elements, a structure before what is in it |
| ModbusLink.RunKeepsInvariant | core/modbus/modbus_api.cc:100-126 | in every run the counter is the current streak of failures, and a limited budget bounds failures by successes |
| ModbusLink.ContextsLost | core/modbus/modbus_api.cc:100-178 | in every run the contexts allocated are those freed, the one in use, and one for each creation that failed after allocation |
| ModbusLink.NoContextLostIff | core/modbus/modbus_api.cc:128-178 | every context is freed or in use if and only if no creation, at the start or in an attempting turn, fails after allocation |
| ModbusLink.FailuresWithinBudget | core/modbus/modbus_api.cc:100-126 | with a limited budget all failed attempts number at most the budget times the successes plus one |
| ModbusLink.ExhaustsIff | core/modbus/modbus_api.cc:103-120 | a turn gives up if and only if it runs without a connection after exactly the budgeted streak of failures |
| ModbusLink.ExhaustedForGood | core/modbus/modbus_api.cc:51-126 | after giving up no later event brings a connection or an attempt, and every read and write fails |
| ModbusLink.ModbusApi.CreateModbusContext | core/modbus/modbus_api.cc:128-158 | result of each way the creation can end; a context allocated before a failure is not freed, and the own context is untouched |
| ModbusLink.ModbusApi.ReconnectTurn | core/modbus/modbus_api.cc:100-126 | one loop turn is one step of the link machine |
| ModbusLink.ModbusApi.Transfer | core/modbus/modbus_api.cc:51-97 | a read or write succeeds exactly with a connection and a library success, and a failure drops the connection |
| LinkHistory.ConnectedIff | core/modbus/modbus_api.cc:51-126 | in every run there is a connection if and only if one was built and no read or write has failed since |
| LinkHistory.TransferSucceedsIff | core/modbus/modbus_api.cc:51-97 | a read or write succeeds if and only if there is such a connection and the library succeeds |
| LinkHistory.AttemptsIff | core/modbus/modbus_api.cc:100-126 | a turn tries to connect if and only if not stopped, not connected and within the budget, and records its outcome |
| LinkHistory.FailedTransferReconnects | core/modbus/modbus_api.cc:51-126 | after a failed transfer everything fails until the next turn, which tries to connect |
| BeagleControl.RunKeepsInvariant | sample/61850_demo/beagle_demo.c:37-75 | in every reachable state automatic mode means no controlling client, settings are not negative, toggles alternate at their distances |
| BeagleControl.ToggleIsTurn | sample/61850_demo/beagle_demo.c:296-320 | in every run each toggle is a due turn in automatic mode, with the setting then in force for its direction |
| BeagleControl.TogglesKeepTheirPeriod | sample/61850_demo/beagle_demo.c:296-320 | in every run neighbouring toggles are turns that switch opposite ways, the second no sooner than the 64-bit sum of the first and the setting in force there |
| BeagleControl.ControlIsReleasedByDisconnect | sample/61850_demo/beagle_demo.c:37-75 | between accepted controls of two different clients lies a disconnect of the first |
| BeagleControl.TestsLeaveNoTraceIff | sample/61850_demo/beagle_demo.c:56-75 | at every point of a run the server is as if no test check had been made if and only if each test check meets a controlled server |
| BeagleControl.TestCheckTakesControl | sample/61850_demo/beagle_demo.c:56-75 | a rejected test check on a free server still locks out other clients and stops toggling until its client disconnects |
| BeagleControl.OpCntCountsEdges | sample/61850_demo/beagle_demo.c:306-314 | between two writes the counter grows by the rising edges, in 32-bit arithmetic |
| BeagleControl.OpCntExact | sample/61850_demo/beagle_demo.c:306-314 | barring overflow the counter is exactly the starting value plus the rising edges |
| BeagleControl.WriteSetsOpCnt | sample/61850_demo/beagle_demo.c:164-184 | a non-test write of the counter sets it |
| BeagleControl.Server.ConnectionIndication | sample/61850_demo/beagle_demo.c:37-54 | only the controlling client's disconnect frees control and restores automatic mode |
| BeagleControl.Server.PerformCheck | sample/61850_demo/beagle_demo.c:56-75 | one step of ownership and the answer given |
| BeagleControl.Server.WriteAccess | sample/61850_demo/beagle_demo.c:186-212 | negative values and foreign attributes are refused without change, others set the right period |
| BeagleControl.Server.ServiceTurn | sample/61850_demo/beagle_demo.c:296-320 | one loop turn is one step of the toggle scheduler |
| BeagleHistory.ControlIsHistory | sample/61850_demo/beagle_demo.c:37-75 | in every run the controlling client is the one whose check found everyone before it disconnected and who has not disconnected since |
| BeagleHistory.CheckAcceptedIff | sample/61850_demo/beagle_demo.c:56-75 | a check is accepted if and only if it is no test and control is free or its client's |
| BeagleHistory.DisconnectReleases | sample/61850_demo/beagle_demo.c:37-54 | after the controlling client's disconnect and until the next check any client is accepted and a due turn toggles |
| BeagleHistory.OtherConnectionsIgnored | sample/61850_demo/beagle_demo.c:37-54 | connections that open, or close without control, change nothing |
| BeagleHistory.SettingsAreLastWrites | sample/61850_demo/beagle_demo.c:186-212 | each setting is the last write of a value that is not negative to its attribute, one second at first |
| BeagleHistory.TogglesExactlyWhenDue | sample/61850_demo/beagle_demo.c:294-320 | the LEDs switch at exactly the turns that find control free and the next toggle due, recorded with the period read |
| BeagleHistory.OpCntFromStart | sample/61850_demo/beagle_demo.c:306-314 | without writes the counter is the number of times the LEDs came on |
| Iec104Client.SemaphoreNeverBlocks | core/iec104/iec104Client.cc:108-143 | in every run the semaphore is one plus delivered events minus one inside the section, so a waiting worker gets in |
| Iec104Client.LostConnectionIsSilent | core/iec104/iec104Client.cc:114-115 | after the worker has seen CLOSED or FAILED nothing is sent by anyone until `start` |
| Iec104Client.RestartFailsIff | core/iec104/iec104Client.cc:46-137 | in every run, once the worker has acted on CLOSED or FAILED, the next `start` is fatal if and only if not: `stop` had begun before and has since joined the ended worker |
| Iec104Client.LossWithoutStopIsFinal | core/iec104/iec104Client.cc:46-70 | in every run where `stop` had not begun by then, whatever follows ends the process if and only if it contains a `start`, and nothing is sent |
| Iec104Client.RestartCanSucceed | core/iec104/iec104Client.cc:59-70 | a run in which `stop` begins between the loss and the worker's reaction and later joins it |
| Iec104Client.StopNeverSendsStopDt | core/iec104/iec104Client.cc:59-94 | without a direct call of the public method no run sends STOPDT |
| Iec104Client.NoFlagNoInterrogation | core/iec104/iec104Client.cc:72-78 | unless something sets the STARTDT flag no run sends or schedules an interrogation |
| Iec104Client.InterrogationsBounded | core/iec104/iec104Client.cc:116-125 | over a steady clock window, all but one of the interrogations issued account for interval plus one each of its length |
| Iec104Client.NextWithinInterval | core/iec104/iec104Client.cc:117-124 | after any clock reading the last interrogation is not in the future, and a reading more than an interval later is due |
| Iec104Client.IEC104Client.React | core/iec104/iec104Client.cc:112-125 | the worker's section is one step of the client machine |
| Iec104Client.IEC104Client.StartClient | core/iec104/iec104Client.cc:46-57 | refused while running; with an unjoined thread the process ends; otherwise a worker is created |
| Iec104History.KnowledgeIsHistory | core/iec104/iec104Client.cc:130-137 | in every run the last event is that of the last callback and the flag what it was last set to |
| Iec104History.RunningIff | core/iec104/iec104Client.cc:46-70 | the client runs exactly from a `start` to the next `stop` or reaction to a lost connection |
| Iec104History.SendsExactly | core/iec104/iec104Client.cc:72-129 | each event of a run sends exactly what the run so far demands, at most one thing |
| Iec104History.OpenedIsAnswered | core/iec104/iec104Client.cc:110-113 | a running client answers an opened connection with STARTDT within three worker steps |
| Iec104History.LastGiMoves | core/iec104/iec104Client.cc:116-124 | the last interrogation time is that of the last one tried, or a clock reading before it |
| Iec104Table.PresentIffAdded | core/iec104/iec104Service.cc:23-65 | an address has an entry if and only if it was ever added |
| Iec104Table.EntryIsHistory | core/iec104/iec104Service.cc:23-65 | an entry has type and quality of its last add and value and time of the last operation since that offered this type |
| Iec104Table.TableIsCoherent | core/iec104/iec104Service.cc:23-65 | every entry carries its key as address and a value of its own type |
| Iec104Table.OnlyAddChangesType | core/iec104/iec104Service.cc:47-65 | only adding that address changes a type, and only adding changes the set of addresses |
| Iec104Table.SnapshotUnique | core/iec104/iec104Service.cc:127-133 | a table has one snapshot: each entry once, ascending by address |
| Iec104Table.PackedInOrder | core/iec104/iec104Service.cc:139-173 | whatever the library accepts, the objects of an ASDU come from the snapshot, ascending, none twice |
| Iec104Table.PackedComplete | core/iec104/iec104Service.cc:152-165 | if the library takes everything, no point is missing |
| Iec104Table.PackedAsAccepted | core/iec104/iec104Service.cc:152-165 | each packed object was accepted after those before it, each missing one refused at its turn |
| Iec104Replies.ObjectsTellHistory | core/iec104/iec104Service.cc:148-173 | each object sent has address, type and quality of the last add and the value last offered to that address |
| Iec104Replies.EveryAddressIsSent | core/iec104/iec104Service.cc:148-173 | if the library takes everything, each address ever added is sent |
| Iec104Table.IEC104Server.Snapshot | core/iec104/iec104Service.cc:127-133 | the snapshot lists exactly the table, ascending |
| Iec104Table.IEC104Server.HandleInterrogation | core/iec104/iec104Service.cc:189-210 | qualifier 20 gives a positive confirmation, at most one data ASDU with the snapshot, a termination; any other a refusal |
| Iec104Table.IEC104Server.HandleSingleCommand | core/iec104/iec104Service.cc:212-244 | the table changes only for an activation of an existing single point; the reply in every case |
| RateLimiter.TableIsLastAccepted | common/log/logger.h:110-128 | the table holds for each key the time of its last accepted call |
| RateLimiter.AcceptedAreSpaced | common/log/logger.h:110-128 | under an advancing clock the accepted calls of a key keep its interval |
| RateLimiter.AcceptedInWindow | common/log/logger.h:110-128 | n accepted calls of a key span at least n - 1 intervals |
| RateLimiter.RejectedIff | common/log/logger.h:119-126 | for any clock and interval, a call is rejected if and only if the key's last accepted call is less than the interval ago |
| RateLimiter.KeysAreIndependent | common/log/logger.h:116-125 | the accepted calls of a key are those of the key's calls alone |
| RateLimiter.LogRateLimiter.ShouldLog | common/log/logger.h:113-127 | answer and new table of one call |

## Left out

- Modbus number decoding: a store keeps the registers that were looked at, not the resulting number; the 32-bit integer branches look at one register only.
- Modbus polling object: `AppModbus` has no field that the cycle changes, so its methods are modelled without a class and return what they read and store.
- A walk outside its buffer: the stores of the faulty walk and everything after it in the cycle are not described, since the program's behaviour is undefined from there on.
- Device set-up, thread pool and polling period of `AppModbus::run` and `runTask`.
- Missing `name` or `id` attributes where the parser passes them to `strcmp`: the model's documents always have them.
- Failures of directory listing or deletion during a rotation, and subdirectories in the log directory.
- Write buffering of the log file: every size query in `sink_it_` follows a flush, so files are modelled as written through.
- Backup names in years that are not written with four digits: a formatted second is a calendar date and time in the years 1000 to 9999.
- RotatingSink.RunKeepsArchive: covers, like `SurvivorsAreSuffix`, runs whose renames succeed, with a clock that moves past the last write at each rotation and free rotated names; a failed rename empties the base file (`Sink.Rotate`), and `ReusedNameIff` says what a taken name does.
- RotatingSink.ReusedNameIff: covers directories within the quota before the rotation.
- The `targetPath` branch of `parseStructure`, which no caller uses, and the storing of top-level values in `readAllValues`.
- Identity and lifetime of MMS values: the walk reads values from an arbitrary graph of references and frees nothing.
- Data races: `last_event_`, `ctx_` and the demo server's globals are touched by several threads without a common lock; the models treat each step as atomic.
- ModbusLink.ModbusApi.Transfer: stands for `readRegisters`, `writeRegister` and `writeRegisters`, which differ only in the library call.
- Overflow of the retry counter with an unlimited budget, after 2^31 failed attempts.
- Binary outputs, LEDs, analogue inputs and model attributes of the demo server.
- Adding a point whose type does not go with its value in the 104 server, which reads an inactive union member later.
- Destruction of the 104 client, of the Modbus connection and of the log sink.
- Clock synchronisation, connection requests, raw message logging, start and stop of the 104 server.
- BeagleControl.TogglesKeepTheirPeriod: for a first toggle in the last 2^31 milliseconds of the 64-bit clock it bounds the second by the wrapped sum only, as the code does.
- The configuration reader, the database client, the managers, `ice61850Service.cc`, `app_modbus_service.cc` and the GOOSE and simple-server samples: wiring, thin wrappers or data tables.
