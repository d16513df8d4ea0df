# Verified model of the IoTware microservice firmware

This project models five components of the firmware and proves what they promise. `dafny verify
dfyconfig.toml` checks all of it.

| Module | Component |
|---|---|
| `IwList` | The intrusive doubly linked list, refining a sequence |
| `ServiceTypes`, `TaskLinks`, `TaskIndex`, `Microservice` | Tasks, connect lines, the decision tree over switched-off tasks, port wiring, on/off switching, running |
| `WrappedPort` | How a port is wired out of range |
| `Lifecycle` | Create, run, stop, delete and device-information requests to a service, with the states of its tasks |
| `Fifo`, `FifoConcurrent` | The ring FIFO, first as a bounded queue, then shared by one producer and one consumer |
| `Attributes`, `Messages` | The collaboration message codec: attribute-write, attribute-read and its acknowledgement |
| `Numbers`, `Printf` | Digit printers, the formatter `d_printf`, and `stod` |
| `Parameters` | Typed task parameters and their reports |
| `Dispatch`, `DispatchRequests`, `DispatchRuns`, `DispatchAnswers` | The dispatcher of light-weight messages, what each of its requests amounts to, what its runs keep, and which code answers which request for which reason |
| `Basics` | Bytes, 32-bit arithmetic, shared notions |

## How the source is read

- **Lists.** `IwList` keeps the pointers of the source and proves that they refine a sequence. Everywhere
  else a list is the sequence of its data pointers, head first. The node count of the source is an unsigned
  char: wherever the source reads it, it is the length modulo 256, and what follows from that is stated exactly.
- **Stores through NULL.** `iw_oal_list.c` lines 31, 44 and 46 store through a neighbour that is NULL when a
  list is empty or its last node is removed. The model treats such a store as reaching no list node, and the
  ghost result `nullStore` is true exactly when one is executed. `run_micro_service` reads a task state
  through NULL for a log line when it refuses (line 741); the model only refuses.
- **Heap trees.** `TaskLinks` keeps `next_on`, `next_off` and the payload of each link as mutable fields. A
  ghost value `Shape` describes the structure hanging from a link; `Linked` says that the heap holds it.
- **Two views of a service.** `Microservice.Service` has the pointers, ports and the tree;
  `Lifecycle.Record` has the state of the service, its tasks with their states and parameters, and the sizes
  of the other lists, including what creating twice leaves behind. `Dispatch.Service` is the latter with an id.
  The two agree where both model an operation: `View` and `Abs` read the first as the second without
  parameters, and the contracts of running, starting, resuming and switching on or off say that
  under this reading they are the functions of `Lifecycle` (`Lifecycle.RunBare` and `Lifecycle.OnOffBare`:
  leaving the parameters out commutes with these). So the port results hold for what the dispatcher does.
- **Contracts in constants.** Results about states, interfaces, codes, bytes and digits are stated in the constants of
  the source (`NOT_READY` and the other states, 20 and 24, 404, bit positions, character codes), not through the
  functions that compute with them.
- **Integers.** `uint32_t` and `int` arithmetic is modulo 2^32 and two's complement where it is computed
  with (`Microservice`, `Fifo`, `Numbers`, `Printf`, `Parameters`). Bit fields are least significant first and
  pointers are four bytes, as on the ARM GCC target.
- **Runs of the dispatcher** are sequences of events: a message arrives, together with the outcomes of the task
  initialisations that it causes, or a kernel task sets the state of its own task between two messages
  (`Dispatch.Event`). `Dispatch.Safe` names the events considered: those on which the source does not read
  through NULL, except for the log line of a refused run (`iw_fw_microservices.c` line 741), without the
  output-parameter read.
- **Foreign code** is a parameter or absent: kernel queues are absent, kernel tasks only set states, whether a
  task's initialisation fails is a parameter, `atol`, `atoi` and the bytes of non-integer values are parameters.

## Results that differ from what one would expect

- A task that cannot be switched off but is off all the same makes every lookup fail, except when it is the
  last one of the list, which is never tested (`TaskIndex.IndexExact`).
- The delete-all loop empties a list exactly when it has at most 255 nodes (`IwList.List.DeleteAll`), and the
  lifecycle invariant holds over all runs exactly when one create adds at most 127 entries per list
  (`Lifecycle.InvariantIffSmall`): a device-information request to a created service creates a second time
  before it deletes.
- A tree is released without releasing anything twice exactly when the wiring lists stored at its leaves are
  distinct (`TaskIndex.FreedOnce`).
- The FIFO holds one block less than its slots, for every slot count from 1 up to 2^32 - 1.
- Packed counts stand for 1 to 256 and packed value lengths for 1, 2, 4 and 8, and for nothing else
  (`Attributes.AttrCountRoundTrip`, `Attributes.ValueLengthRoundTrip`).
- The port tests `count < port + 1` are in 32 bits, so the port 2^32 - 1 passes them whatever the count is. A
  wired port has its input port in range exactly when that is not 2^32 - 1
  (`Microservice.Service.FanOutInRange`). The install guard is what keeps a line with the output port 2^32 - 1
  from being stored. All ports are in range, whatever is stored and switched, when every registered line has
  another input port or that output port (`Microservice.Service.FanOutAllInRange`), and each
  registered line that has not leads out of range once it is stored for the tasks that stay off and
  the service is started (`WrappedPort.StoreAndStart`).
- Making the task links of a service that has a tree keeps the old root alone: everything that hung below it is
  unreachable afterwards (`TaskLinks.MakeTaskLinks`). Device information does this to a created service.
- The field width of the formatter is subtracted in an int: a width more than 2^31 below what the text and the
  sign need wraps and fills up to 2^31 - 1 characters instead of none (`Printf.WidthExact`, `Printf.LeastWidth`).
- A parameter list of 256 entries counts as empty, so nothing is found in it (`Parameters.FindParam`).
- Right after a service has been started, switching a task on is refused exactly when it was started with the
  service, until its own kernel task has stopped it (`DispatchRuns.RunThenOn`).
- Resuming a stopped service makes tasks that were switched off run: they then count as on, and switching
  them on is refused, unlike tasks that never ran (`Lifecycle.ResumeThenOn`).
- A request that names several services is answered by the code of the last one that succeeds or does not exist,
  whatever became of the others (`DispatchAnswers.OneByOne`).
- A request without a text for its dri still takes effect; only the handlers that respond themselves answer it,
  without a dri (`DispatchRuns.OneReplyEach`).

## Model

| member | source | states |
|---|---|---|
| IwList.List.Add | IotwareFW/oal/iw/iw_oal_list.c:29-34 | Adding prepends the node, keeps `next` and `previous` mutually inverse, and counts modulo 256; the store through NULL is executed exactly on an empty list |
| IwList.List.Remove | IotwareFW/oal/iw/iw_oal_list.c:42-50 | Removing takes out exactly the given member and keeps the list well formed; the store through NULL is executed exactly for the last node |
| IwList.AddListNode | IotwareFW/oal/iw/iw_oal_list.c:24-35 | NULL arguments fail and change nothing; otherwise the list is the node followed by the old list |
| IwList.RemoveListNode | IotwareFW/oal/iw/iw_oal_list.c:37-51 | NULL arguments fail and change nothing; otherwise exactly the given member is gone |
| IwList.InitList | IotwareFW/oal/iw/iw_oal_list.c:13-22 | A NULL list fails; otherwise the list is empty |
| IwList.List.DeleteAll | IotwareFW/include/iw_fw_types_internal.h:69-74 | The delete-all loop terminates, removes the first (length mod 256) nodes in order, and empties the list exactly up to 255 nodes |
| IwList.List.Collect | IotwareFW/include/iw_fw_types_internal.h:62-67 | The for-each loop terminates and visits the data in sequence order, each once |
| IwList.NoCycle | IotwareFW/oal/iw/iw_oal_list.c:24-51 | Following `next` from any member passes every later member once and ends in NULL |
| TaskLinks.FindTaskLinks | IotwareFW/Microservice/SMFW/iw_fw_microservices.c:1214-1226 | The search returns exactly the links that carry the given task, in the order it collects them, in front of the list passed in |
| TaskLinks.CarriersAreLeaves | IotwareFW/Microservice/SMFW/iw_fw_microservices.c:1237-1249 | While building, the links carrying the last task so far are exactly the current leaves, and tasks not yet added are carried by none |
| TaskLinks.CarrierIsRoot | IotwareFW/Microservice/SMFW/iw_fw_microservices.c:1214-1226 | In a built tree only the root carries the first task |
| TaskLinks.LeavesAreLinks | IotwareFW/Microservice/SMFW/iw_fw_microservices.c:1239-1249 | Those links are distinct, so no link is extended twice |
| TaskLinks.LeafCount | IotwareFW/Microservice/SMFW/iw_fw_microservices.c:1228-1257 | A tree in level form has 2^k leaves, k being the number of offloadable tasks on the levels above the last |
| TaskLinks.FrontierStep | IotwareFW/Microservice/SMFW/iw_fw_microservices.c:1239-1249 | Extending one leaf keeps the half-built level form, with one leaf less to do |
| TaskLinks.AttachLinks | IotwareFW/Microservice/SMFW/iw_fw_microservices.c:1241-1248 | Extending a leaf by fresh links keeps the structure a tree: no sharing, no cycle, and just the new links added |
| TaskLinks.AttachLinked | IotwareFW/Microservice/SMFW/iw_fw_microservices.c:1241-1248 | The stores into one link change the heap structure as the extension of that leaf does, and nowhere else |
| TaskLinks.ExtendLink | IotwareFW/Microservice/SMFW/iw_fw_microservices.c:1240-1248 | The loop body gives one leaf an on-child and, exactly if its task is offloadable, an off-child, over whatever it had for children |
| TaskLinks.AddTaskLink | IotwareFW/Microservice/SMFW/iw_fw_microservices.c:1228-1257 | While building, every leaf is extended by one level of links carrying the next task; on an empty tree the root is made first; the root of a built tree gets new children in place of all that hung there; a task that no link carries changes nothing |
| TaskLinks.MakeTaskLinks | IotwareFW/Microservice/SMFW/iw_fw_microservices.c:1259-1287 | For at least two tasks, a tree whose level k carries task k, with off-children exactly at offloadable tasks and an extra task-less level exactly if the last is offloadable, and 2^(offloadable tasks) leaves; otherwise no tree. Where there is a tree already it is built again below the old root, the only old link that stays |
| TaskLinks.LeafPerOffloadableSet | IotwareFW/Microservice/SMFW/iw_fw_microservices.c:1282-1286 | The complete tree has one leaf for every set of offloadable tasks |
| TaskIndex.FindLastTaskLink | IotwareFW/Microservice/SMFW/iw_fw_microservices.c:1309-1325 | The loop ends at the link that the on/off decisions lead to, or at NULL, and tests no task-less link |
| TaskIndex.WalkFails | IotwareFW/Microservice/SMFW/iw_fw_microservices.c:1314-1324 | A lookup fails exactly when a tested task without an off-branch is off; otherwise it ends at a leaf |
| TaskIndex.WalkInjective | IotwareFW/Microservice/SMFW/iw_fw_microservices.c:1314-1324 | Two successful lookups end at the same leaf exactly when they agree on every tested task |
| TaskIndex.WalkOnto | IotwareFW/Microservice/SMFW/iw_fw_microservices.c:1314-1324 | Every leaf is reached by some set of offloadable tasks |
| TaskIndex.IndexExact | IotwareFW/Microservice/SMFW/iw_fw_microservices.c:1309-1380 | For every off-set: rejected exactly when it holds a non-offloadable task other than the last, else it leads to the leaf of its offloadable members and to no other |
| TaskIndex.DelTaskLink | IotwareFW/Microservice/SMFW/iw_fw_microservices.c:906-922 | Teardown terminates and releases what the tree holds in the stated order |
| TaskIndex.TeardownCounts | IotwareFW/Microservice/SMFW/iw_fw_microservices.c:906-922 | Each link is released exactly once and each wiring list as often as it is stored |
| TaskIndex.FreedOnce | IotwareFW/Microservice/SMFW/iw_fw_microservices.c:910-916 | Nothing is released twice exactly when the stored wiring lists are distinct |
| TaskIndex.ChildrenFirst | IotwareFW/Microservice/SMFW/iw_fw_microservices.c:917-921 | Every subtree is released in one stretch that ends with its own root |
| Microservice.Service.AddNewTask | IotwareFW/Microservice/SMFW/iw_fw_microservices.c:58-124 | A task is prepended with its index and NULL ports, or refused exactly when its message port is no input port |
| Microservice.Service.GetTaskInfoByName | IotwareFW/Microservice/SMFW/iw_fw_microservices.c:235-249 | The first task in list order with the name, nothing for an empty name |
| Microservice.PassesExactly | IotwareFW/Microservice/SMFW/iw_fw_microservices.c:1196-1199 | A port passes the test exactly when it exists or is 2^32 - 1 |
| Microservice.Service.AddConnectLine | IotwareFW/Microservice/SMFW/iw_fw_microservices.c:1191-1212 | A line is registered exactly when both tasks exist and both ports pass the 32-bit test; the lines stay harmless (input port not 2^32 - 1, or output port 2^32 - 1) exactly when the new one is |
| Microservice.Service.AddConnectLines | IotwareFW/Microservice/SMFW/iw_fw_microservices.c:1191-1212 | After any sequence of registrations all lines are harmless exactly when those registered were |
| Microservice.Service.MakeTaskLinks | IotwareFW/Microservice/SMFW/iw_fw_microservices.c:1259-1287 | After building, the tree implements the empty index |
| Microservice.Service.SetConnectLink | IotwareFW/Microservice/SMFW/iw_fw_microservices.c:1345-1380 | Storing updates exactly the index entry of the offloadable members of the named set, or nothing when the set is rejected; names of no task are skipped |
| Microservice.Service.SetConnectLinks | IotwareFW/Microservice/SMFW/iw_fw_microservices.c:1345-1380 | Any sequence of stores leaves the tree implementing the index that the stores build |
| Microservice.LastStoreWins | IotwareFW/Microservice/SMFW/iw_fw_microservices.c:1368-1373 | After any sequence of stores a set has the wiring stored last for it, whatever was stored for other sets |
| Microservice.Service.StoreKeepsIndex | IotwareFW/Microservice/SMFW/iw_fw_microservices.c:1368-1373 | The leaf of an accepted off-set is the leaf of its own index entry and of no other |
| Microservice.InstalledIsLast | IotwareFW/Microservice/SMFW/iw_fw_microservices.c:1393-1397 | A port holds the last line in list order that names it, or else what it held before |
| Microservice.Service.SetOutputConnectLine | IotwareFW/Microservice/SMFW/iw_fw_microservices.c:1382-1399 | Said of the index alone: the lines of the offloadable tasks that are NOT_READY or STOPPED are installed in order, the current link is their leaf; without a leaf nothing changes |
| Microservice.Service.SelectedIsLastStored | IotwareFW/Microservice/SMFW/iw_fw_microservices.c:1382-1391 | The wiring selected is the one stored last for the offloadable tasks now off |
| Microservice.Service.TaskOnOff | IotwareFW/Microservice/SMFW/iw_fw_microservices.c:1128-1189 | The task changes as `Lifecycle.OnOff` says. ON succeeds exactly for a task that can be switched and is NOT_READY or STOPPED, OFF for any that can be switched; OFF clears the ports of the switched one and installs the wiring of the enlarged off-set; ON keeps the selection |
| Microservice.Service.RunTask | IotwareFW/Microservice/SMFW/iw_fw_microservices.c:1088-1126 | Starts a NOT_READY or STOPPED task, refuses any other unless forced, and leaves a failed one STOPPED |
| Microservice.Service.RunMicroService | IotwareFW/Microservice/SMFW/iw_fw_microservices.c:689-746 | The states of the service and of every task become those of `Lifecycle.RunSlot`, also after a failed start; a created service starts exactly when every initially active task can, and is then wired for them; a stopped one resumes, after which just the tasks that are NOT_READY count as off; others are refused |
| Microservice.Service.StartMicroService | IotwareFW/Microservice/SMFW/iw_fw_microservices.c:699-725 | Starting runs the initially active tasks in order up to the first failure, as `Lifecycle.StartTasks` does, and installs their wiring, or leaves the service STOPPED and the ports alone |
| Microservice.Service.FanOutInRange | IotwareFW/Microservice/SMFW/base_task_type1.c:60-65 | In every reachable state a wired port holds a line that starts there and ends at a task of the service, and its input port is below the number of input queues there exactly when it is not 2^32 - 1 |
| Microservice.Service.FanOutAllInRange | IotwareFW/Microservice/SMFW/base_task_type1.c:60-65 | In every reachable state all fan-outs are in range when every registered line is harmless |
| WrappedPort.StoreAndStart | IotwareFW/Microservice/SMFW/iw_fw_microservices.c:1345-1399 | For every service with a tree: a registered line that is not harmless, stored for the set of tasks that stay off, puts a fan-out out of range when the service is started |
| WrappedPort.RunOutOfRange | IotwareFW/Microservice/SMFW/iw_fw_microservices.c:1196-1199 | There is such a service and such a line |
| Microservice.Service.Clear | IotwareFW/Microservice/SMFW/iw_fw_microservices.c:970-1024 | Deleting releases the tree and leaves no tree and no current link; of tasks and lines the first (length mod 256) go, so that both lists are empty exactly up to 255 entries each |
| Lifecycle.Record.CreateMicroService | IotwareFW/Microservice/SMFW/iw_fw_microservices.c:627-643 | Only a service that is not ready is created, and if it was empty then holds one entry for each in the recipe |
| Lifecycle.Record.RunMicroService | IotwareFW/Microservice/SMFW/iw_fw_microservices.c:689-746 | Starting a created service, resuming a stopped one, refusing any other, with the states of the service and of its tasks, also after a failed start |
| Lifecycle.StartsExactly | IotwareFW/Microservice/SMFW/iw_fw_microservices.c:699-714 | Starting succeeds exactly when every task that is on starts |
| Lifecycle.StartExact | IotwareFW/Microservice/SMFW/iw_fw_microservices.c:699-714 | The tasks that are on are run up to and including the first failure, and no other changes |
| Lifecycle.CreatedStarts | IotwareFW/Microservice/SMFW/iw_fw_microservices.c:689-725 | In every run a created service starts exactly when no task that is on aborts, and then exactly these have a kernel task and are CREATED |
| Lifecycle.CreateThenRun | IotwareFW/Microservice/SMFW/iw_fw_microservices.c:627-725 | After create and run exactly the tasks defined to be on have started; each is at the place and has the index and parameters of its definition |
| Lifecycle.SwitchDecidesStart | IotwareFW/Microservice/SMFW/iw_fw_microservices.c:1128-1189 | Switching a task of a created service on or off decides whether run starts it |
| Lifecycle.ResumeThenOn | IotwareFW/Microservice/SMFW/iw_fw_microservices.c:726-739 | After resuming, a task that was STOPPED runs and refuses to be switched on; one that is NOT_READY does not |
| Lifecycle.RunBare | IotwareFW/Microservice/SMFW/iw_fw_microservices.c:689-746 | Running a service without the parameters of its tasks gives the result of running it, without the parameters, and succeeds alike |
| Lifecycle.OnOffBare | IotwareFW/Microservice/SMFW/iw_fw_microservices.c:1128-1189 | The same for switching a task on or off |
| Lifecycle.Record.StopMicroService | IotwareFW/Microservice/SMFW/iw_fw_microservices.c:748-839 | Stop drains the contents by their 8-bit counts and creates afresh: a small service is then as just created |
| Lifecycle.Record.DelMicroService | IotwareFW/Microservice/SMFW/iw_fw_microservices.c:960-1029 | Delete leaves the service NOT_READY in every state, without tree and without the first (length mod 256) entries of each list: a small service is empty |
| Lifecycle.Record.DeviceInformation | IotwareFW/Microservice/SMFW/iw_fw_microservices.c:576-620 | A service that is not running is created once more and deleted |
| Lifecycle.DeleteAll | IotwareFW/include/iw_fw_types_internal.h:69-74 | The loop leaves the entries beyond the 8-bit count |
| Lifecycle.StepKeepsInv | IotwareFW/Microservice/SMFW/iw_fw_microservices.c:627-1029 | Each request keeps: not ready means empty, otherwise exactly one create's tasks with user and static parameters untouched, and idle ones until the service runs; create from NOT_READY and stop from any state leave one task for each in the recipe, with its index, parameters and initial state; delete empties from any state; device-information leaves RUNNING alone and empties any other |
| Lifecycle.RunKeepsInv | IotwareFW/Microservice/SMFW/iw_fw_microservices.c:627-1029 | The same over every sequence of requests |
| Lifecycle.InvariantIffSmall | IotwareFW/Microservice/SMFW/iw_fw_microservices.c:576-620 | The invariant holds over all sequences exactly when create adds at most 127 entries to each list |
| Fifo.Fifo.Put | IotwareFW/oal/iw/iw_oal_fifo.c:51-61 | Appends the block exactly when fewer than block_count - 1 are held, else changes nothing |
| Fifo.Fifo.Get | IotwareFW/oal/iw/iw_oal_fifo.c:63-72 | Hands out the oldest block exactly when there is one |
| Fifo.Fifo.Count | IotwareFW/oal/iw/iw_oal_fifo.c:74-85 | The number of blocks held, also where the 32-bit sum wraps |
| Fifo.Fifo.Flush | IotwareFW/oal/iw/iw_oal_fifo.c:87-91 | The queue is empty afterwards |
| Fifo.InlineMemcpy | IotwareFW/oal/iw/iw_oal_fifo.c:29-49 | Word-wise then byte-wise copying copies exactly the given range |
| Fifo.CutUpdate | IotwareFW/oal/iw/iw_oal_fifo.c:13-16 | Overwriting one slot leaves every other slot as it was |
| Fifo.RunPush | IotwareFW/oal/iw/iw_oal_fifo.c:51-61 | Filling the slot at put_pos extends the queue by one block at its end |
| Fifo.RunPop | IotwareFW/oal/iw/iw_oal_fifo.c:63-72 | Advancing get_pos takes exactly the first block off the queue |
| FifoConcurrent.StepKeepsInv | IotwareFW/oal/iw/iw_oal_fifo.c:51-91 | Each atomic step of either side keeps the invariant |
| FifoConcurrent.CheckPutKeepsInv | IotwareFW/oal/iw/iw_oal_fifo.c:53-54 | The producer is refused exactly when block_count - 1 blocks are held |
| FifoConcurrent.CheckGetKeepsInv | IotwareFW/oal/iw/iw_oal_fifo.c:65 | The consumer is refused exactly when no block is held |
| FifoConcurrent.CopyPutKeepsInv | IotwareFW/oal/iw/iw_oal_fifo.c:56 | Copying a unit in touches no queued block |
| FifoConcurrent.CopyGetKeepsInv | IotwareFW/oal/iw/iw_oal_fifo.c:67 | Each unit copied out belongs to the oldest queued block |
| FifoConcurrent.PosApart | IotwareFW/oal/iw/iw_oal_fifo.c:13-16 | Blocks fewer than block_count apart lie in different slots, which do not overlap |
| FifoConcurrent.DeliveredIsPrefix | IotwareFW/oal/iw/iw_oal_fifo.c:51-91 | In every interleaving what left the queue is, in order and untorn, a prefix of what was put; at most block_count - 1 blocks are held |
| FifoConcurrent.QueueStep | IotwareFW/oal/iw/iw_oal_fifo.c:51-91 | Of all steps only the last of each operation changes the queue: put appends its block, get hands out the oldest, flush keeps what was put since it read put_pos |
| FifoConcurrent.PutKeepsBlock | IotwareFW/oal/iw/iw_oal_fifo.c:51-61 | The block appended is the one that put was given |
| FifoConcurrent.FlushExact | IotwareFW/oal/iw/iw_oal_fifo.c:87-91 | In every run a flush empties the queue of everything in it when the flush began; what is put meanwhile stays, in order |
| FifoConcurrent.NeverSameSlot | IotwareFW/oal/iw/iw_oal_fifo.c:56-67 | The slot being written is never the slot being read |
| Attributes.AttrCountRoundTrip | IotwareFW/Microservice/DCFW/iw_fw_collabomsg_internal.c:91-105 | Packed counts round trip, and real ones exactly from 1 to 256 |
| Attributes.RealValueLength | IotwareFW/Microservice/DCFW/iw_fw_collabomsg_internal.c:113-119 | The loop computes the power of two, in size_t |
| Attributes.ValueLengthRoundTrip | IotwareFW/Microservice/DCFW/iw_fw_collabomsg_internal.c:113-142 | Packed lengths round trip, and real ones exactly for 1, 2, 4 and 8 |
| Attributes.AttributeValuesSerializeSize | IotwareFW/Microservice/DCFW/iw_fw_collabomsg_internal.c:186-194 | The size computed is the number of bytes that serializing writes |
| Attributes.AttributeValuesSerialize | IotwareFW/Microservice/DCFW/iw_fw_collabomsg_internal.c:203-217 | The loop writes the encoding at the cursor and nothing else |
| Attributes.AttributeValuesParse | IotwareFW/Microservice/DCFW/iw_fw_collabomsg_internal.c:249-272 | The loop returns the attributes that the bytes decode to, nothing if not one byte was received |
| Attributes.DecodeEncoded | IotwareFW/Microservice/DCFW/iw_fw_collabomsg_internal.c:203-272 | Parsing undoes serializing and leaves what follows |
| Attributes.EncodeDecoded | IotwareFW/Microservice/DCFW/iw_fw_collabomsg_internal.c:203-272 | Serializing what was parsed gives back exactly the bytes consumed |
| Attributes.EncodedValuesAt | IotwareFW/Microservice/DCFW/iw_fw_collabomsg_internal.c:203-217 | In the bytes written each attribute is at its place: id in the low six bits, packed length above, then 1, 2, 4 or 8 value bytes in order |
| Attributes.DecodedValuesAt | IotwareFW/Microservice/DCFW/iw_fw_collabomsg_internal.c:249-272 | What parsing returns is at these places in the buffer |
| Attributes.AttributesSerialize | IotwareFW/Microservice/DCFW/iw_fw_collabomsg_internal.c:172-177 | One packed byte for each attribute, in order |
| Attributes.AttributesParse | IotwareFW/Microservice/DCFW/iw_fw_collabomsg_internal.c:226-240 | One attribute for each byte, in order |
| Attributes.AttributesRoundTrip | IotwareFW/Microservice/DCFW/iw_fw_collabomsg_internal.c:172-240 | Both directions of the round trip for attributes without values |
| Messages.HeaderRoundTrip | IotwareFW/Microservice/DCFW/iw_fw_collabomsg_internal.h:26-31 | The header bit fields and the byte determine each other |
| Messages.WriteSerialize | IotwareFW/Microservice/DCFW/iw_fw_msg_id_x15.c:47-61 | Serializing attribute-write yields its encoding: every bit field at its place in the four head bytes, then each attribute byte and its value bytes in order |
| Messages.WriteParse | IotwareFW/Microservice/DCFW/iw_fw_msg_id_x15.c:63-92 | Parsing yields the decoded message, whose fields are those at their places in the buffer, or as much as the received size allows |
| Messages.WriteLayout | IotwareFW/Microservice/DCFW/iw_fw_collabomsg_internal.h:26-31 | The encoding bit by bit: ack, id, dup and qos in byte 0, then the other head fields, then the attributes |
| Messages.WriteDecodeEncoded | IotwareFW/Microservice/DCFW/iw_fw_msg_id_x15.c:47-92 | Parse undoes serialize |
| Messages.WriteEncodeDecoded | IotwareFW/Microservice/DCFW/iw_fw_msg_id_x15.c:47-92 | Serializing the parse of a buffer gives back the prefix consumed |
| Messages.WritePrefixFree | IotwareFW/Microservice/DCFW/iw_fw_msg_id_x15.c:47-61 | No encoding is a prefix of another, and equal encodings mean equal messages |
| Messages.ReadSerialize | IotwareFW/Microservice/DCFW/iw_fw_msg_id_x16.c:49-62 | Serializing attribute-read yields its encoding: every bit field at its place, then one byte for each attribute |
| Messages.ReadParse | IotwareFW/Microservice/DCFW/iw_fw_msg_id_x16.c:64-91 | Parsing yields the decoded message, whose fields are those at their places in the buffer, or as much as the received size allows |
| Messages.ReadLayout | IotwareFW/Microservice/DCFW/iw_fw_msg_id_x16.c:49-62 | The same for attribute-read |
| Messages.ReadDecodeEncoded | IotwareFW/Microservice/DCFW/iw_fw_msg_id_x16.c:49-91 | Parse undoes serialize |
| Messages.ReadEncodeDecoded | IotwareFW/Microservice/DCFW/iw_fw_msg_id_x16.c:49-91 | Serializing the parse of a buffer gives back the prefix consumed |
| Messages.ReadPrefixFree | IotwareFW/Microservice/DCFW/iw_fw_msg_id_x16.c:49-62 | No encoding is a prefix of another |
| Messages.ReadAckSerialize | IotwareFW/Microservice/DCFW/iw_fw_msg_id_x16.c:108-122 | Serializing the acknowledgement yields its encoding, with the return code in the high bits of byte 1, and no task id |
| Messages.ReadAckParse | IotwareFW/Microservice/DCFW/iw_fw_msg_id_x16.c:124-151 | Parsing yields the decoded message, whose fields are those at their places in the buffer, or as much as the received size allows |
| Messages.ReadAckLayout | IotwareFW/Microservice/DCFW/iw_fw_msg_id_x16.c:108-122 | The same for the acknowledgement, whose head has a return code and no task id |
| Messages.ReadAckDecodeEncoded | IotwareFW/Microservice/DCFW/iw_fw_msg_id_x16.c:108-151 | Parse undoes serialize |
| Messages.ReadAckEncodeDecoded | IotwareFW/Microservice/DCFW/iw_fw_msg_id_x16.c:108-151 | Serializing the parse of a buffer gives back the prefix consumed |
| Messages.ReadAckPrefixFree | IotwareFW/Microservice/DCFW/iw_fw_msg_id_x16.c:108-122 | No encoding is a prefix of another |
| Numbers.PrintDigits | IotwareFW/oal/iw/iw_debug.c:27-126 | Each printer writes the numeral and a terminator and returns its length, for every 32-bit number |
| Numbers.CollectDigits | IotwareFW/oal/iw/iw_debug.c:53-66 | The scratch buffer of 20 characters is never exceeded: at most 11 digits |
| Numbers.NumeralExact | IotwareFW/oal/iw/iw_debug.c:53-66 | The numeral is the positional notation of its number: at each place the character code of the digit there, and as many places as the number needs |
| Numbers.NoLeadingZero | IotwareFW/oal/iw/iw_debug.c:53-66 | No leading zero but for zero itself |
| Numbers.NumeralLength | IotwareFW/oal/iw/iw_debug.c:53-66 | The number of digits is bounded by the size of the number |
| Numbers.ParseNumber | IotwareFW/oal/iw/iw_debug.c:614-663 | The loops of stod compute its specification: sign, hexadecimal mark, digits up to the first other character, modulo 2^32 |
| Numbers.AccumulateNumeral | IotwareFW/oal/iw/iw_debug.c:632-661 | Reading a numeral gives its number modulo 2^32 |
| Numbers.HexRoundTrip | IotwareFW/oal/iw/iw_debug.c:79-126 | stod of a hexadecimal mark and what prt16 or PRT16 print is the number, for numbers below 2^31 exactly |
| Numbers.DecRoundTrip | IotwareFW/oal/iw/iw_debug.c:614-663 | stod reads a sign, leading zeros and a numeral as the signed number |
| Numbers.StodExact | IotwareFW/oal/iw/iw_debug.c:614-663 | stod reads a sign, skips to the first digit, reads zeros and a numeral in decimal or behind a hexadecimal mark, and ignores whatever follows from the first character on that is no digit |
| Numbers.StodOfNone | IotwareFW/oal/iw/iw_debug.c:614-663 | It reads 0 where no digit stands |
| Printf.DPrintf | IotwareFW/oal/iw/iw_debug.c:349-504 | The scanner and its loops emit exactly the specified characters, for every format and all arguments; `Printf.ConversionEmits` says which they are |
| Printf.EmitField | IotwareFW/oal/iw/iw_debug.c:466-501 | The field is laid out by the length, fill and sign computed in 32 bits |
| Printf.LayoutIsField | IotwareFW/oal/iw/iw_debug.c:466-501 | Every field, for both justifications, both fills and any width and precision: its length and where text, sign and fill characters stand |
| Printf.WidthExact | IotwareFW/oal/iw/iw_debug.c:471-483 | Without a negative precision a field is max(width, kept text + sign) wide exactly when the width is 0 or at most 2^31 below what text and sign need |
| Printf.LeastWidth | IotwareFW/oal/iw/iw_debug.c:471-489 | The least width fills up to 2^31 characters |
| Printf.ScanSpecAt | IotwareFW/oal/iw/iw_debug.c:373-405 | The scan of a conversion specification |
| Printf.ScanWritten | IotwareFW/oal/iw/iw_debug.c:373-405 | Scanning a specification as it is written, with any flag, fill, width and precision, as digits or as an argument, gives what it specifies and stops right after it |
| Printf.FormatPlain | IotwareFW/oal/iw/iw_debug.c:357-364 | Text without a percent sign is emitted as it is |
| Printf.FormatConversion | IotwareFW/oal/iw/iw_debug.c:349-504 | A written specification and a conversion character (none of a digit, '-', '*', '.') emit the conversion of the next argument, and then the rest of the format with the arguments left |
| Printf.FormatPercent | IotwareFW/oal/iw/iw_debug.c:367-372 | Two percent signs emit one |
| Printf.ConversionIsField | IotwareFW/oal/iw/iw_debug.c:407-501 | Every conversion is a field with its kept text, sign and fill characters in their places |
| Printf.ConversionEmits | IotwareFW/oal/iw/iw_debug.c:349-504 | Every conversion with any flags, width and precision: %d, %u, %o, %x and %X emit the numeral of the signed or unsigned word in base 10, 10, 8, 16 and 16, %c its low byte, %s its string, any other its first character; which conversions ignore precision or zero flag; and where text, sign and fill stand |
| Printf.BareConversion | IotwareFW/oal/iw/iw_debug.c:349-504 | Without flags, width and precision just these characters and the sign |
| Printf.PrintThenRead | IotwareFW/oal/iw/iw_debug.c:349-663 | stod reads back what %d, %u, %x and %X print |
| Printf.FormatUnfinished | IotwareFW/oal/iw/iw_debug.c:357-411 | A specification that the format ends in emits a percent sign |
| Printf.DecimalRoundTrip | IotwareFW/oal/iw/iw_debug.c:349-504 | For every int and every width w below 2^31, "%0wd" emits max(w, digits + sign) characters and stod reads them back as the int |
| Parameters.GetParameterFromParamList | IotwareFW/Microservice/SMFW/iw_fw_microservices.c:305-325 | The first parameter with the alias; none for an empty alias or a list whose 8-bit count is 0 |
| Parameters.WriteThenRead | IotwareFW/Microservice/SIFW/task_lwmsg_dist.c:83-140 | Reading back a written integer parameter gives the one number in the range of its type congruent to the text value |
| Parameters.WrittenBytes | IotwareFW/Microservice/SIFW/task_lwmsg_dist.c:83-140 | A text sets 1, 2 or 4 bytes for the integer types, low byte first, what the library gives for the others, and nothing for a type that is none |
| Parameters.FindParamExact | IotwareFW/Microservice/SMFW/iw_fw_microservices.c:305-325 | The lookup finds exactly the first parameter with the alias |
| Parameters.LoadStored | IotwareFW/Microservice/SMFW/iw_fw_microservices.c:409-446 | Stored bytes read back as the stored number |
| Parameters.ReportNamedExact | IotwareFW/Microservice/SIFW/task_lwmsg_dist.c:300-313 | A report by names holds exactly the values of the parameters that the names find |
| Parameters.ReportAllExact | IotwareFW/Microservice/SIFW/task_lwmsg_dist.c:281-292 | A full report holds under each alias the value of the last parameter that has it |
| Parameters.SetThenFind | IotwareFW/Microservice/SIFW/task_lwmsg_dist.c:181-187 | A pair changes the one parameter that its key finds, and no lookup |
| Dispatch.Dispatcher.LwmsgOperation | IotwareFW/Microservice/SIFW/task_lwmsg_dist.c:32-75 | Each service named is stepped in turn, tasks included, each time with its own outcome; the code is that of the last item that leaves one |
| Dispatch.Dispatcher.LwmsgParamSet | IotwareFW/Microservice/SIFW/task_lwmsg_dist.c:150-218 | The set request has its specified effect and code |
| Dispatch.Dispatcher.LwmsgParamRead | IotwareFW/Microservice/SIFW/task_lwmsg_dist.c:229-338 | A read responds itself, with the values of the parameters found, exactly when it reports 300 |
| Dispatch.Dispatcher.LwmsgOffloading | IotwareFW/Microservice/SIFW/task_lwmsg_dist.c:431-482 | Tasks are switched up to the first that is missing or refuses |
| Dispatch.Dispatcher.HandleMessage | IotwareFW/Microservice/SIFW/task_lwmsg_dist.c:499-569 | One turn: the message has its effect, and is answered once, by the handler or by the dispatcher |
| Dispatch.Dispatcher.LwmsgDistTask | IotwareFW/Microservice/SIFW/task_lwmsg_dist.c:490-573 | The same over a whole queue of messages, with task states that kernel tasks set in between |
| DispatchRequests.OperateCodeExact | IotwareFW/Microservice/SIFW/task_lwmsg_dist.c:54-75 | The code is 404 or 200 by the last item that is unknown or succeeds, and 400 when there is none |
| DispatchRequests.OperateExact | IotwareFW/Microservice/SIFW/task_lwmsg_dist.c:54-75 | Creating, stopping and deleting steps each service named once, however often it is named, and no other |
| DispatchRequests.LastPairWins | IotwareFW/Microservice/SIFW/task_lwmsg_dist.c:181-187 | A parameter holds what the last pair that finds it says, or what it held |
| DispatchRequests.SetTasksExact | IotwareFW/Microservice/SIFW/task_lwmsg_dist.c:169-201 | A set request writes to the flexible parameters of exactly the tasks listed; user and static parameters and all others keep their values |
| DispatchRequests.SetTasksCode | IotwareFW/Microservice/SIFW/task_lwmsg_dist.c:191-201 | It reports 200 exactly when a listed task has one of the parameters, else 404; 400 if it lists no task |
| DispatchRequests.SetTasksSame | IotwareFW/Microservice/SIFW/task_lwmsg_dist.c:169-201 | It neither adds, drops nor reorders tasks, nor touches anything of them but flexible parameter values |
| DispatchRequests.SetThenRead | IotwareFW/Microservice/SIFW/task_lwmsg_dist.c:83-338 | After a set request, a read request of an integer parameter is answered with the one number in the range of its type congruent to the last text set |
| DispatchRequests.SwitchTasksExact | IotwareFW/Microservice/SIFW/task_lwmsg_dist.c:448-472 | A switching request switches each task listed before the first refused item, once, and no other; naming a task twice is as naming it once |
| DispatchRequests.SwitchTasksCode | IotwareFW/Microservice/SIFW/task_lwmsg_dist.c:453-471 | It reports 404 when the first refused item names no task, 400 when that task refuses, 200 when none is refused |
| DispatchRuns.HandledKeepsInv | IotwareFW/Microservice/SIFW/task_lwmsg_dist.c:515-538 | One request of the kinds considered keeps every service as create made it, or empty |
| DispatchRuns.RunsKeepInv | IotwareFW/Microservice/SIFW/task_lwmsg_dist.c:490-573 | Over any run of the events considered a service that is not ready is empty, and any other holds the tasks of exactly one create with user and static parameters untouched, idle before it runs |
| DispatchRuns.RunThenOn | IotwareFW/Microservice/SMFW/iw_fw_microservices.c:1142-1156 | After a start, a task can be switched on exactly when it was off, or once its kernel task has stopped it |
| DispatchRuns.OneReplyEach | IotwareFW/Microservice/SIFW/task_lwmsg_dist.c:490-573 | Over any run every addressed request with a dri is answered exactly once, in order, under its own dri, never with the internal code 300; without a dri only the handlers that respond themselves answer |
| DispatchAnswers.RunSplit | IotwareFW/Microservice/SIFW/task_lwmsg_dist.c:490-573 | Every event of a run is answered in the state that the events before it leave, so that the rows below hold for each event of every run |
| DispatchAnswers.NotAddressed | IotwareFW/Microservice/SIFW/task_lwmsg_dist.c:498-560 | A message without interface or dri has no effect and no answer |
| DispatchAnswers.OtherInterface | IotwareFW/Microservice/SIFW/task_lwmsg_dist.c:538-541 | An interface of no request is answered by 400 |
| DispatchAnswers.KernelTaskSets | IotwareFW/Microservice/SIFW/task_lwmsg_dist.c:490-573 | A kernel task that sets its state between two messages changes that alone, and nothing is sent |
| DispatchAnswers.DeviceInformation | IotwareFW/Microservice/SMFW/iw_fw_microservices.c:576-620 | Interface 3 answers 200 itself and empties every service that is not RUNNING |
| DispatchAnswers.GetExact | IotwareFW/Microservice/SIFW/task_lwmsg_dist.c:506-508 | A key stands for the value of its first entry |
| DispatchAnswers.FindServiceExact | IotwareFW/Microservice/SMFW/iw_fw_microservices.c:1031-1046 | The first service with the id, none for an empty id |
| DispatchAnswers.FindTaskExact | IotwareFW/Microservice/SMFW/iw_fw_microservices.c:251-265 | The first task with the index, which must be below the 8-bit count |
| DispatchAnswers.OperateNone | IotwareFW/Microservice/SIFW/task_lwmsg_dist.c:32-75 | Create, run, stop and delete without a list of services, or with an empty one, are answered by 400 |
| DispatchAnswers.OneByOne | IotwareFW/Microservice/SIFW/task_lwmsg_dist.c:54-72 | A list of services is handled as a list without the last and then the last; the code is that of the second unless it is 400 |
| DispatchAnswers.OperateUnknown | IotwareFW/Microservice/SIFW/task_lwmsg_dist.c:56-70 | A service that does not exist is answered by 404, and nothing changes |
| DispatchAnswers.CreateAnswer | IotwareFW/Microservice/SIFW/task_lwmsg_dist.c:37-66 | Interface 10: 200 and one create for a NOT_READY service, 400 and no change for any other |
| DispatchAnswers.RunAnswer | IotwareFW/Microservice/SIFW/task_lwmsg_dist.c:41-66 | Interface 11: a CREATED service starts and answers 200, or fails when a task that is on aborts, is STOPPED and answers 400; a STOPPED one resumes, 200; any other is refused, 400 |
| DispatchAnswers.StopAnswer | IotwareFW/Microservice/SIFW/task_lwmsg_dist.c:45-66 | Interface 15: 200, and the service is as just created, whatever it was |
| DispatchAnswers.DeleteAnswer | IotwareFW/Microservice/SIFW/task_lwmsg_dist.c:49-66 | Interface 16: 200, and the service is NOT_READY and empty, whatever it was |
| DispatchAnswers.SwitchIllFormed | IotwareFW/Microservice/SIFW/task_lwmsg_dist.c:431-482 | Interfaces 20 and 24: 400 unless one service is named, 404 when it does not exist or no tasks are listed; nothing changes |
| DispatchAnswers.SwitchAnswer | IotwareFW/Microservice/SIFW/task_lwmsg_dist.c:448-475 | Interfaces 20 and 24 switch the tasks found by the items before the first refused one on and off; that item decides the code: 404 when it finds no task, 400 when the task refuses, else 200 |
| DispatchAnswers.SetIllFormed | IotwareFW/Microservice/SIFW/task_lwmsg_dist.c:150-218 | Interface 21: 400 unless one existing service is named, tasks are listed and there is something to set |
| DispatchAnswers.SetAnswer | IotwareFW/Microservice/SIFW/task_lwmsg_dist.c:166-201 | Interface 21 sets each parameter that a pair finds, in the tasks listed, to what the last such pair says, and nothing else; 200, 404 or 400 by whether a listed task has one of the parameters |
| DispatchAnswers.ReadRefused | IotwareFW/Microservice/SIFW/task_lwmsg_dist.c:229-338 | Interfaces 22 and 23 change nothing; 400 unless one service is named, 404 when it does not exist, 403 when it does not run |
| DispatchAnswers.ReadIllFormed | IotwareFW/Microservice/SIFW/task_lwmsg_dist.c:255-262 | 400 when not just one task is listed, or both kinds of parameters are |
| DispatchAnswers.ReadNoTask | IotwareFW/Microservice/SIFW/task_lwmsg_dist.c:264-336 | 404 when the task does not exist |
| DispatchAnswers.ReadAllAnswer | IotwareFW/Microservice/SIFW/task_lwmsg_dist.c:269-299 | Interface 23: 200 with all flexible parameters under "fp" and all static ones under "sp" |
| DispatchAnswers.ReadAnswer | IotwareFW/Microservice/SIFW/task_lwmsg_dist.c:300-327 | Interface 22: 200 with the flexible parameters named under "fps", or the static ones named under "sps", when the last one named exists; else 404 |

## Left out

- IwList.List.Remove: the caller names the position of the member, as the source relies on membership without checking it.
- Microservice.Service.Clear: what then refers to tasks already released, when more than 255 entries leave some behind.
- Microservice.Service.TaskOnOff: does not model the recreation of the input queues, which are kernel objects.
- Microservice.Service.AddNewTask: only before the tree is made; creating on top of a tree is in `TaskLinks.MakeTaskLinks` and `Lifecycle`. Whether a task is offloadable is an argument, as it is set once right after; names and output parameter names are strings without the fixed buffer sizes.
- Microservice.Service.MakeTaskLinks: only on a service without a tree; building again is in `TaskLinks.MakeTaskLinks`.
- Microservice.Service.SetConnectLink: a wiring list holds lines of this service. A refused registration returns NULL, and a list made with that NULL is read through it when the list is installed (`iw_fw_microservices.c` line 1395); such lists, and lines of other services, are left out.
- Microservice.Service.SetConnectLinks: the same for each list.
- Lifecycle.Record.DeviceInformation: one service; the original treats each registered service alike.
- Fifo.Fifo.Put: the caller's block does not overlap the FIFO buffer.
- FifoConcurrent.StepKeepsInv: one producer, one consumer and sequentially consistent memory; `iw_count_fifo` is covered by the sequential model only.
- Attributes.AttributeValuesParse: that the announced attributes lie in readable memory is a precondition, since the original checks the size for one byte only.
- Messages.WriteSerialize: the payload pointer is not NULL, since the original reads through it before testing it.
- Printf.DPrintf: a word used as a pointer designates some terminated string.
- Printf.ConversionEmits: strings of fewer than 2^31 characters, as the address space of the target holds no longer ones.
- Dispatch.Dispatcher.LwmsgDistTask: as HandleMessage, for every message of the queue.
- Dispatch.Dispatcher.HandleMessage: not for the output-parameter read, nor for requests on which the source reads through NULL (`Dispatch.Safe`); the task list of a device-information response is not modelled.
- DispatchRequests.SetThenRead: for a read by names; `Parameters.ReportAllExact` has what a read of all reports.
- Parameters.WriteThenRead: integer types only; floating point and string values are uninterpreted bytes.
- The light-weight message text format (`iw_fw_lwMsgUtils.c`): messages arrive parsed.
- Messages x00, x02, x04, x05, x11 and x12 (fixed-size copies), x10, x13 and x14 (copies of a raw pointer), x03, x17 and x18 (layouts covered).
- The base tasks and `service.c` as running loops, since their loops are never entered.
- Drivers, board support, kernel objects, the object interface layer, and the applications.
- Memory that delete does not give back, such as the output buffer of each task.
