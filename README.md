# FBase core bookkeeping, modelled in Dafny

This project models the sequential bookkeeping at the heart of FBase, a node of a
fog-data store. A node holds *keygroups*: named collections of data records. Each
keygroup has a config listing its clients, its replica nodes and its trigger nodes,
with an encryption secret, an algorithm and a version. Nodes subscribe to the
machines of the other replica nodes of their keygroups.

The model covers these parts of the system:

- the in-memory storage connector (`OnHeapDBConnector`), held against the documented
  contracts of `AbstractDBConnector` and its convenience overloads;
- message-id gap detection (`MessageIdEvaluator` and its older twin
  `MessageIDEvaluator`);
- the task manager's running-task counts and the subscription registry;
- three tasks:
  - the subscription rebuild (`UpdateKeygroupSubscriptionsTask`);
  - the version-gated config update (`UpdateKeygroupConfigTask`);
  - one pass of the background config change check
    (`CheckKeygroupConfigurationsOnUpdatesTask`);
- the REST client's URL building and response mapping (`RessourceRequest`);
- the convenience client's keygroup membership reconciliation
  (`SimpleClient.addToKeygroup` and `removeFromKeygroup`).

The files:

| file | module | models |
|---|---|---|
| types.dfy | Types | the value types: ids, configs, records, message ids, Java int range |
| ordering.dfy | Ordering | strict total orders, sorted enumeration of sets as a TreeMap or TreeSet iterates them |
| db_connector.dfy | DbConnector | `OnHeapDBConnector` as a class over maps, with the record-table, responsibility and history functions |
| message_ids.dfy | MessageIds | `MessageIdEvaluator` as a class over nested maps, with the gap specification |
| task_manager.dfy | TaskManagement | `TaskManager` |
| subscription_registry.dfy | Subscriptions | `SubscriptionRegistry`, with subscribers as handles and start and stop as logged events |
| update_subscriptions_task.dfy | SubscriptionUpdate | `UpdateKeygroupSubscriptionsTask.executeFunctionality` |
| update_config_task.dfy | ConfigUpdate | `UpdateKeygroupConfigTask.executeFunctionality`, with the publisher as a log |
| check_configurations_task.dfy | ConfigurationsCheck | one pass of `CheckKeygroupConfigurationsOnUpdatesTask` |
| ressource_request.dfy | RestRequest | `RessourceRequest` |
| simple_client.dfy | KeygroupClient | `SimpleClient`, with the node's keygroup resource as a class holding the configs and a request log |

State that the source updates in place is modelled as classes:

- the connector, the evaluator, the task manager, the registry, the check task, the
  publisher and the client's remote service;
- their methods carry `modifies` clauses;
- each method's `ensures` ties its new state to a function of the old state.

The properties are proved as lemmas about those functions.

Model decisions:

- Java `int` wrap-around is written out where the source can reach it:
  - the responsibility version of `keyGroupSubscriberMachines_put` (`Types.Int32Succ`);
  - the next message version of `messageHistory_getNextMessageID` (`Types.Int32Succ`);
  - the counter `i` of `getMissingMessageIDs`: its increments (`Types.Int32Succ`) and its
    loop test `version - i > 0` (`Types.Int32Diff`). Received versions are Java ints
    (`MessageIds.Int32Sets`, part of the evaluator's `Valid()`).
- Task counts and subscription totals are unbounded.
- List-returning store queries (`*_list`) return sets. The source builds their lists
  from hash-map key sets, so their order is unspecified.
- The wall clock of `heartbeats_update` is a parameter, `now`.
- The node-config lookup used by the subscription task is a parameter:
  - the local store is asked first;
  - the naming service's answer is a function `remote` that may report "unreachable".
- The keygroup-config lookup of the check task is modelled the same way.
- `KeygroupID.createFromString` is a parameter `parse: string -> Option<KeygroupId>`.
- The client's "once per occurrence" counts use `KeygroupClient.Occurrences(s, x)`, the
  number of positions of `x` in `s`. `KeygroupClient.OccurrencesMultiplicity` proves it
  equals the multiplicity of `x` in `multiset(s)`.

Where the code and the description of the system disagree, the model follows the code:

- `UpdateKeygroupSubscriptionsTask` subscribes to every foreign replica node. It does
  not filter by this machine's responsibility, even though its tests expect it to.
- `TaskManager.deregisterTask` removes a count that reaches zero. It does not keep the
  entry with a 0.
- The check task's catch clause at
  `src/main/java/tasks/background/CheckKeygroupConfigurationsOnUpdatesTask.java:80`
  names `FBaseNamingServiceException`, not `FBaseCommunicationException`. The model
  treats a failed read of one keygroup's config as caught and logged, like the
  storage failure named there.

## Model

| member | source | states |
|---|---|---|
| DbConnector.MissingKeygroupFails | src/main/java/storageconnector/OnHeapDBConnector.java:106-154 | put, get, delete and list of a record whose keygroup was never created all fail with "keygroup missing" |
| DbConnector.PutThenGet | src/main/java/storageconnector/OnHeapDBConnector.java:106-126 | after a put into an existing keygroup, get returns the record, the list holds exactly the old ids plus this one, and every other record reads as before |
| DbConnector.DeleteThenGet | src/main/java/storageconnector/OnHeapDBConnector.java:134-140 | after a delete the id reads as absent and is gone from its table; other records read as before |
| DbConnector.CreateThenList | src/main/java/storageconnector/OnHeapDBConnector.java:162-168 | create succeeds exactly when the keygroup is absent, leaves it with an empty record list, and otherwise fails with "keygroup exists" |
| DbConnector.DropThenGet | src/main/java/storageconnector/OnHeapDBConnector.java:176-179 | after a keygroup delete the keygroup is gone, its records fail as missing, and other keygroups read as before |
| DbConnector.OperationsKeepWellKeyed | src/main/java/storageconnector/OnHeapDBConnector.java:106-179 | every record stays filed under its own id and keygroup through all record and keygroup operations |
| DbConnector.BumpSubscriberVersions | src/main/java/storageconnector/OnHeapDBConnector.java:275-285 | the first put for a keygroup stores (machine, 1); later puts return the previous version plus one (Java int wrap-around aside), keep the first machine name, store the returned version and leave other keygroups alone |
| DbConnector.BumpSubscriberTwice | src/main/java/storageconnector/AbstractDBConnector.java:240-253 | two puts in a row return consecutive versions, the contract's "increments the version and returns it" |
| DbConnector.NextVersionAboveHistory | src/main/java/storageconnector/OnHeapDBConnector.java:339-346 | the next message version is 1 for an empty history, otherwise the largest stored version plus one, so above every stored version and not yet stored (unless the history holds the largest Java int) |
| DbConnector.PutNextThenGet | src/main/java/storageconnector/OnHeapDBConnector.java:339-358 | filing data under the next version adds exactly that key, overwrites nothing and reads back through `messageHistory_get` |
| DbConnector.OnHeapDBConnector.constructor | src/main/java/storageconnector/OnHeapDBConnector.java:73-75 | a new connector has empty stores and no machine name |
| DbConnector.OnHeapDBConnector.DbConnectionInitiate | src/main/java/storageconnector/OnHeapDBConnector.java:84-88 | returns and remembers the machine name "M1" |
| DbConnector.OnHeapDBConnector.DataRecordsPut | src/main/java/storageconnector/OnHeapDBConnector.java:106-113 | fails without change when the keygroup is missing, otherwise stores the record in its keygroup's table |
| DbConnector.OnHeapDBConnector.DataRecordsGet | src/main/java/storageconnector/OnHeapDBConnector.java:121-126 | the stored record or null; fails when the keygroup is missing |
| DbConnector.OnHeapDBConnector.DataRecordsDelete | src/main/java/storageconnector/OnHeapDBConnector.java:134-140 | fails without change when the keygroup is missing, otherwise removes the id and returns true exactly because the id is then absent |
| DbConnector.OnHeapDBConnector.DataRecordsList | src/main/java/storageconnector/OnHeapDBConnector.java:148-154 | the ids of the keygroup's table; fails when the keygroup is missing |
| DbConnector.OnHeapDBConnector.KeygroupCreate | src/main/java/storageconnector/OnHeapDBConnector.java:162-168 | fails without change when the keygroup exists, otherwise adds an empty table and returns true |
| DbConnector.OnHeapDBConnector.KeygroupDelete | src/main/java/storageconnector/OnHeapDBConnector.java:176-179 | drops the table with its records and returns true because the keygroup is then absent |
| DbConnector.OnHeapDBConnector.KeygroupConfigPut | src/main/java/storageconnector/OnHeapDBConnector.java:188-193 | the keygroup's config is replaced by the given one, nothing else changes |
| DbConnector.OnHeapDBConnector.KeygroupConfigGet | src/main/java/storageconnector/OnHeapDBConnector.java:201-204 | the config last put for the id, or null exactly when none was put |
| DbConnector.OnHeapDBConnector.KeygroupConfigList | src/main/java/storageconnector/OnHeapDBConnector.java:207-209 | exactly the ids a config was put for |
| DbConnector.OnHeapDBConnector.NodeConfigPut | src/main/java/storageconnector/OnHeapDBConnector.java:217-222 | the node's config is replaced, nothing else changes |
| DbConnector.OnHeapDBConnector.NodeConfigGet | src/main/java/storageconnector/OnHeapDBConnector.java:230-232 | the config last put for the node, or null exactly when none was put |
| DbConnector.OnHeapDBConnector.NodeConfigList | src/main/java/storageconnector/OnHeapDBConnector.java:235-237 | exactly the nodes a config was put for |
| DbConnector.OnHeapDBConnector.ClientConfigPut | src/main/java/storageconnector/OnHeapDBConnector.java:246-251 | the client's config is replaced, nothing else changes |
| DbConnector.OnHeapDBConnector.ClientConfigGet | src/main/java/storageconnector/OnHeapDBConnector.java:259-261 | the config last put for the client, or null exactly when none was put |
| DbConnector.OnHeapDBConnector.ClientConfigList | src/main/java/storageconnector/OnHeapDBConnector.java:264-266 | exactly the clients a config was put for |
| DbConnector.OnHeapDBConnector.KeyGroupSubscriberMachinesPut | src/main/java/storageconnector/OnHeapDBConnector.java:275-285 | the responsibility table and the returned version are those of `BumpSubscriber` on the old table |
| DbConnector.OnHeapDBConnector.KeyGroupSubscriberMachinesListAll | src/main/java/storageconnector/OnHeapDBConnector.java:293-296 | a copy of the whole responsibility table |
| DbConnector.OnHeapDBConnector.KeyGroupSubscriberMachinesRemove | src/main/java/storageconnector/OnHeapDBConnector.java:305-308 | removes only that keygroup's entry |
| DbConnector.OnHeapDBConnector.HeartbeatsUpdate | src/main/java/storageconnector/OnHeapDBConnector.java:316-319 | replaces the machine's entry by (address, now) |
| DbConnector.OnHeapDBConnector.HeartbeatsListAll | src/main/java/storageconnector/OnHeapDBConnector.java:327-330 | a copy of all heartbeats |
| DbConnector.OnHeapDBConnector.HeartbeatsRemove | src/main/java/storageconnector/OnHeapDBConnector.java:333-336 | removes the machine's entry and returns true because it is then absent |
| DbConnector.OnHeapDBConnector.MessageHistoryGetNextMessageId | src/main/java/storageconnector/OnHeapDBConnector.java:339-346 | this node's id, this machine's name and `NextVersion` of the history, which stays unchanged |
| DbConnector.OnHeapDBConnector.MessageHistoryPut | src/main/java/storageconnector/OnHeapDBConnector.java:349-352 | files the data under the message's version, nothing else changes |
| DbConnector.OnHeapDBConnector.MessageHistoryGet | src/main/java/storageconnector/OnHeapDBConnector.java:355-358 | the data filed under the message's version, or null exactly when none was |
| DbConnector.OnHeapDBConnector.DataRecordsPutValues | src/main/java/storageconnector/AbstractDBConnector.java:368-371 | behaves exactly as a put of the record built from the key and the values |
| DbConnector.OnHeapDBConnector.DataRecordsListOf | src/main/java/storageconnector/AbstractDBConnector.java:384-387 | the list of the keygroup built from app, tenant and group |
| DbConnector.OnHeapDBConnector.KeygroupCreateOf | src/main/java/storageconnector/AbstractDBConnector.java:400-403 | behaves exactly as create of the keygroup built from app, tenant and group |
| DbConnector.OnHeapDBConnector.KeygroupDeleteOf | src/main/java/storageconnector/AbstractDBConnector.java:416-419 | behaves exactly as delete of the keygroup built from app, tenant and group |
| MessageIds.WithReceived | src/main/java/communication/MessageIdEvaluator.java:63-67 | receiving an id stores its node, machine and version, creating the missing levels |
| MessageIds.AbsentMembers | src/main/java/communication/MessageIdEvaluator.java:74-81 | on unbounded integers, counting from `lo` to `hi` passes exactly the unreceived integers of `[lo, hi)` (the wrapped counter is stated by `GapsMembers`) |
| MessageIds.FirstWide | src/main/java/communication/MessageIdEvaluator.java:75 | the first step between consecutive received versions wider than 2^31, where `version - i` wraps to a negative int and the counter stops catching up |
| MessageIds.GapsMembers | src/main/java/communication/MessageIDEvaluator.java:62-78 | one machine's reported versions are exactly the unreceived ones between two received ones that lie below every step of more than 2^31 between consecutive received versions (the same text as in MessageIdEvaluator.java at 69-85) |
| MessageIds.ReportedWithoutWideStep | src/main/java/communication/MessageIdEvaluator.java:73-82 | without a step of more than 2^31, every unreceived version between two received ones is reported |
| MessageIds.ReportedBelowWideStep | src/main/java/communication/MessageIdEvaluator.java:73-82 | for int versions with a wide step from `a` to `b`, a gap is reported exactly when it lies below `a` |
| MessageIds.WrapExample | src/main/java/communication/MessageIdEvaluator.java:75 | for received {-2^31, 2^31 - 1} the loop reports nothing, although 0 lies between them unreceived |
| MessageIds.MissingIdsExact | src/main/java/communication/MessageIdEvaluator.java:69-85 | an id is reported exactly when its node and machine are stored, its version is unreceived and strictly between the smallest and the largest received version, and no wider-than-2^31 step between consecutive received versions lies below it |
| MessageIds.MissingIdsOrdered | src/main/java/communication/MessageIdEvaluator.java:69-85 | the report is ordered by node, machine name and version, so it holds no duplicate |
| MessageIds.WithReceivedKeepsNonEmpty | src/main/java/communication/MessageIdEvaluator.java:96-104 | every stored per-machine set stays non-empty, so `first()` is always defined |
| MessageIds.WithReceivedIdempotent | src/main/java/communication/MessageIdEvaluator.java:63-67 | receiving the same id twice is the same as receiving it once |
| MessageIds.WithReceivedSets | src/main/java/communication/MessageIDEvaluator.java:80-97 | receiving an id adds its version to its own set and touches no other set (the get-or-create helpers, the same text as in MessageIdEvaluator.java at 87-104) |
| MessageIds.WithAllReceivedKeys | src/main/java/communication/MessageIDEvaluator.java:57-60 | receiving ids of stored node and machine pairs adds no node and no machine (the same text as in MessageIdEvaluator.java at 63-67) |
| MessageIds.WithAllReceivedAt | src/main/java/communication/MessageIdEvaluator.java:63-67 | receiving ids of stored node and machine pairs adds exactly their versions to their sets |
| MessageIds.ReceivingAllMissingClosesGaps | src/main/java/communication/MessageIdEvaluator.java:69-85 | for int versions, once every reported id has been received, the report is empty |
| MessageIds.WithReceivedKeepsInt32 | src/main/java/communication/MessageIdEvaluator.java:63-67 | receiving an int version keeps every stored version an int |
| MessageIds.SkipTo | src/main/java/communication/MessageIdEvaluator.java:75-78 | the innermost loop, under the wrapped test `version - i > 0`, counts up to the next received version and reports every version it passes when the distance fits an int, and does nothing when it does not |
| MessageIds.MachineMissing | src/main/java/communication/MessageIdEvaluator.java:73-82 | the version loop for one machine, with its wrapping counter, reports exactly `Gaps`, ascending |
| MessageIds.NodeMissing | src/main/java/communication/MessageIdEvaluator.java:72-83 | the machine loop for one node reports its machines' `Gaps`, machines ascending |
| MessageIds.MessageIdEvaluator.GetMachineMap | src/main/java/communication/MessageIdEvaluator.java:87-94 | the node's machine map, an empty one being stored first for a new node |
| MessageIds.MessageIdEvaluator.GetIdSet | src/main/java/communication/MessageIdEvaluator.java:96-104 | the machine's version set, an empty one being stored first for a new machine |
| MessageIds.MessageIdEvaluator.AddReceivedMessageId | src/main/java/communication/MessageIdEvaluator.java:63-67 | the storage becomes `WithReceived` of the old storage, and the sets stay non-empty and hold ints |
| MessageIds.MessageIdEvaluator.GetMissingMessageIds | src/main/java/communication/MessageIdEvaluator.java:69-85 | returns exactly `MissingIds` of the storage and changes nothing |
| MessageIds.WorkedExample | src/test/java/communication/MessageIdEvaluatorTest.java:50-65 | after receiving n1/m1 = {1, 3}, n1/m2 = {2} and n2/m2 = {6, 9} the report is exactly n1/m1/2, n2/m2/7, n2/m2/8 |
| TaskManagement.RegisterEffect | src/main/java/tasks/TaskManager.java:33-40 | register sets an absent name's count to 1 and adds 1 otherwise; other names are unchanged and all counts stay at least 1 |
| TaskManagement.DeregisterEffect | src/main/java/tasks/TaskManager.java:42-52 | deregister changes nothing for an absent name, decrements a count above 1 and removes a count of 1; other names are unchanged |
| TaskManagement.RunningDetermines | src/main/java/tasks/TaskManager.java:33-52 | with no zero entries, the map is determined by its running counts |
| TaskManagement.RegisterThenDeregister | src/main/java/tasks/Task.java:29-36 | register then deregister of the same name restores the map, as a task's call relies on |
| TaskManagement.TaskManager.RegisterTask | src/main/java/tasks/TaskManager.java:33-40 | the counts become `Registered` of the old ones |
| TaskManagement.TaskManager.DeregisterTask | src/main/java/tasks/TaskManager.java:42-52 | the counts become `Deregistered` of the old ones |
| TaskManagement.TaskManager.GetRunningTaskNumbers | src/main/java/tasks/TaskManager.java:54-56 | a copy equal to the current counts |
| TaskManagement.TaskManager.DeleteAllData | src/main/java/tasks/TaskManager.java:58-60 | no entry is left |
| TaskManagement.TaskManager.RunTask | src/main/java/tasks/Task.java:29-36 | a task's call that completes leaves the counts where they began; one whose functionality throws leaves its name registered once more |
| Subscriptions.AllSubscribersRemove | src/main/java/communication/SubscriptionRegistry.java:119-128 | the registry's subscribers are one keygroup's list plus those of the others |
| Subscriptions.SubscribeAddsOne | src/main/java/communication/SubscriptionRegistry.java:35-56 | subscribing adds exactly the new subscriber to the registry, so the total grows by one |
| Subscriptions.SubscribeAppends | src/main/java/communication/SubscriptionRegistry.java:35-56 | the subscriber is appended to its keygroup's list, created if absent; other keygroups are unchanged |
| Subscriptions.RemoveEffect | src/main/java/communication/SubscriptionRegistry.java:75-77 | removing a keygroup's entry lowers the total by that keygroup's count |
| Subscriptions.SubscribeThenUnsubscribe | src/test/java/communication/SubscriptionRegistryTest.java:55-63 | one subscription gives a total of 1, and unsubscribing its keygroup brings it to 0 |
| Subscriptions.SubscriptionRegistry.SubscribeTo | src/main/java/communication/SubscriptionRegistry.java:35-56 | a fresh subscriber for the address, port, secret, algorithm and keygroup is appended and started, whatever its start-up does |
| Subscriptions.SubscriptionRegistry.GetSubscriberForKeygroup | src/main/java/communication/SubscriptionRegistry.java:64-67 | the keygroup's list, or null exactly when it has no entry |
| Subscriptions.SubscriptionRegistry.RemoveSubscriberForKeygroup | src/main/java/communication/SubscriptionRegistry.java:75-77 | returns the old list or null and leaves no entry for the keygroup, stopping nothing |
| Subscriptions.SubscriptionRegistry.StopAll | src/main/java/communication/SubscriptionRegistry.java:85-89 | stops each subscriber of the list, in order |
| Subscriptions.SubscriptionRegistry.UnsubscribeFromKeygroup | src/main/java/communication/SubscriptionRegistry.java:85-89 | with an entry, stops each of its subscribers and removes the entry; without one it fails and changes nothing |
| Subscriptions.SubscriptionRegistry.SubscribedToKeygroupId | src/main/java/communication/SubscriptionRegistry.java:97-99 | true exactly when the keygroup has an entry |
| Subscriptions.SubscriptionRegistry.GetNumberOfActiveSubscriptionsFor | src/main/java/communication/SubscriptionRegistry.java:107-112 | the length of the keygroup's list, 0 without an entry |
| Subscriptions.SubscriptionRegistry.GetNumberOfActiveSubscriptions | src/main/java/communication/SubscriptionRegistry.java:119-128 | the sum of all list lengths, 0 for an empty registry |
| Subscriptions.SubscriptionRegistry.DeleteAllData | src/main/java/communication/SubscriptionRegistry.java:133-136 | stops every subscriber exactly once and empties the registry |
| SubscriptionUpdate.TargetsExact | src/main/java/tasks/UpdateKeygroupSubscriptionsTask.java:64-95 | the machines subscribed to are exactly those of foreign replica nodes with a known config, each at its node's publisher port; nothing of this node and nothing of an unknown or unreachable node |
| SubscriptionUpdate.PlannedFields | src/main/java/tasks/UpdateKeygroupSubscriptionsTask.java:79-84 | each new subscriber listens at its machine and port with the keygroup's secret, algorithm and id |
| SubscriptionUpdate.RebuiltEffects | src/main/java/tasks/UpdateKeygroupSubscriptionsTask.java:50-105 | after a rebuild the keygroup's list is exactly the new subscribers, no other keygroup changes, and every new subscriber is started before any old one is stopped |
| SubscriptionUpdate.NewSubscribersServeReplicas | src/main/java/tasks/UpdateKeygroupSubscriptionsTask.java:64-95 | every new subscriber is for the keygroup, with its secret and algorithm, at a machine of a foreign replica node with a known config |
| SubscriptionUpdate.SubscribeToMachines | src/main/java/tasks/UpdateKeygroupSubscriptionsTask.java:79-84 | one subscription per listed machine, in order, at the node's publisher port |
| SubscriptionUpdate.SubscribeToReplica | src/main/java/tasks/UpdateKeygroupSubscriptionsTask.java:66-93 | the subscriptions for one replica node: none for this node itself or for a node without a config |
| SubscriptionUpdate.SubscribeToReplicas | src/main/java/tasks/UpdateKeygroupSubscriptionsTask.java:64-95 | the subscriptions for all replica nodes in order, the loop going on past nodes without a config |
| SubscriptionUpdate.UpdateKeygroupSubscriptions | src/main/java/tasks/UpdateKeygroupSubscriptionsTask.java:45-120 | no replica collection leaves the registry untouched; otherwise the old subscribers are detached, the new ones made, and then the old ones stopped; in every case the responsibility entry is bumped with this machine's name and the task returns true |
| ConfigUpdate.GateAfterStore | src/main/java/tasks/UpdateKeygroupConfigTask.java:48-62 | a config that passes the version gate and is stored fails the gate afterwards, so a config delivered twice is applied once |
| ConfigUpdate.GateRejectsOlder | src/main/java/tasks/UpdateKeygroupConfigTask.java:49-53 | a config whose version is not above the stored one never passes |
| ConfigUpdate.WithTableExists | src/main/java/tasks/UpdateKeygroupConfigTask.java:56-60 | the keygroup's table exists afterwards, with its records kept if it existed; the "already exists" failure is ignored |
| ConfigUpdate.Publisher.Send | src/main/java/tasks/UpdateKeygroupConfigTask.java:82 | the publisher's log gains the envelope with the secret and algorithm it is sent with |
| ConfigUpdate.UpdateKeygroupConfig | src/main/java/tasks/UpdateKeygroupConfigTask.java:46-88 | returns true exactly when the gate passes; otherwise nothing changes; on success the table exists, the config is stored, one subscription rebuild runs (one responsibility bump) and one envelope is published exactly when asked |
| ConfigurationsCheck.CollectedExact | src/main/java/tasks/background/CheckKeygroupConfigurationsOnUpdatesTask.java:76-83 | the current map holds exactly the configs read for the responsible keygroups, each with its own version; a failed read is skipped |
| ConfigurationsCheck.DiffersIffUnseen | src/main/java/tasks/background/CheckKeygroupConfigurationsOnUpdatesTask.java:111-119 | as saved versions are their configs' own, "version differs" holds exactly for a config the last pass did not see |
| ConfigurationsCheck.UnchangedTriggersNothing | src/main/java/tasks/background/CheckKeygroupConfigurationsOnUpdatesTask.java:76-98 | a config that one pass read is saved under the version the next pass collects for it, so reading it again triggers nothing |
| ConfigurationsCheck.ChangeTriggers | src/test/java/tasks/B_CheckKeygroupConfigurationsOnUpdatesTaskTest.java:63-70 | a config not seen in the previous pass, such as one that differs only in its algorithm, triggers |
| ConfigurationsCheck.KeygroupConfigurationsCheck.CheckIfKeygroupConfigVersionDiffers | src/main/java/tasks/background/CheckKeygroupConfigurationsOnUpdatesTask.java:111-119 | true exactly when the saved map has no entry for the config or another version |
| ConfigurationsCheck.KeygroupConfigurationsCheck.CollectResponsible | src/main/java/tasks/background/CheckKeygroupConfigurationsOnUpdatesTask.java:64-70 | exactly the keygroups whose responsibility entry names this machine, each once |
| ConfigurationsCheck.KeygroupConfigurationsCheck.ReadConfigurations | src/main/java/tasks/background/CheckKeygroupConfigurationsOnUpdatesTask.java:76-83 | collects the configs read; a null config aborts the pass |
| ConfigurationsCheck.KeygroupConfigurationsCheck.TriggerChanged | src/main/java/tasks/background/CheckKeygroupConfigurationsOnUpdatesTask.java:88-92 | starts one subscription rebuild for exactly each current config whose version differs from the saved one |
| ConfigurationsCheck.KeygroupConfigurationsCheck.Pass | src/main/java/tasks/background/CheckKeygroupConfigurationsOnUpdatesTask.java:60-98 | one pass clears the current collections, considers only this machine's keygroups, triggers exactly the changed configs, each once, and saves the current map; a failed listing or an aborted pass leaves the saved map unchanged |
| RestRequest.NatToDecimalRoundTrip | src/main/java/client/RessourceRequest.java:29 | the port's digits read back as the port, with no leading zero and no slash |
| RestRequest.IntToDecimalRoundTrip | src/main/java/client/RessourceRequest.java:29 | Java's rendering of an int, minus sign included, reads back as the int |
| RestRequest.Resource.Target | src/main/java/client/RessourceRequest.java:28-30 | the URL starts with "http://"; a slash-free path is what follows its last slash, and "http://" + address + ":" + port + "/jersey" what precedes it |
| RestRequest.Resource.Target1 | src/main/java/client/RessourceRequest.java:32-34 | the URL extends `target()`; a slash-free segment is what follows its last slash, and `target()` what precedes it |
| RestRequest.Resource.Target2 | src/main/java/client/RessourceRequest.java:36-38 | the URL extends `target(a)`; a slash-free last segment reads back after its last slash, with `target(a)` before it |
| RestRequest.Resource.Target3 | src/main/java/client/RessourceRequest.java:40-42 | the URL extends `target(a, b)`; a slash-free last segment reads back after its last slash, with `target(a, b)` before it |
| RestRequest.LastSegment | src/main/java/client/RessourceRequest.java:32-42 | a slash-free segment appended after a slash is what follows the last slash, and the rest what precedes it |
| RestRequest.TargetsReadBack | src/main/java/client/RessourceRequest.java:28-42 | from `target(a, b, c)` the slash-free segments c, b, a and the path read back one by one, last first |
| RestRequest.SplitAtSlash | src/main/java/client/RessourceRequest.java:32-42 | a slash-free segment before a slash is recovered from the string |
| RestRequest.Target3Injective | src/main/java/client/RessourceRequest.java:40-42 | for one resource, slash-free segments are determined by the URL they give |
| RestRequest.HandleBoolResponse | src/main/java/client/RessourceRequest.java:58-67 | true exactly for status 200 |
| RestRequest.HandleObjectResponse | src/main/java/client/RessourceRequest.java:44-56 | an object is returned only for status 200, and null for every other status |
| RestRequest.HandleListObjectResponse | src/main/java/client/RessourceRequest.java:69-88 | a non-empty list is returned only for status 200, and the empty list for every other status |
| RestRequest.HandlersIgnoreFailureDetails | src/main/java/client/RessourceRequest.java:44-88 | the handlers' answers depend on the status alone when it is not 200, and never on the status text |
| RestRequest.SuccessRoundTrip | src/main/java/client/RessourceRequest.java:44-56 | on status 200 the handlers hand back what the body encodes, given a decoding that inverts the encoding |
| KeygroupClient.KeygroupService.UpdateLocalKeygroupConfig | src/main/kotlin/client/SimpleClient.kt:50 | the read returns the keygroup's config or null and is logged |
| KeygroupClient.DecideCount | src/main/kotlin/client/SimpleClient.kt:60-92 | in a member loop each id gets its call once per occurrence when needed and never otherwise, so duplicate ids give repeated calls |
| KeygroupClient.DecideImage | src/main/kotlin/client/SimpleClient.kt:60-92 | every call a member loop makes comes from an id of its list for which it was needed |
| KeygroupClient.LoopCalls | src/main/kotlin/client/SimpleClient.kt:60-143 | each member loop makes calls of its own kind for the keygroup only, never a read or a create |
| KeygroupClient.ReplicaTtl | src/main/kotlin/client/SimpleClient.kt:78-79 | every replica node added carries the caller's ttl |
| KeygroupClient.AddCallsCount | src/main/kotlin/client/SimpleClient.kt:60-92 | on add, a client, replica node or trigger node already in the start snapshot gets no call, and an absent one gets one add call of its kind per occurrence |
| KeygroupClient.AddCallsOrder | src/main/kotlin/client/SimpleClient.kt:50-92 | the one read comes first; exactly one create of the fresh config ("passw", AES) comes second if and only if the keygroup was absent; then clients, replica nodes and trigger nodes in that order; every added replica node has the caller's ttl |
| KeygroupClient.RemoveFromMissing | src/main/kotlin/client/SimpleClient.kt:107-110 | removing from a missing keygroup sends the read and no mutation |
| KeygroupClient.RemoveCallsOrder | src/main/kotlin/client/SimpleClient.kt:107-143 | on remove, the read is followed by deletions only, client deletions first |
| KeygroupClient.RemoveCallsSegments | src/main/kotlin/client/SimpleClient.kt:112-143 | on remove, after the read come the client loop's deleteClient calls, then the replica loop's deleteNode calls, then the trigger loop's deleteNode calls |
| KeygroupClient.ClientDeletes | src/main/kotlin/client/SimpleClient.kt:113-121 | a client gets one deleteClient per occurrence exactly when the snapshot lists it |
| KeygroupClient.NodeDeletes | src/main/kotlin/client/SimpleClient.kt:124-143 | deleteNode is sent per occurrence for a listed replica node, and per occurrence in the trigger list when the trigger loop's test passes |
| KeygroupClient.TriggerDeletesInverted | src/main/kotlin/client/SimpleClient.kt:135-143 | as written, a listed trigger node is never removed through the trigger list, and an unlisted one gets deleteNode per occurrence |
| KeygroupClient.TriggerDeletesCounterexample | src/main/kotlin/client/SimpleClient.kt:137 | removing trigger node "T" from a keygroup whose only trigger node is "T" sends no deletion; removing the absent "U" sends one |
| KeygroupClient.IntendedTriggerDeletesCount | src/main/kotlin/client/SimpleClient.kt:124-143 | corrected, trigger nodes are removed like replica nodes: deleteNode per occurrence exactly when the snapshot lists it |
| KeygroupClient.Client.Issue | src/main/kotlin/client/SimpleClient.kt:60-68 | one member loop: its calls, in list order, exactly as `Decide` gives them |
| KeygroupClient.OmittedTtlIsForever | src/main/kotlin/client/SimpleClient.kt:37-39 | a ttl left out defaults to -1, so every replica node then added is kept forever |
| KeygroupClient.Client.AddToKeygroup | src/main/kotlin/client/SimpleClient.kt:37-93 | an unparsable id sends nothing; otherwise the log gains exactly `AddCalls` of the configs at the start; the id lists default to empty and the ttl to -1, as in the source |
| KeygroupClient.Client.RemoveFromKeygroup | src/main/kotlin/client/SimpleClient.kt:95-144 | an unparsable id sends nothing; otherwise the log gains exactly `RemoveCalls` (as written) of the configs at the start; the id lists default to empty, as in the source |

## Left out

- I/O: logging, sockets, ZeroMQ, HTTP (Unirest), JSON encoding and decoding, and encryption. Log lines are dropped. JSON decoding in `RessourceRequest` is a parameter. An envelope's JSON content is the config value.
- Threads, thread pools, timers and `synchronized`: all methods are sequential. The `TaskManager.run*` submitters and the evaluators' scheduled `evaluateIDs` are not modelled. `TaskManagement.TaskManager.RunTask` stands for a task's call with its functionality left out.
- `dbConnection_close` only logs, so it is not modelled. `generateNameString` is random and is not modelled either.
- The exception paths of the store interface cannot occur with the in-memory connector, except "keygroup missing" and "keygroup exists". The subscription task's storage-exception branch and its caught failure of the responsibility put are therefore not modelled.
- `SubscriptionUpdate.UpdateKeygroupSubscriptions`: for each foreign replica node with a known config, the contract states one subscription per listed machine through `Targets`. It states membership (`TargetsExact`), not a separate count lemma.
- `ConfigUpdate.UpdateKeygroupConfig`: the subscription task is run to completion in place of the wait of up to one second on its future. The timeout, interruption and execution-failure paths are not modelled.
- `Subscriptions.SubscriptionRegistry.SubscribeTo`: a subscriber whose constructor throws, making the registered handle null, is not modelled. Start-up failure is only logged in the source and does not change the registry.
- `Subscriptions.SubscriptionRegistry.DeleteAllData`: the stopped subscribers are a ghost result. Their order follows the registry's hash-map iteration, which is not modelled, so only their multiset is stated.
- `ConfigurationsCheck.KeygroupConfigurationsCheck.Pass`: only one pass is modelled. The loop until interruption and the sleep between passes are left out. The maps are keyed by whole config values, as in the source. The order in which changed configs are triggered is not stated, because it follows hash-map iteration; that each is triggered once is.
- `KeygroupClient.FreshConfig`: the config class's constructor is not part of this model. The created config has no members, and version 0 stands for its initial version.
- `KeygroupClient.Client.AddToKeygroup` and `RemoveFromKeygroup`: what the node does with each request, and what it answers, is not modelled. The client ignores the answers and never reads the config again. Transport exceptions are not modelled.
- `MessageIds`: the two evaluator classes share a single model, because the four modelled methods have the same text. `NodeID` ordering is assumed to be the order of the id strings, since its `compareTo` is not part of this model.
- `TaskManagement.TaskManager.RunTask`: a task whose functionality throws stays counted, since `Task.call` has no `finally`; the exception itself is not modelled, only the flag `completes`.
- `Ordering.StrLt`: Java compares strings by UTF-16 code unit, while this order compares Unicode scalar values. They agree whenever neither string holds a character above U+FFFF.
- `UpdateForeignNodeConfigTask`, the other background tasks, the servlets, the Jersey resources, `S3DBConnector` and `Configuration` are not part of this model.

## Findings

| source | as written | input that shows it | evidently intended | confidence | as-written member | corrected member |
|---|---|---|---|---|---|---|
| src/main/kotlin/client/SimpleClient.kt:137 | the trigger node removal loop skips ids the snapshot lists as trigger nodes and sends deleteNode for the ids it does not list | removing trigger node "T" from a keygroup whose only trigger node is "T" sends no deletion; removing "U", which is no trigger node, sends one | like the other five member loops: skip ids the snapshot does not list (`!containsTriggerNode`) and delete the listed ones | high; not executed | KeygroupClient.TriggerDeletesCounterexample | KeygroupClient.IntendedTriggerDeletesCount |
