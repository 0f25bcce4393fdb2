# Verified model of the gateway core

HuShu FSU is an IoT gateway: it polls devices on a schedule, evaluates thresholds and throttles
alarms, keeps the latest values and the history in a database, forwards data to northbound
platforms, and talks Modbus. This project models the parts of it where the state is shared, the data
structures are redundant or the arithmetic is subtle, and proves what they are there for.

* **Collection scheduler** (`Devices`, `DeviceSync`, `HeapOrder`, `TaskHeap`, `Collector`). Task
  objects with back-indices in a heap that is sifted in place, the task table, the collects in flight,
  the concurrency limit, the one-slot wake channel and the dispatch loop. Each lock-protected section is
  one method; `Collectors.Run` executes arbitrary sequences of them. The invariant says that heap,
  table and in-flight set never disagree and that no wakeup is lost.
* **Northbound queues** (`Slices`, `QueueAppend`, `Subsequences`, `SagooQueue`, `MqttQueue`,
  `Downlink`). Go slices are modelled with their shared backing arrays, so that clearing a batch that
  shares its array with the live queue is a proof obligation. Runs interleave senders with flushes that
  fail anywhere.
* **Modbus** (`Bytes`, `ModbusCrc`, `ModbusRtu`, `ModbusPdu`, `ModbusRaw`, `ModbusTcp`). The checksum
  (sections 2.5.1.2 and 6.2.2 of MODBUS over Serial Line V1.02) on 16-bit words, the errors it is bound to
  catch at every frame length, and the round trips of replies (sections 6.3, 6.6 and 7 of MODBUS
  Application Protocol V1.1b3) and headers (section 3.1.3 of MODBUS Messaging on TCP/IP V1.0b).
* **Circuit breaker** (`CircuitBreaker`). Exactly when each transition happens, in terms of the full
  record of results rather than of the pruned lists the breaker keeps.
* **Threshold lookup and alarm throttling** (`FieldLookup`, `AlarmState`). When the caches are
  invisible to a query, and when pruning is invisible, is stated exactly.
* **Cache and history store** (`CacheRows`, `CacheShape`, `CacheWrites`, `WriteQueue`, `MergePoints`,
  `DataSync`, `LatestData`). All write paths agree with the item-by-item reference; the history merge
  equals its reference exactly under a stated condition; the memory-to-disk move conserves history,
  and it is stated exactly when it loses a value. `Basics` holds what several components use.

Methods carry the source's loops and mutations and are proved against functions on values; lemmas then
prove, of those functions or of whole runs of them, what the source promises. Time is an integer and
never goes back in a run. Outcomes the code does not control (publishing, statements, collects, which
goroutine comes next, map iteration order, the growth of an appended slice) are arbitrary: they are
parameters, events of a run, or unconstrained choices.

Some expectations one could have of the code do not hold of it; each is given by a concrete input and
the condition under which the code does meet it:

* `mergeDataPoints` returns duplicates when two lists only touch at their boundary time, because the
  concatenating fast path does not look for them (`BoundaryTieDuplicates`, `MergedIsReference`).
* Pruning of alarm states sends alarms too early when a repeat interval exceeds, by more than a
  nanosecond, the time to live in use: seven days at most for one constant interval, a day for varying
  ones (`UncoveredPairVisible`, `LongIntervalVisible`, `InvisibleIff`).
* A history row that arrives again with a different value after its first version was moved to disk is
  ignored by the next copy and lost when the deletion after it removes it from memory; exactly such
  deletions lose a value (`CorrectionLost`, `LostIff`, `NewestKeptIff`).
* Two spellings of a field name share cache entries, so the answer for one can be the other's value
  (`TwoFieldsClash`). The caches are invisible to a name exactly if whatever one spelling leaves under
  the normal form is the answer of every spelling (`InvisibleIff`); for plain fields, exactly if the
  spellings agree (`FieldsInvisibleIff`).
* The commands of a downlink request are enqueued before the request is registered, and a result that
  comes between is not counted (`EarlyResultStrands`). A request all of whose results have come is
  answered exactly if none of them did (`AnsweredIffRegisteredFirst`).

## Model
| member | source | states |
|---|---|---|
| `HeapOrder.RootIsLeast` | internal/collector/collector.go:85-95 | The root of any heap-ordered sequence of due times is a minimum of all of it. |
| `HeapOrder.UpStep` | internal/collector/collector.go:85-95 | One exchange of `heap.up` moves the only possible disorder from a position to its parent and creates none elsewhere. |
| `HeapOrder.DownStep` | internal/collector/collector.go:85-95 | One exchange of `heap.down` with the smaller child moves the disorder to that child and repairs the edges above. |
| `HeapOrder.ChangeOne` | internal/collector/collector.go:618-634 | Changing one due time of a heap confines the disorder to that position, which is what `heap.Fix` needs. |
| `HeapOrder.SwapOutAround` | internal/collector/collector.go:102-110 | Exchanging a position with the last one leaves the others ordered but for that position, which is what `heap.Remove` needs. |
| `TaskHeaps.TaskHeap.Swap` | internal/collector/collector.go:92-96 | Exchanges two positions and keeps positions and back-indices inverse to each other. |
| `TaskHeaps.TaskHeap.Up` | internal/collector/collector.go:85-110 | The sift loop in place: restores order among the first n positions, leaves the others alone, keeps the back-indices. |
| `TaskHeaps.TaskHeap.Down` | internal/collector/collector.go:85-110 | The other sift loop: restores order unless nothing moved, in which case only the parent edge stays open. |
| `TaskHeaps.TaskHeap.HeapPush` | internal/collector/collector.go:97-101 | The new task joins the same set of waiting tasks; order and back-indices hold. |
| `TaskHeaps.TaskHeap.HeapPop` | internal/collector/collector.go:102-110 | Takes out a task of least due time among all waiting ones, with index -1; the others stay. |
| `TaskHeaps.TaskHeap.HeapRemove` | internal/collector/collector.go:540-547 | Takes out exactly the task at a position, wherever it is, and restores order and back-indices. |
| `TaskHeaps.TaskHeap.HeapFix` | internal/collector/collector.go:618-634 | Restores order after the due time at one position changed in either direction. |
| `Collectors.LinkedStart` | internal/collector/collector.go:286-295 | Moving a waiting task into flight keeps table, heap and in-flight set consistent; a waiting task is always current. |
| `Collectors.LinkedFinish` | internal/collector/collector.go:311-322 | Ending a collect keeps them consistent whether the task is requeued because it is current or dropped because it is stale. |
| `Collectors.Collector.Notify` | internal/collector/collector.go:565-570 | The non-blocking send leaves a token and thereby establishes that no wakeup is lost. |
| `Collectors.Collector.Refresh` | internal/collector/collector.go:618-634 | Rebuilds one task, waiting or in flight, due one interval from now; the invariant holds, no other task changes. |
| `Collectors.Collector.UpsertTask` | internal/collector/collector.go:439-461 | Adds, rebuilds or leaves the device's task as its configuration demands; existing tasks keep their identity, and reporting no action means no wakeup was needed. |
| `Collectors.Collector.RemoveTask` | internal/collector/collector.go:540-547 | Removes exactly one task from table and heap; one in flight becomes stale; the invariant holds. |
| `Collectors.Collector.SyncDeviceTask` | internal/collector/collector.go:507-523 | Applies one device's status to the table, keeping the identity of all tasks but a disabled device's. |
| `Collectors.Collector.PruneMissing` | internal/collector/collector.go:549-563 | Leaves exactly the tasks of listed devices, in whatever order the table is iterated; a count of zero means nothing changed for the loop. |
| `Collectors.Collector.SyncDevices` | internal/collector/collector.go:348-381 | The whole synchronisation equals its specification on tables and keeps the scheduler invariant including wakeups and the identity of every task whose device stays enabled. With distinct ids the tasks are exactly those of the enabled devices and run with every setting of theirs, but for the resource name and the time of the last edit; the intervals are the device's, or 5 seconds and 5 minutes; a due time moved exactly if one of these was different before. |
| `Collectors.Collector.TableKeyed` | internal/collector/collector.go:439-461 | In every valid state each task is listed under the id of the device it collects. |
| `DeviceSync.LastEntryWins` | internal/collector/collector.go:348-381 | For any list of devices, the last entry of a device decides whether it has a task and with which configuration. |
| `DeviceSync.SyncMeetsDevices` | internal/collector/collector.go:348-381 | For any list, duplicates and nil entries included: tasks exist exactly for devices last listed as enabled, match their configuration, and tasks that agreed are untouched. |
| `DeviceSync.SyncMatchesEnabled` | internal/collector/collector.go:348-381 | The same of the tables: with distinct ids the task ids are exactly the enabled devices' ids, every setting is the device's, tasks that had them keep their due time and all others are due one interval from now. |
| `DeviceSync.UpToDateMeans` | internal/collector/collector.go:463-505 | The comparison of configurations reports a difference exactly if some setting that the task runs with differs from the device's. |
| `Collectors.Collector.PeekNext` | internal/collector/collector.go:572-581 | Returns the head of the heap or nothing: under the invariant the lazy-discard loop has nothing to discard. |
| `Collectors.Collector.PopAndStart` | internal/collector/collector.go:583-591 | The popped task has the least due time, is current and not already in flight; starting it cannot fail, so it is never dropped. |
| `Collectors.Collector.LoopTurn` | internal/collector/collector.go:234-284 | A task starts exactly if the earliest one is due and there is capacity, and then the in-flight count is within the limit; else the loop waits for the right thing and no wakeup is lost. |
| `Collectors.Collector.TakeWake` | internal/collector/collector.go:688-709 | Consuming the token sends the loop back to decide, so the invariant holds without it. |
| `Collectors.Collector.TimerFires` | internal/collector/collector.go:688-709 | A timer at or after its due time sends the loop back to decide. |
| `Collectors.Collector.Finish` | internal/collector/collector.go:311-322 | A current task waits again, due one interval from now; a stale one disappears; the counter drops by one (its guard against negatives never acts) and the loop is woken. |
| `Collectors.Collector.SetLimit` | internal/collector/collector.go:153-162 | The limit becomes the request, or the processor-based default; the loop is woken, so a raised limit is never overlooked. |
| `Collectors.DefaultConcurrency` | internal/collector/collector.go:25-34 | The default limit is the number from 1 to 8 that is nearest to the number of processors. |
| `Collectors.Collector.Bookkeeping` | internal/collector/collector.go:85-110 | In every valid state: no task is queued twice, every index is the heap position or -1, every queued task is current, every current task is queued xor in flight, and the counter is the number of collects in flight, at most the largest limit ever set. |
| `Collectors.Collector.NoLostWakeup` | internal/collector/collector.go:234-262 | A loop blocked without a token has no waiting task or no capacity; one blocked on a timer has no task due before it. |
| `Collectors.Happens` | internal/collector/collector.go:234-381 | Any single event in any valid state leads to a valid state; whatever it starts was due, earliest and within the limit. |
| `Collectors.Run` | internal/collector/collector.go:234-381 | After every run of syncs, finishes, limit changes, loop turns, tokens and timers the invariant holds, and every start of the run was due, not later than any task then waiting, and within the limit of its time. |
| `ModbusCrc.Crc16Modbus` | internal/httpapi/debug_modbus_rtu_frames.go:224-238 | The nested loops compute the checksum, whose register, start value and polynomial the rows below fix. |
| `ModbusCrc.ShiftedLinear` | internal/httpapi/debug_modbus_rtu_frames.go:224-238 | Any number of shifts is linear over exclusive-or. |
| `ModbusCrc.ShiftedZero` | internal/httpapi/debug_modbus_rtu_frames.go:224-238 | Shifting loses nothing: the register becomes zero only from zero. |
| `ModbusCrc.StreamIsShifted` | internal/httpapi/debug_modbus_rtu_frames.go:224-238 | Feeding up to sixteen bits one by one equals folding them in at once and shifting. |
| `ModbusCrc.CrcIsStream` | internal/httpapi/debug_modbus_rtu_frames.go:224-238 | The byte-wise checksum equals the bit-serial one in transmission order. |
| `ModbusCrc.CrcIsBitSerial` | internal/httpapi/debug_modbus_rtu_frames.go:224-238 | The checksum is the shift register started with all ones and fed the frame's bits in the order they are sent. |
| `ModbusCrc.CrcSplits` | internal/httpapi/debug_modbus_rtu_frames.go:224-238 | It is the sum of what the bits contribute and what the start value contributes after as many shifts. |
| `ModbusCrc.CheckValue` | internal/httpapi/debug_modbus_rtu_frames.go:224-238 | The published check value: the digits 1 to 9 have the checksum 0x4B37. |
| `ModbusCrc.StreamLinear` | internal/httpapi/debug_modbus_rtu_frames.go:224-238 | The difference of two checksums depends only on where the frames differ. |
| `ModbusCrc.BurstSeen` | internal/httpapi/debug_modbus_rtu_frames.go:224-238 | A difference confined to sixteen consecutive bits never cancels. |
| `ModbusCrc.StreamParity` | internal/httpapi/debug_modbus_rtu_frames.go:224-238 | The parity of the register is that of its start and its input together. |
| `ModbusRtu.Residue` | internal/httpapi/debug_modbus_rtu_frames.go:247-260 | The checksum test passes exactly when the checksum over the whole frame, trailer included, is zero. |
| `ModbusRtu.BurstRejected` | internal/httpapi/debug_modbus_rtu_frames.go:247-260 | Every error burst of up to sixteen bits in an accepted frame of any length makes it rejected. |
| `ModbusRtu.ByteChangesRejected` | internal/httpapi/debug_modbus_rtu_frames.go:247-260 | Changing one byte or two adjacent bytes of an accepted frame, checksum bytes included, makes it rejected. |
| `ModbusRtu.OddFlipsRejected` | internal/httpapi/debug_modbus_rtu_frames.go:247-260 | Flipping any odd number of bits of an accepted frame of any length, wherever they are, makes it rejected. |
| `ModbusRtu.AcceptedIffSealed` | internal/httpapi/debug_modbus_rtu_frames.go:247-260 | A response yields a payload exactly if it is the expected slave and that payload with its checksum. |
| `ModbusPdu.U16RoundTrip` | internal/httpapi/debug_modbus_rtu_frames.go:116-133 | Writing an int as two bytes and reading them back keeps it modulo 65536. |
| `ModbusPdu.PutIsBigEndian` | internal/httpapi/debug_modbus_rtu_frames.go:116-133 | An int is written as its low sixteen bits with the high byte first. |
| `ModbusPdu.ValueRange` | internal/httpapi/debug_modbus_response.go:46-59 | Accepted exactly if there is a byte count, it is even and the payload holds that many; otherwise the reason and the count are reported. |
| `ModbusPdu.ParseRegisters` | internal/httpapi/debug_modbus_response.go:23-35 | The decoding loop returns the registers of the announced range, or the range's error. |
| `ModbusPdu.RegistersRoundTrip` | internal/httpapi/debug_modbus_response.go:23-35 | Decoding undoes encoding for every list of 16-bit registers. |
| `ModbusPdu.RegisterAt` | internal/httpapi/debug_modbus_response.go:23-35 | Register k is the k-th pair of bytes, the high byte first. |
| `ModbusPdu.ReadReplyRoundTrip` | internal/httpapi/debug_modbus_rtu_frames.go:135-176 | Every function-3 reply of up to 127 registers parses back to its list and is as long as the request builder said it would be. |
| `ModbusPdu.WriteReplyRoundTrip` | internal/httpapi/debug_modbus_rtu_frames.go:135-176 | A function-6 echo parses back to address and value, and has the announced length. |
| `ModbusPdu.ExceptionReplyRoundTrip` | internal/httpapi/debug_modbus_response.go:8-14 | An exception reply to any function is reported with its code. |
| `ModbusPdu.ExceptionMeans` | internal/httpapi/debug_modbus_response.go:8-14 | A function byte of 128 or more is an exception with the next byte as its code, and an error without one. |
| `ModbusPdu.OtherFunctionRejected` | internal/httpapi/debug_modbus_rtu_frames.go:135-176 | A reply to another function is rejected. |
| `ModbusPdu.RegistersMean` | internal/httpapi/debug_modbus_rtu_frames.go:135-176 | A function-3 reply is accepted exactly if its even byte count is held; its registers are then the pairs of bytes and its address the one asked for. |
| `ModbusPdu.WrittenMeans` | internal/httpapi/debug_modbus_response.go:37-44 | A function-6 reply reports the address and value it carries, whatever was asked for; a shorter one is an error. |
| `ModbusPdu.BuildRtuRequest` | internal/httpapi/debug_modbus_rtu_frames.go:116-133 | The request has 8 bytes: slave, body and a checksum that makes the whole frame's zero; the expected reply length is that of the reply round trips. |
| `ModbusPdu.RequestMeans` | internal/httpapi/debug_modbus_rtu_frames.go:116-133 | The body carries the function, the address, and the quantity for function 3, the value for function 6, zero otherwise, the high bytes first. |
| `ModbusRaw.Scan` | internal/httpapi/debug_modbus_rtu_frames.go:69-113 | The loop counts the placeholders, finds the first, and knows which kinds occur. |
| `ModbusRaw.FillPlaceholders` | internal/httpapi/debug_modbus_rtu_frames.go:69-113 | A frame results exactly for plain bytes or for bytes with one low and one high placeholder at the end, which become the checksum of what precedes them; every other input gives the error the source gives. |
| `ModbusRaw.LowThenHighSealed` | internal/httpapi/debug_modbus_rtu_frames.go:69-113 | With the placeholders in the order low, high, the whole-frame checksum is zero. |
| `ModbusTcp.BuildTcpRequest` | internal/httpapi/debug_modbus_tcp_frames.go:44-68 | The request is header and body with a transaction id that is never the missing one. |
| `ModbusTcp.BuiltRequestValid` | internal/httpapi/debug_modbus_tcp_frames.go:24-42 | A built request passes raw-frame validation and yields its own transaction id. |
| `ModbusTcp.ValidMeans` | internal/httpapi/debug_modbus_tcp_frames.go:24-42 | A raw frame is accepted exactly if it is long enough, its protocol is zero and its length field counts the bytes after it; its id is its first two bytes. |
| `ModbusTcp.AcceptedIffMbap` | internal/httpapi/debug_modbus_tcp_frames.go:159-180 | A reply yields a slave and a body exactly if it is the header for them under the expected transaction id, followed by the body. |
| `ModbusTcp.TcpReadReplyRoundTrip` | internal/httpapi/debug_modbus_tcp_frames.go:70-113 | A function-3 reply under a correct header parses back to its registers. |
| `ModbusTcp.OtherSlaveRejected` | internal/httpapi/debug_modbus_tcp_frames.go:70-113 | A reply of another slave is rejected. |
| `ModbusTcp.ReadResponse` | internal/driver/hostfuncs_tcp.go:87-111 | Leaves in the buffer the first frame of the stream and in the stream what follows it, or fails as specified. |
| `ModbusTcp.ReadOneIff` | internal/driver/hostfuncs_tcp.go:87-111 | A read succeeds exactly if the buffer holds a header and the stream begins with a fitting frame. |
| `ModbusTcp.StreamSplits` | internal/driver/hostfuncs_tcp.go:87-111 | Repeated reads split any concatenation of fitting frames into exactly those frames. |
| `ModbusTcp.ReadsConserve` | internal/driver/hostfuncs_tcp.go:87-111 | Conversely, the frames read and the bytes left are together the stream, and every frame fits its length field. |
| `Circuits.CircuitBreaker.AllowRequest` | internal/circuit/circuit.go:96-116 | Admits exactly when the breaker, after a possible recovery, is not open. |
| `Circuits.CircuitBreaker.RecordResult` | internal/circuit/circuit.go:119-153 | Records a result in any state; the new breaker is the specified one. |
| `Circuits.CircuitBreaker.Cleanup` | internal/circuit/circuit.go:156-174 | Both lists keep exactly the times inside the window, in order. |
| `Circuits.CircuitBreaker.State` | internal/circuit/circuit.go:182-194 | Querying recovers exactly as admission does. |
| `Circuits.CircuitBreaker.Reset` | internal/circuit/circuit.go:197-206 | Back to a fresh breaker, but for the time of the last failure. |
| `Circuits.RecentTwice` | internal/circuit/circuit.go:156-174 | An earlier clean-up cannot be noticed through a later window. |
| `Circuits.RecentMeans` | internal/circuit/circuit.go:156-174 | A clean-up keeps exactly the times after the start of the window, each as often as recorded, in their order. |
| `Circuits.Invariant` | internal/circuit/circuit.go:96-206 | In every reachable state: closed means fewer failures than the threshold, half open means no failures and too few successes, and the stored times agree with the full records on every later window. |
| `Circuits.TripsExactly` | internal/circuit/circuit.go:119-153 | A closed breaker opens exactly at a failure with which at least the threshold number of failures of the full record lie after the start of the window, counted by position. |
| `Circuits.ClosesExactly` | internal/circuit/circuit.go:119-153 | A half-open breaker closes exactly at a success with which enough successes since recovery lie after the start of the window, counted by position, and opens exactly at a failure. |
| `Circuits.CountersCount` | internal/circuit/circuit.go:119-153 | The counters are the numbers of failures and successes recorded since the last reset. |
| `Circuits.RecoversExactly` | internal/circuit/circuit.go:96-116 | An open breaker stops being open, without a reset, exactly when asked at least the recovery time after the last failure of the whole run. |
| `Circuits.NoEarlyAdmission` | internal/circuit/circuit.go:96-116 | Whatever results still arrive, an open breaker rejects everything within the recovery time. |
| `Circuits.OpenMeansClosedDoor` | internal/circuit/circuit.go:96-206 | In every run: after the step that opens the breaker, no step within the recovery time admits a request, unless a reset comes between. |
| `AlarmStates.Ttl` | internal/collector/alarm_state.go:136-148 | The time to live is between a day and seven days. |
| `AlarmStates.TtlMeans` | internal/collector/alarm_state.go:136-148 | It is the one nearest to 120 intervals, as a signed 64-bit product has them; a day if no interval is set. |
| `AlarmStates.TickMeans` | internal/collector/alarm_state.go:150-159 | A call prunes exactly if it is a 512th one, and then forgets exactly the entries older than the time to live. |
| `AlarmStates.CounterCounts` | internal/collector/alarm_state.go:150-159 | The counter counts the calls of a run, modulo its width. |
| `AlarmStates.AlarmState.MaybePrune` | internal/collector/alarm_state.go:150-159 | Counts the call and prunes both tables at every 512th. |
| `AlarmStates.AlarmState.PruneStates` | internal/collector/alarm_state.go:161-183 | Removes exactly the expired entries of both tables and counts them. |
| `AlarmStates.AlarmState.ShouldEmitForKey` | internal/collector/alarm_state.go:217-249 | Decides and records in the table the key belongs to; the decision is what the runs below are about. |
| `AlarmStates.AlarmState.ShouldEmitForId` | internal/collector/alarm_state.go:251-270 | The same for a threshold id. |
| `AlarmStates.AlarmState.ClearForDevice` | internal/collector/alarm_state.go:272-286 | Forgets exactly the device's entries in both tables. |
| `AlarmStates.PruningInvisible` | internal/collector/alarm_state.go:83-286 | In every run whose intervals stay within what pruning spares, the two pruned tables send exactly the alarms of one table that is never pruned. |
| `AlarmStates.ConstantIntervalInvisible` | internal/collector/alarm_state.go:136-183 | With one interval of up to seven days and a nanosecond, pruning is invisible in every run. |
| `AlarmStates.LongIntervalVisible` | internal/collector/alarm_state.go:136-183 | For every longer interval there is a run in which pruning sends an alarm too many. |
| `AlarmStates.VaryingIntervalsInvisible` | internal/collector/alarm_state.go:136-183 | With varying intervals of up to a day and a nanosecond, pruning is invisible in every run. |
| `AlarmStates.UncoveredPairVisible` | internal/collector/alarm_state.go:136-183 | For every interval asked for and every interval pruned for that do not go together there is a run in which pruning sends an alarm too many. |
| `AlarmStates.InvisibleIff` | internal/collector/alarm_state.go:136-183 | For any sets of intervals in use: pruning is invisible in every run that uses them if and only if no interval asked for exceeds, by more than a nanosecond, the time to live that an interval pruned for leads to. |
| `AlarmStates.SentExactly` | internal/collector/alarm_state.go:217-286 | An alarm is sent exactly if every earlier alarm of the same device and threshold, or of the same device, field, operator and value, since the last clearing of the device is at least the interval old, a minute if none is set. |
| `AlarmStates.AlarmsSpaced` | internal/collector/alarm_state.go:217-286 | Two alarms of one threshold with no clearing between them are at least the interval apart, a minute if none is set. |
| `AlarmStates.SubjectMeans` | internal/collector/alarm_state.go:73-81 | Two questions share an entry exactly if they have the same device and stored threshold, or else agree in every part. |
| `Slices.Clear` | internal/northbound/adapters/sagoo_queue.go:135-165 | Clearing a window nulls its slots and keeps every window apart from it, even on the same array. |
| `Slices.Append` | internal/northbound/adapters/queue_append.go:64-75 | Appending extends the elements, in place if there is room; windows apart from the slice and its spare capacity keep theirs, and a window without spare capacity moves to a new array. |
| `QueueAppend.AppendItem` | internal/northbound/adapters/queue_append.go:64-75 | For any queue: a full one gives up its oldest item; windows apart from the queue and its spare capacity keep their elements; a clipped queue moves to a new array. |
| `QueueAppend.AppendedMeans` | internal/northbound/adapters/queue_append.go:64-75 | The item comes last; a queue with room keeps all, a full one gives up its first and keeps the others in order. |
| `QueueAppend.PrependItems` | internal/northbound/adapters/queue_append.go:77-98 | For any queue and items, sharing slots or not: items go in front, the excess is cut off at the end, in a new array; items apart from the queue, or in front of a queue within the limit, are untouched. |
| `QueueAppend.PrependedKeepsFront` | internal/northbound/adapters/queue_append.go:77-98 | Of the items followed by the queue the first ones stay, up to the limit. |
| `QueueAppend.AppendCommands` | internal/northbound/adapters/queue_append.go:5-62 | Always the last `cap` of queue and non-nil incoming commands; the final overflow branch is unreachable. |
| `QueueAppend.CommandsKeepLast` | internal/northbound/adapters/queue_append.go:5-62 | Of the queue followed by the commands the last ones stay, 200 unless another limit is set. |
| `QueueAppend.NonNilMeans` | internal/northbound/adapters/queue_append.go:5-62 | The commands taken are exactly those that are not nil, each as often as it came, in order. |
| `SagooQueue.Adapter.SendAlarm` | internal/northbound/adapters/sagoo_queue.go:89-106 | The alarm is queued last, with all others while fewer than the cap, 200 if none is set, are waiting; a batch in flight on the old array is unaffected, and the account of sent alarms holds. |
| `SagooQueue.Adapter.BeginFlush` | internal/northbound/adapters/sagoo_queue.go:135-165 | Splits the queue in place into a batch of the configured size, or of all there is, and a rest that shares its array but no slot. |
| `SagooQueue.Adapter.PublishSucceeds` | internal/northbound/adapters/sagoo_queue.go:135-165 | Without drops, the published alarm is the earliest one never published before, or one published before. |
| `SagooQueue.Adapter.PublishFails` | internal/northbound/adapters/sagoo_queue.go:135-165 | The whole batch goes back in front of what was sent meanwhile, in a new array. |
| `SagooQueue.Adapter.FinishFlush` | internal/northbound/adapters/sagoo_queue.go:135-165 | Clearing the batch outside the lock nulls no queued alarm. |
| `SagooQueue.AccountPutBack` | internal/northbound/adapters/sagoo_queue.go:282-290 | Putting a batch back keeps the account: unless the cap cut something off, finished batches and queue are what was sent. |
| `SagooQueue.Run` | internal/northbound/adapters/sagoo_queue.go:89-165 | In every interleaving of senders with flushes that fail anywhere: no queued alarm is nil, the cap holds, and without drops finished batches, batch in flight and queue are, in order, everything sent. |
| `MqttQueue.Adapter.Send` | internal/northbound/adapters/mqtt_queue.go:11-24 | Appends within the cap while a flush may be running. |
| `MqttQueue.Adapter.BeginFlush` | internal/northbound/adapters/mqtt_queue.go:41-67 | Takes the whole queue, if there is any. |
| `MqttQueue.Adapter.PublishNext` | internal/northbound/adapters/mqtt_queue.go:41-67 | One turn of the loop: publishes the next item or puts the unpublished rest back. |
| `MqttQueue.RunInv` | internal/northbound/adapters/mqtt_queue.go:11-97 | In every run, published, in-flight and pending items form in this order a subsequence of what was sent, within the cap, with every lost item counted. |
| `MqttQueue.LosslessIffCapNeverHit` | internal/northbound/adapters/mqtt_queue.go:11-97 | They are exactly what was sent if and only if no step of the run finds the queue full or has more to put back than fits. |
| `Downlink.Adapter.EnqueueCommands` | internal/northbound/adapters/ithings_downlink.go:35-42 | Under the command lock: the commands join the queue within the cap; without commands nothing happens. |
| `Downlink.Adapter.RegisterRequest` | internal/northbound/adapters/ithings_downlink.go:44-54 | Under the request lock, later: the request is registered as waiting for all its commands, successful so far, with the message's own ids and kinds. |
| `Downlink.Adapter.ApplyCommandResult` | internal/northbound/adapters/ithings_downlink.go:115-169 | Absorbs a result into its request, or answers an unknown one at once. |
| `Downlink.WaitsForAll` | internal/northbound/adapters/ithings_downlink.go:115-169 | With fewer results than commands, whatever happens to other requests, the request waits for the rest and its success is the conjunction so far. |
| `Downlink.ReadyAtLast` | internal/northbound/adapters/ithings_downlink.go:115-169 | A request of n commands is ready exactly at its n-th result, with success exactly if all n succeeded, and is then forgotten. |
| `Downlink.AnsweredIffRegisteredFirst` | internal/northbound/adapters/ithings_downlink.go:39-54 | When all n results of a request have come, before or after its registering, it has been answered and forgotten if and only if none of them came before. |
| `Downlink.EarlyResultAnswered` | internal/northbound/adapters/ithings_downlink.go:115-169 | A result that comes before the registering is answered at once with its own outcome, texts and device, as that of an unknown request. |
| `Downlink.EarlyResultStrands` | internal/northbound/adapters/ithings_downlink.go:39-54 | A request of one command whose only result comes before the registering stays registered. |
| `Downlink.ReplyReportsLast` | internal/northbound/adapters/ithings_downlink.go:115-169 | The reply carries the last non-zero code and the last non-blank message, field name, value, product and device among its results, and the ids and kinds it was registered with. |
| `MergePoints.MergeDataPoints` | internal/database/data_points_batch.go:827-936 | For every input, nil points included, the method returns the list that the rows below describe. |
| `MergePoints.Keep` | internal/database/data_points_batch.go:827-936 | The lazily created set always equals the keys of the result; scan and set decide alike. |
| `MergePoints.KeyMeans` | internal/database/data_points_batch.go:821-825 | Points count as the same exactly if device, field and time agree. |
| `MergePoints.MergedRows` | internal/database/data_points_batch.go:827-936 | For any lists that overlap, without a limit: every device, field and time of either list is in the result, none twice, and nothing else. |
| `MergePoints.MergedKeepsRows` | internal/database/data_points_batch.go:827-936 | For lists as the queries return them: all primary points are in it, and a secondary point is missing only if the primary list has its device, field and time. |
| `MergePoints.LimitCuts` | internal/database/data_points_batch.go:827-936 | A limit cuts off the end of that, for any lists on any path. |
| `MergePoints.LoopAgrees` | internal/database/data_points_batch.go:827-936 | On proper lists the loop's output is the independent reference: secondary points without primary ones, merged by time. |
| `MergePoints.ReferenceConcat` | internal/database/data_points_batch.go:938-948 | For lists that do not overlap the reference is the primary list followed by the new secondary points. |
| `MergePoints.MergedIsReference` | internal/database/data_points_batch.go:827-948 | The result is the first `limit` points of the reference if and only if the fast path is not taken or returns no secondary point the primary list has. |
| `MergePoints.StrictlyOlderAgrees` | internal/database/data_points_batch.go:938-948 | With a strictly older secondary list the fast path agrees with the reference. |
| `MergePoints.BoundaryTieDuplicates` | internal/database/data_points_batch.go:938-948 | Two lists that meet at one time for which the result does contain a duplicate. |
| `MergePoints.ReferenceMeans` | internal/database/data_points_batch.go:827-936 | The reference is sorted newest first, has no duplicate keys, and holds exactly the primary points and the secondary ones with new keys. |
| `MergePoints.MergedSound` | internal/database/data_points_batch.go:827-948 | On every path the result is sorted, within the limit and made of input points. |
| `FieldLookup.Lookup.EnsurePointRaw` | internal/collector/threshold_check.go:200-215 | The lazily built table is the points by trimmed name, the first of a name winning. |
| `FieldLookup.Lookup.EnsurePointNormalized` | internal/collector/threshold_check.go:217-233 | The lazily built table holds, for every normal form, the value of the first name of that form in iteration order. |
| `FieldLookup.Lookup.GetRawValue` | internal/collector/threshold_check.go:235-268 | On any record and with any tables built so far: the field spelled like the query, else the one of its normal form, else a point's text, with the key it belongs under. |
| `FieldLookup.Lookup.GetPointRawValue` | internal/collector/threshold_check.go:270-286 | The same for points. |
| `FieldLookup.Lookup.GetCached` | internal/collector/threshold_check.go:146-161 | A number is found exactly if one is kept under the query or else under its normal form. |
| `FieldLookup.Lookup.IsKnownInvalid` | internal/collector/threshold_check.go:163-178 | A name is known invalid exactly if it or its normal form was remembered so. |
| `FieldLookup.Lookup.GetPointNumber` | internal/collector/threshold_check.go:333-363 | The point spelled like the query if it is a number, else the one of its normal form; kept only if cacheable; a key remembered for a point that is no number implies that the text lookup will find that point. |
| `FieldLookup.Lookup.GetFloat` | internal/collector/threshold_check.go:333-391 | Refines the specification of a query with caches on any record; the second look into the caches and the two uses of the remembered point key never take effect. |
| `FieldLookup.AskAll` | internal/collector/threshold_check.go:333-391 | So does any sequence of queries, from any caches. |
| `FieldLookup.AloneMeans` | internal/collector/threshold_check.go:235-391 | Said of the record itself: the first point spelled like the query if it is a number, then the first of its normal form, then the text of the field spelled like it, of the first field of its normal form, of the point, of the point of its normal form. |
| `FieldLookup.AnswerMeans` | internal/collector/threshold_check.go:333-391 | Whatever was asked before, every answer is the one that some spelling of the name gets alone, and if not the query itself, then a spelling kept under the normal form. |
| `FieldLookup.InvisibleIff` | internal/collector/threshold_check.go:333-391 | For every record and every normal form: in all sequences of queries each spelling gets the answer it would get alone if and only if whatever one spelling keeps under the normal form is the answer of every spelling. |
| `FieldLookup.OthersAlike` | internal/collector/threshold_check.go:333-391 | Spellings that do not occur in the record are all answered and kept alike, so that condition is decided by the ones that occur and one more. |
| `FieldLookup.SettledInvisible` | internal/collector/threshold_check.go:333-391 | The caches are invisible to a name whose fields, and whose points, all hold the same number or none, in particular to a name with one spelling, whatever else the record holds. |
| `FieldLookup.FieldsInvisibleIff` | internal/collector/threshold_check.go:333-391 | For records without points and with trimmed names that is exact: invisible if and only if all fields of the name hold the same number, or none. |
| `FieldLookup.NativePointsInvisible` | internal/collector/threshold_check.go:333-391 | Points that are numbers and not kept, as native numbers are, do not disturb each other, whatever their spellings and values. |
| `FieldLookup.KeptPointsInvisibleIff` | internal/collector/threshold_check.go:333-391 | Points whose numbers are kept share entries: without fields the caches are invisible to a name if and only if all points spelled like it hold the same number. |
| `FieldLookup.TwoFieldsClash` | internal/collector/threshold_check.go:333-391 | Fields "Temp" and "temp" of different values, asked for "temp" and then "Temp": the second answer is the first field's value. |
| `FieldLookup.TwoPointsDoNot` | internal/collector/threshold_check.go:333-391 | The same as native points: not settled, and yet the caches are invisible. |
| `CacheShape.NormalizeNames` | internal/database/data_points_batch.go:288-317 | With or without a names list, the name used for each point is its trimmed name; the blank ones are not counted. |
| `CacheShape.Overridden` | internal/database/data_points_batch.go:381-404 | Exactly the fields that some point writes too. |
| `CacheShape.BuildShape` | internal/database/data_points_batch.go:341-363 | The announced row count is that of the rows produced later. |
| `CacheShape.RowsOf` | internal/database/data_points_batch.go:412-447 | As many rows as announced, and whatever the cache held, executing them lays exactly the record's merged fields over it, in any iteration order. |
| `CacheShape.Record.EnsureFields` | internal/models/models.go:208-233 | However often it is called, the result and the record's fields are the merge of what was collected: points override fields, the last point of a name wins, blank names are skipped. |
| `CacheShape.EnsureFieldsTwice` | internal/models/models.go:208-233 | Merging the points into the fields beforehand does not change what is written. |
| `CacheWrites.CountRows` | internal/database/data_points_batch.go:406-410 | The number of rows the record will take. |
| `CacheShape.ValidCounted` | internal/database/data_points_batch.go:288-317 | The points counted are those whose trimmed name is not blank. |
| `CacheWrites.Store.InsertDirect` | internal/database/data_points_batch.go:483-554 | One statement or none, shortcuts included, leaves the reference result; a failure changes nothing. |
| `CacheWrites.Store.InsertChunked` | internal/database/data_points_batch.go:556-634 | Statements of 1 to 100 rows leave the reference result; a failure leaves only what a retry absorbs. |
| `CacheWrites.Store.InTransaction` | internal/database/data_points_query.go:689-803 | All items or nothing, in statements of 1 to 100 rows: the cache gets the reference result and the history one group of rows for exactly the items that ask for it, in order. |
| `CacheWrites.StoredMeans` | internal/database/collect_write_queue.go:207-233 | The records kept in the history are those of the requests that ask for it, as many and in their order. |
| `CacheWrites.Store.Insert` | internal/database/data_points_query.go:1004-1055 | Whichever path is taken, the reference result or something a retry absorbs; the history gets the record's rows once on success if asked for, and never otherwise. |
| `CacheRows.ChunksAbsorbed` | internal/database/data_points_batch.go:556-634 | Rows executed in part make no difference once all of them are executed. |
| `CacheRows.UpsertMeans` | internal/database/data_points_batch.go:412-447 | An upsert leaves in each cell what its last row for the cell says, and other cells alone. |
| `CacheRows.PointFieldsMean` | internal/models/models.go:208-233 | A field that points write has the value of the last point of its trimmed name. |
| `CacheRows.DeltaMeans` | internal/models/models.go:208-233 | A record writes exactly its fields and points, the points over the fields, into its own device's cells. |
| `CacheRows.DeltaAllMeans` | internal/database/collect_write_queue.go:79-107 | Records written one after the other leave in each cell what the last record that writes it says. |
| `CacheRows.Replay` | internal/database/collect_write_queue.go:123-157 | Replaying a whole batch after any prefix of it was written gives the result of writing it once. |
| `WriteQueue.CacheOnlyBatch` | internal/database/collect_write_queue.go:159-205 | Success is the reference result and means that no item wanted history; giving up at any point leaves only what a replay absorbs and no history; statements have 1 to 100 rows. |
| `WriteQueue.WriteBatch` | internal/database/collect_write_queue.go:123-157 | The fall-back that replays everything in a transaction still gives the reference result, and history exactly once; a failure leaves no history. |
| `WriteQueue.FlushBatch` | internal/database/collect_write_queue.go:109-121 | So does the second fall-back, item by item; if items fail for good, only cells of the batch have changed and the history has each of the other records once, in order. |
| `WriteQueue.RunWriter` | internal/database/collect_write_queue.go:79-107 | Every queued request is flushed once, in order, in batches of 1 to 16. Successful flushes leave the cache as item-by-item upserts would and the history with every record that asked for it, once and in order; failing ones change no other cell and leave the history a subsequence of that. |
| `DataSync.History.Begin` | internal/database/data_sync.go:127-179 | Takes the highest row id, or does nothing on an empty table. |
| `DataSync.History.Copy` | internal/database/data_sync.go:275-320 | Copies the rows up to that id, existing keys ignored, or rolls back. |
| `DataSync.History.Delete` | internal/database/data_sync.go:127-179 | Deletes the rows up to that id, or leaves them to be copied again. |
| `DataSync.HistoryConserved` | internal/database/data_sync.go:127-179 | In every run with concurrent arrivals and failures anywhere, memory and disk together hold exactly the keys that arrived. |
| `DataSync.CopyAgainSame` | internal/database/data_sync.go:275-320 | Copying again after a failed deletion leaves the disk identical. |
| `DataSync.SyncMovesAll` | internal/database/data_sync.go:127-179 | A synchronisation with nothing arriving meanwhile leaves memory empty and every row on disk, with its value unless the disk had its key. |
| `DataSync.DiskKept` | internal/database/data_sync.go:275-320 | No step changes or removes a row on disk. |
| `DataSync.MemoryIsNewest` | internal/database/data_sync.go:127-179 | What memory holds under a key is what arrived last under it, in every run. |
| `DataSync.LostIff` | internal/database/data_sync.go:127-179 | At the end of any run, a reader of memory, then disk, misses the value that arrived last under a key if and only if, after that arrival, a deletion removed it from memory while the disk had another value under its key. |
| `DataSync.NewestKeptIff` | internal/database/data_sync.go:127-179 | A reader finds the newest value of every key at every point of a run if and only if no deletion of the run removes a row from memory that differs from the disk's row of its key. |
| `DataSync.DiskUpToDateIff` | internal/database/data_sync.go:127-179 | No row on disk is ever outdated in a run if and only if no row contradicts, when it arrives, the row then on disk under its key. |
| `DataSync.UncontradictedKept` | internal/database/data_sync.go:127-179 | A condition on the arrivals alone under which no value is lost. |
| `DataSync.CorrectionLost` | internal/database/data_sync.go:127-179 | A run in which a corrected value that arrives after its row was moved ends up nowhere, as the exact condition says. |
| `LatestData.NewestMeans` | internal/database/data_points_query.go:392-411 | The value chosen is that of a row of greatest time and, of those, the last read. |
| `LatestData.NewestIsLast` | internal/database/data_points_query.go:392-411 | The same, said of the rows' device and field columns. |
| `LatestData.AppearsMeans` | internal/database/data_points_query.go:392-411 | A device appears exactly with a row that has its non-zero id and a field name. |
| `LatestData.NewestTimeMeans` | internal/database/data_points_query.go:392-411 | The device time is an upper bound of its rows' times and one of them. |
| `LatestData.FoldSummarises` | internal/database/data_points_query.go:392-411 | Folding any rows gives one item per device with the newest value of each field and the newest time. |
| `LatestData.AppendRows` | internal/database/data_points_query.go:449-571 | The loops with their remembered position of the current device are that fold. |
| `LatestData.GetAllDevicesLatestData` | internal/database/data_points_query.go:634-682 | One entry per device occurring in the rows read, each field with its newest value over cache and history, each device with its newest time. |

## Left out
- Starting and stopping the collector, loading the enabled devices at start, the periodic workers, and the pruning of driver product keys; a run begins with a started collector without tasks.
- Each lock-protected section reads the clock once in the model; the source may read it more than once, and its nanosecond times can overflow in principle.
- Collection itself, drivers, plugins, sockets, serial ports and the MQTT client: only success or failure of a step is modelled. The locking in the driver executor is not part of this model.
- Per-task error and history bookkeeping (`lastRun`, `lastStored`, consecutive failures) and whether a collect stores history.
- Trimming, lower-casing and number parsing of the threshold lookup are parameters; lower-casing and trimming are taken to be idempotent, and lower-casing to keep a trimmed name trimmed. The iteration orders of a record's fields and points are parameters too.
- Collectors.Collector.RemoveTask: the clearing of the device's alarm states, which the alarm model has as a step of its own, and the pruning of driver product keys are not tied to it.
- Threshold rules, their operators and the cache of compiled thresholds.
- AlarmStates.SentExactly: holds for runs whose intervals pruning spares, as `PruningInvisible` does; `InvisibleIff` shows that this condition on the intervals cannot be relaxed. The zero-time defaults, threshold values that are not numbers and the cached repeat interval are not modelled.
- The breaker's `Execute` wrapper, its statistics and retry hints.
- Tokenising of raw requests, hex formatting and the raw-response parsers. Function codes other than 3 and 6 are passed through as the source does.
- JSON payloads, the latest-data upload of the Sagoo adapter, adapter lifecycles, and the iThings, PandaX and Xunji queues, which repeat the modelled shapes. Building commands from a downlink message is not modelled; the commands are an input.
- The MQTT queue is modelled on values, because it hands over its whole slice: sharing of backing arrays is modelled for the alarm queue and for the queue functions.
- SQL text, statement caches, object pools and value types. Tables are maps and sequences, a statement succeeds as a whole or fails as a whole, and a transaction is atomic. Device names are carried by no row.
- CacheWrites.Store.InTransaction: the history is the sequence of rows inserted; that two rows of one key and time replace each other is modelled with the move to disk, and limits, retention and the count of rows pending for synchronisation are left out.
- CacheWrites.Store.Insert: the same.
- The order between queued writes and the direct write taken when the queue is full, which the code does not preserve.
- Copying by an attached database, which the source tries before the row-by-row copy and which has the same effect.
- LatestData.GetAllDevicesLatestData: covers a configured disk database and no read errors, and times are counted from the zero time.
- HTTP handlers, routing, authentication, configuration, logging and the front end.
