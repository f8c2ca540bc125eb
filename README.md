# CosScheduler in Dafny

CosScheduler is a small cooperative scheduler, written in C, for the
openCM9.04 and RX63N boards. This project models its core and proves
properties about it:

- **Task list** (`task_list.dfy`): the `CosTask_t` record, the singly linked
  `Node_t` list and the payload-swapping bubble sort.
  - Task records sit in a `TaskHeap`, a map from handle to record.
  - Nodes are real objects. A `TaskList` owns them and keeps a ghost
    sequence of the tasks they carry, head first.
- **Scheduler** (`scheduler.dfy`): the `COS_*` task API and the
  `COS_TASK_*` coroutine macros.
  - It includes the idle task and the CPU-load task, with their counter.
  - It models one step of the openCM dispatcher `CosRunScheduler`, taking
    the value of `millis()` as a parameter.
- **Semaphore** (`semaphore.dfy`): the counting semaphore `CosSema_t`, with
  `COS_SEM_WAIT` and `COS_SEM_SIGNAL`.
  - It is modelled as a value (`SemState`), where the documented
    "negative count = number of waiters" invariant and the LIFO wake order
    are proved.
  - It is also modelled as a class over the same list primitives, proved
    against that value.
- **Data FIFO** (`data_fifo.dfy`): the slot ring buffer `CosFifo_t` over an
  `array<bv8>`, with its two semaphores.
  - It is proved against a ghost queue of slots: FIFO order and the
    capacity bounds.
  - It includes the exact 8-bit index arithmetic of the C code.
- **Tick time base** (`sys_time.dfy`): the 16-bit tick counter and the
  conversions, for both platforms.
- **Serial number formatting and parsing** (`ser.dfy`): the serial port is
  two character sequences.
  - Writers append to the output sequence; readers consume the input
    sequence.
  - Each writer is proved to emit a text whose value decodes back to its
    argument.
  - Each reader is proved against a function that gives its outcome on any
    input. The print-then-parse round trips are proved on those functions.

Memory allocation is a parameter: `alloc: Option<TaskId>` is what `malloc`
returned. The clock is also a parameter (`millis`, `nowTicks`). A reader that
runs out of input yields `Starved`; the C code would still be blocked in
`serGetc` at that point.

The active configuration is openCM (`cos_configure.h`). `SysTime.ACTIVE_PLATFORM`
records this, and both platform variants of the time functions are
modelled.

## Model

| member | source | states |
|---|---|---|
| TaskList.TaskState.Code | CosScheduler/utility/cos_linear_task_list.h:89-91 | every task state has a code in 0..2, and decoding that code gives the same state back |
| TaskList.StateOfCode | CosScheduler/utility/cos_linear_task_list.h:89-91 | a state byte names a task state exactly when it is 0, 1 or 2 |
| TaskList.TaskHeap.NewTask | CosScheduler/utility/cos_linear_task_list.c:399-413 | when allocation fails, the handle is NULL and nothing changes; otherwise the new record has the current ticks, sleep 0, READY, the given prio/data/function and lineCnt 0, and no other record changes |
| TaskList.TaskHeap.Free | CosScheduler/utility/cos_scheduler.c:483-492 | freeing a task invalidates exactly that handle |
| TaskList.Node.constructor | CosScheduler/utility/cos_linear_task_list.c:357-365 | a new node carries the task and has no successor |
| TaskList.IndexOf | CosScheduler/utility/cos_linear_task_list.c:255-267 | gives the first position holding the handle: it holds the handle and no earlier position does |
| TaskList.RemoveFirstMultiset | CosScheduler/utility/cos_linear_task_list.c:191-216 | removing the first occurrence of a task takes exactly one copy of it out of the list, and none when it is absent |
| TaskList.TaskList.Prepend | CosScheduler/utility/cos_linear_task_list.c:142-148 | the new head is a fresh node carrying the task; its successors are the old nodes, unchanged and in order |
| TaskList.TaskList.Search | CosScheduler/utility/cos_linear_task_list.c:255-267 | returns NULL exactly when the handle is not listed, otherwise the first node carrying that handle |
| TaskList.TaskList.SearchPredecessor | CosScheduler/utility/cos_linear_task_list.c:304-325 | returns NULL for an empty list, a task at the head or an absent task, otherwise the node right before the task's first node |
| TaskList.TaskList.Unlink | CosScheduler/utility/cos_linear_task_list.c:191-216 | removes exactly the first node carrying the task and keeps the others in order; an absent task changes nothing; at the head the root becomes the old second node, elsewhere the root stays |
| TaskList.TaskList.UnlinkRoot | CosScheduler/utility/cos_linear_task_list.c:199-203 | when the head node carries the task, the root moves to the second node and exactly the first element leaves the list |
| TaskList.TaskList.UnlinkLater | CosScheduler/utility/cos_linear_task_list.c:205-214 | when the task's first node lies past the head, its predecessor is linked to its successor: exactly that element leaves the list and the root stays |
| TaskList.RemoveFirstKeepsSorted | CosScheduler/utility/cos_linear_task_list.c:191-216 | unlinking from a list sorted by priority leaves it sorted |
| TaskList.SwapKeepsPrioOrder | CosScheduler/utility/cos_linear_task_list.c:456-461 | swapping two neighbours of different priority is a permutation that keeps the relative order of every priority class |
| TaskList.PassEnd | CosScheduler/utility/cos_linear_task_list.c:449-465 | a bubble pass without swaps means the list is sorted; a pass with swaps settles one more element at the tail |
| TaskList.TaskList.SwapWithNext | CosScheduler/utility/cos_linear_task_list.c:456-461 | swaps the payloads of a node and its successor; nodes and root stay; the result is a stable permutation |
| TaskList.TaskList.CompareNext | CosScheduler/utility/cos_linear_task_list.c:455-461 | swaps exactly when the first of two neighbours has strictly lower priority; the pass advances one node and the list stays a stable permutation of what it was |
| TaskList.TaskList.BubblePass | CosScheduler/utility/cos_linear_task_list.c:449-465 | one pass is a stable permutation over the same nodes; no swaps means sorted, otherwise the settled tail grows |
| TaskList.TaskList.Sort | CosScheduler/utility/cos_linear_task_list.c:442-466 | afterwards priorities do not increase along the list; the tasks are a permutation of the old ones; equal priorities keep their order; the root and the nodes are the same |
| SysTime.SystemTime.TimerInterrupt | CosScheduler/utility/cos_systime.c:159-174 | the tick counter goes up by one and wraps from 65535 to 0 |
| SysTime.SystemTime.GetTimeTicks | CosScheduler/utility/cos_systime.c:259-265 | on RX63N it answers the tick counter; the openCM stand-in answers 0 |
| SysTime.MicroSecPerTick | CosScheduler/utility/cos_systime.c:247-249 | a tick lasts 1000 microseconds on both platforms |
| SysTime.MilliSecToTicks | CosScheduler/utility/cos_systime.c:279-285 | for at least 1 ms the ticks cover exactly the milliseconds asked for; on RX63N the result is never 0 and 0 ms gives exactly 1 tick; on openCM 0 ms is 0 ticks |
| SysTime.ElapsedTicks | CosScheduler/CosScheduler.cpp:438-439 | the 16-bit difference is the number of ticks that, added to the last activation modulo 2^16, gives now |
| SysTime.ElapsedAcrossWrap | CosScheduler/CosScheduler.cpp:437-439 | across a counter wrap, the 16-bit difference equals the true ticks elapsed whenever fewer than 2^16 passed |
| Scheduler.DueAfterSleep | CosScheduler/CosScheduler.cpp:438-440 | a READY task becomes eligible exactly when its sleep time has passed, even across a wrap of the tick counter |
| Scheduler.FirstDue | CosScheduler/CosScheduler.cpp:426-458 | gives the first position of the list whose task is due at one clock reading: that task is eligible and every task before it is not; none only when no task is eligible |
| Scheduler.FirstDueIsMostUrgent | CosScheduler/CosScheduler.cpp:426-458 | in the sorted list, the task dispatched has a priority at least that of every other eligible task |
| Scheduler.Scheduler.RunSchedulerStep | CosScheduler/CosScheduler.cpp:438-455 | runs the task under the cursor exactly when it is READY and its sleep has elapsed; a run sets its last activation to now and its sleep to 0 and hands the task over to be called, and the next cursor is the root of the list as it stands at dispatch time; otherwise nothing changes and the cursor moves to the next node, wrapping to the root |
| Scheduler.Scheduler.ScanFromRoot | CosScheduler/CosScheduler.cpp:432-455 | starting at the root and stepping node by node with one clock reading, the task run is exactly the first due task of the list (FirstDue), nothing runs only when no task is due, and the task run has the highest priority among the due tasks |
| Scheduler.Scheduler.ScanTurn | CosScheduler/CosScheduler.cpp:438-455 | with no earlier task due, the turn at position i either runs the first due task, or wraps to the root when no task is due, or moves to position i + 1 with no task due before it |
| Scheduler.TaskBegin | CosScheduler/utility/cos_scheduler.h:113 | a task body starts at the top exactly when lineCnt is 0, and otherwise resumes at the label lineCnt names |
| Scheduler.ResumeAfterYield | CosScheduler/utility/cos_scheduler.h:141-144 | after a yield at a label, the next activation resumes at that label; only the sleep time and lineCnt change |
| Scheduler.Scheduler.TaskSchedule | CosScheduler/utility/cos_scheduler.h:141-144 | the task's sleep becomes 0 and its resume label is recorded; nothing else changes |
| Scheduler.Scheduler.TaskSleep | CosScheduler/utility/cos_scheduler.h:174-177 | the task's sleep becomes the given ticks and its resume label is recorded; nothing else changes |
| Scheduler.Scheduler.TaskEnd | CosScheduler/utility/cos_scheduler.h:213 | the task leaves the task list (the others keep their order) and its record is freed |
| Scheduler.Scheduler.InitTaskList | CosScheduler/utility/cos_scheduler.c:355-370 | returns 0; the list holds exactly the load task (prio 255) and then the idle task (prio 0), each only if it was allocated, with fresh records |
| Scheduler.InitListShape | CosScheduler/utility/cos_scheduler.c:355-370 | a sorted list holding the load task and the idle task is the load task followed by the idle task |
| Scheduler.Scheduler.CreateTask | CosScheduler/utility/cos_scheduler.c:444-461 | when allocation fails it returns NULL and changes nothing; otherwise the new task is listed once, the list is sorted, and the new task comes before older tasks of the same priority |
| Scheduler.Scheduler.PrependAndSort | CosScheduler/utility/cos_scheduler.c:457-458 | the new task is added once to a sorted list of live tasks, which is sorted again with the new task ahead of the older tasks of its priority |
| Scheduler.AddedTaskKeepsTasks | CosScheduler/utility/cos_scheduler.c:444-461 | adding a new task to a duplicate-free list of live tasks keeps it duplicate-free and live |
| Scheduler.Scheduler.DeleteTask | CosScheduler/utility/cos_scheduler.c:483-492 | always returns 0; the task is no longer listed, the rest keep their order and the record is freed |
| Scheduler.RemovedTaskKeepsTasks | CosScheduler/utility/cos_scheduler.c:483-492 | deleting a task keeps the list duplicate-free and sorted, with every listed task live |
| Scheduler.Scheduler.SuspendTask | CosScheduler/utility/cos_scheduler.c:512-523 | returns -1 and changes nothing when the task is not listed; otherwise returns 0 and only its state changes, to SUSPENDED |
| Scheduler.Scheduler.ResumeTask | CosScheduler/utility/cos_scheduler.c:541-552 | returns -1 and changes nothing when the task is not listed; otherwise returns 0 and only its state changes, to READY |
| Scheduler.Scheduler.SetTaskPrio | CosScheduler/utility/cos_scheduler.c:566-578 | returns -1 and changes nothing when the task is not listed; otherwise returns 0, only its priority changes, and the list is re-sorted |
| Scheduler.Scheduler.RootPointer | CosScheduler/utility/cos_scheduler.c:796-799 | the root is NULL exactly when no task is listed, and otherwise carries a task of maximal priority |
| Scheduler.Scheduler.GetCPULoadInPercent | CosScheduler/utility/cos_scheduler.c:777-779 | the reported load is the stored percentage, always within 0..100 |
| Scheduler.IdleTick | CosScheduler/utility/cos_scheduler.c:276-287 | the idle task lowers the load counter by one, stopping at 0, and leaves the percentage alone |
| Scheduler.LoadSample | CosScheduler/utility/cos_scheduler.c:307-316 | the load task publishes the counter as the percentage and resets the counter to 100 |
| Scheduler.IdleTicksCount | CosScheduler/utility/cos_scheduler.c:276-287 | k idle activations lower the counter by k, never below 0 |
| Scheduler.LoadEstimate | CosScheduler/utility/cos_scheduler.c:276-316 | with k idle activations between two samples, the published load is 100 - k, and 0 once k exceeds 100 |
| Scheduler.MeterStaysInRange | CosScheduler/utility/cos_scheduler.c:276-316 | the counter and the percentage both stay within 0..100 |
| Scheduler.Scheduler.IdleTaskActivation | CosScheduler/utility/cos_scheduler.c:276-287 | one idle activation ticks the load meter down and puts the idle task to sleep for its period |
| Scheduler.Scheduler.LoadMeasureActivation | CosScheduler/utility/cos_scheduler.c:307-316 | one load activation samples the meter and puts the load task to sleep for its period |
| Semaphore.WaitKeepsBalanced | CosScheduler/utility/cos_semaphore.h:179-186 | a wait keeps "a negative count is the number of waiters, otherwise nobody waits", and a blocking task heads the list |
| Semaphore.SignalKeepsBalanced | CosScheduler/utility/cos_semaphore.c:230-241 | a signal keeps the invariant, and it wakes a task exactly when the count was negative |
| Semaphore.RunKeepsBalanced | CosScheduler/utility/cos_semaphore.h:24-26 | any sequence of waits and signals keeps the invariant; the count moves by +1 per signal and -1 per wait |
| Semaphore.WaitAllStacks | CosScheduler/utility/cos_semaphore.h:179-186 | tasks waiting at a count that is not positive all block, and the list holds them latest first |
| Semaphore.WakeOrderPrefix | CosScheduler/utility/cos_semaphore.c:230-241 | successive signals wake the waiting tasks from the head of the list on |
| Semaphore.LifoWake | CosScheduler/utility/cos_semaphore.c:236-238 | tasks that block one after another are woken in reverse order, the latest first |
| Semaphore.CosSema.Create | CosScheduler/utility/cos_semaphore.c:125-130 | returns 0; the count is the start value and the waiting list is empty |
| Semaphore.CosSema.Destroy | CosScheduler/utility/cos_semaphore.c:173-184 | returns 0; the waiting list is emptied and the count is unchanged |
| Semaphore.CosSema.Wait | CosScheduler/utility/cos_semaphore.h:179-186 | always records the resume label and decrements the count; when the count was not positive, the task becomes BLOCKED, is prepended, and no clock value makes it eligible |
| Semaphore.CosSema.Signal | CosScheduler/utility/cos_semaphore.c:230-241 | increments the count; with waiters, the head task becomes READY and only its node leaves the list; without waiters, only the count changes |
| DataFifo.AdvanceNextSlot | CosScheduler/utility/cos_data_fifo.c:340-341 | when the buffer has at most 256 bytes, the 8-bit index advance moves from the start of slot j to the start of the next slot, wrapping to slot 0 |
| DataFifo.IndexTruncationCounterexample | CosScheduler/utility/cos_data_fifo.c:340-341 | with 3 slots of 100 bytes, the 8-bit advance from slot 2 lands on byte 44 instead of slot 0 |
| DataFifo.RingWriteAppends | CosScheduler/utility/cos_data_fifo.c:327-346 | writing a slot into a non-full ring appends exactly that slot to its queue of contents |
| DataFifo.RingPopFront | CosScheduler/utility/cos_data_fifo.c:380-399 | reading from a non-empty ring yields the oldest slot and removes exactly it from the queue |
| DataFifo.WriteAllAppends | CosScheduler/utility/cos_data_fifo.c:327-346 | a series of writes appends its slots to the queue in order |
| DataFifo.ReadAllTakes | CosScheduler/utility/cos_data_fifo.c:380-399 | a series of k reads yields the first k slots of the queue |
| DataFifo.FifoOrder | CosScheduler/utility/cos_data_fifo.c:327-399 | slots are read back in exactly the order they were written |
| DataFifo.CosFifo.Create | CosScheduler/utility/cos_data_fifo.c:138-161 | without memory it returns 255, sets the buffer pointer to NULL and changes nothing else (sizes, indices, count, initialised flag, semaphores); otherwise it returns 0 with an empty initialised ring, the sizes stored, the read semaphore at 0 and the write semaphore at nSlots |
| DataFifo.CosFifo.CreateSemas | CosScheduler/utility/cos_data_fifo.c:152-159 | the read semaphore starts at 0 and the write semaphore at the number of slots, both with empty waiting lists |
| DataFifo.CosFifo.Destroy | CosScheduler/utility/cos_data_fifo.c:186-201 | an uninitialised FIFO gives 255 and is unchanged; otherwise it returns 0, the buffer is released, the FIFO is marked uninitialised and both semaphores' waiting lists are emptied, their counts kept; no other field of the FIFO changes on either path |
| DataFifo.CosFifo.IsEmpty | CosScheduler/utility/cos_data_fifo.c:237-249 | -1 exactly when uninitialised; otherwise 1 exactly when no slot is used, which is when the queue is empty |
| DataFifo.CosFifo.IsFull | CosScheduler/utility/cos_data_fifo.c:286-298 | -1 exactly when uninitialised; otherwise 1 exactly when all slots are used, which is when the queue holds maxSlots slots |
| DataFifo.CosFifo.GetUsedSlots | CosScheduler/utility/cos_data_fifo.c:419-421 | the used-slot count is the length of the queue |
| DataFifo.CosFifo.GetMaxSlots | CosScheduler/utility/cos_data_fifo.c:439-441 | the queue never holds more than this many slots, and the buffer holds exactly that many slots |
| DataFifo.CosFifo.GetSlotSize | CosScheduler/utility/cos_data_fifo.c:457-460 | every queued slot is exactly this many bytes long |
| DataFifo.CosFifo.PutSlot | CosScheduler/utility/cos_data_fifo.c:338-343 | copies the data at the write index, advances it and counts the slot, which appends the data to the queue |
| DataFifo.CosFifo.TakeSlot | CosScheduler/utility/cos_data_fifo.c:391-396 | copies out the slot at the read index, advances it and uncounts the slot, which yields and removes the queue's head |
| DataFifo.CosFifo.Write | CosScheduler/utility/cos_data_fifo.c:327-346 | returns -1 when uninitialised, else 0 when full, else 1; on 0 and -1 nothing changes; on 1 the slot is appended to the queue and the read semaphore is signalled; the buffer, sizes, read index and initialised flag never change |
| DataFifo.CosFifo.Read | CosScheduler/utility/cos_data_fifo.c:380-399 | returns -1 when uninitialised, else 0 when empty, else 1; on 0 and -1 nothing changes; on 1 the oldest slot is returned and removed and the write semaphore is signalled; the buffer, sizes, write index and initialised flag never change |
| DataFifo.CosFifo.BlockingWriteWait | CosScheduler/utility/cos_data_fifo.h:182-183 | the wait half of a blocking write is a semaphore wait on the write semaphore only |
| DataFifo.CosFifo.BlockingReadWait | CosScheduler/utility/cos_data_fifo.h:211-212 | the wait half of a blocking read is a semaphore wait on the read semaphore only |
| Ser.DigitChar | CosScheduler/utility/cos_ser.c:300-302 | the character written for a digit value is a decimal digit that reads back as that value |
| Ser.HexChar | CosScheduler/utility/cos_ser.c:259-264 | the character written for a nibble is an upper-case hex digit that reads back as that nibble |
| Ser.BinRoundTrip | CosScheduler/utility/cos_ser.c:215-223 | the k binary digits of a number below 2^k, most significant first, read back as that number |
| Ser.HexRoundTrip | CosScheduler/utility/cos_ser.c:336-355 | the k hex digits of a number below 16^k, most significant first, read back as that number |
| Ser.DecRoundTrip | CosScheduler/utility/cos_ser.c:296-308 | the decimal text of a number reads back as that number |
| Ser.DecLength | CosScheduler/utility/cos_ser.c:296-308 | a number below 10^k has at most k decimal digits, so 16-bit values fit the 5-letter buffer and 32-bit ones the 10-letter buffer |
| Ser.SerialPort.Puts | CosScheduler/utility/cos_ser.c:179-185 | sends the string up to, not including, its first NUL |
| Ser.SerialPort.OutUint8Bin | CosScheduler/utility/cos_ser.c:215-223 | sends " 0b" and then the 8 bits, most significant first |
| Ser.SerialPort.OutUint8Hex | CosScheduler/utility/cos_ser.c:255-265 | sends " 0x" and then 2 upper-case hex digits, leading zeros kept |
| Ser.SerialPort.OutUint16Hex | CosScheduler/utility/cos_ser.c:336-355 | sends " 0x" and then 4 upper-case hex digits, leading zeros kept |
| Ser.SerialPort.OutUint32Hex | CosScheduler/utility/cos_ser.c:485-520 | sends " 0x" and then 8 upper-case hex digits, leading zeros kept |
| Ser.SerialPort.StoreDigits | CosScheduler/utility/cos_ser.c:300-303 | the do-while stores at least one digit, within the buffer, and the stored letters read backwards are the decimal text |
| Ser.SerialPort.SendBackwards | CosScheduler/utility/cos_ser.c:304-307 | sends the stored letters from the last one to the first |
| Ser.SerialPort.OutUint16Dec | CosScheduler/utility/cos_ser.c:296-308 | sends ' ' and the decimal text: no leading zeros, "0" for zero |
| Ser.SerialPort.OutInt16Dec | CosScheduler/utility/cos_ser.c:391-409 | sends ' ', then '-' exactly for a negative value, then the magnitude's decimal text, -32768 included |
| Ser.SerialPort.PutSigned | CosScheduler/utility/cos_ser.c:397-408 | sends '-' exactly for a negative value and then the decimal text of its magnitude |
| Ser.SerialPort.OutUint32Dec | CosScheduler/utility/cos_ser.c:443-455 | sends ' ' and the decimal text |
| Ser.SerialPort.OutInt32Dec | CosScheduler/utility/cos_ser.c:556-574 | sends ' ', then '-' exactly for a negative value, then the magnitude's decimal text |
| Ser.SerialPort.Gets | CosScheduler/utility/cos_ser.c:689-704 | consumes up to and including the first CR; stores what came before it followed by a NUL in place of the CR, and returns that count modulo 256 |
| Ser.UDecSkip | CosScheduler/utility/cos_ser.c:745-764 | printable non-digits before the first digit are skipped |
| Ser.UDecNoNumber | CosScheduler/utility/cos_ser.c:745-764 | a control character before any digit gives -1 and stores nothing |
| Ser.UDecAfterError | CosScheduler/utility/cos_ser.c:745-764 | once the value has exceeded 65535, the reader returns 1 at the end of the digits and stores nothing |
| Ser.UDecAccept | CosScheduler/utility/cos_ser.c:745-764 | 1 to 255 digits after skippable characters, ended by a non-digit, give 0 and store their value if it is at most 65535, and otherwise give 1 and store nothing |
| Ser.UDecRoundTrip | CosScheduler/utility/cos_ser.c:745-764 | what OutUint16Dec prints, followed by CR, reads back as the same number |
| Ser.SerialPort.InUint16Dec | CosScheduler/utility/cos_ser.c:745-764 | consumes its input as the unsigned decimal reader dictates: the outcome is UDecIn of the input and the rest stays unread |
| Ser.IDecSkip | CosScheduler/utility/cos_ser.c:802-828 | printable characters other than digits and signs are skipped before the number |
| Ser.IDecFirstDigit | CosScheduler/utility/cos_ser.c:808-814 | an optional '+' or '-' is consumed before the first digit, which starts the value; only '-' makes it negative |
| Ser.IDecAfterError | CosScheduler/utility/cos_ser.c:802-828 | once the magnitude has left the int16 range, the reader returns 1 at the end of the digits and stores nothing |
| Ser.IDecAccept | CosScheduler/utility/cos_ser.c:802-828 | an optional '+' or '-' and 1 to 255 digits give 0 and store the signed value if it is within -32768..32767, and otherwise give 1 |
| Ser.IDecRoundTrip | CosScheduler/utility/cos_ser.c:802-828 | what OutInt16Dec prints, followed by CR, reads back as the same number, -32768 included |
| Ser.SerialPort.InInt16Dec | CosScheduler/utility/cos_ser.c:802-828 | consumes its input as the signed decimal reader dictates: the outcome is IDecIn of the input and the rest stays unread |
| Ser.HexAccept | CosScheduler/utility/cos_ser.c:868-886 | after "0x" or "0X", printable characters up to a control character give 0 with the hex value, or 1 once the value exceeds 65535 |
| Ser.HexInRoundTrip | CosScheduler/utility/cos_ser.c:868-886 | "0x", four hex digits of a 16-bit value and CR read back as that value |
| Ser.SerialPort.InUint16Hex | CosScheduler/utility/cos_ser.c:868-886 | consumes its input as the hex reader dictates: -1 unless it starts with "0x"/"0X", and otherwise the outcome of HexIn |

## Left out

- Hardware bring-up (`_initSystemTime`'s register writes, `serInit`, LED debug macros, interrupt wiring) is memory-mapped I/O and has no logical content to model.
- The raw serial primitives are not modelled: `serPutc` appends to `output` and `serGetc` takes from `input`.
  - The echo inside `serGetc` is left out with them.
  - The openCM stand-ins (an empty `serPutc`, a `serGetc` that returns 0) are not modelled; the model follows the RX63N copy of cos_ser.c, whose logic is the same as the openCM copy's.
  - `serPollc` is not modelled either.
- `COS_PrintTaskList`, `CosPrintTaskList` and `CosVersionInfo` only print.
- The `Cos*` wrappers in CosScheduler.cpp each return their `COS_*` counterpart's result unchanged. The `Scheduler.Scheduler` methods model both.
- The round-robin `COS_RunScheduler` is compiled out by `PRIO_BASED_SCHEDULING`.
- The RX63N `COS_RunScheduler` applies the same eligibility, reset and restart rule as `CosRunScheduler`. `Scheduler.Scheduler.RunSchedulerStep` stands for both, taking the clock reading as a parameter.
- The endless dispatch loops are modelled as one step (`RunSchedulerStep`) and as one scan from the root up to the first task run (`ScanFromRoot`), and task bodies as opaque callbacks.
  - The `switch`/`__LINE__` resume trick is an abstract label in `lineCnt`.
  - Calling the task function is not modelled.
- Scheduler.Scheduler.ScanFromRoot: uses one clock reading for the whole scan. `CosRunScheduler` reads `millis()` again on every turn, so a task that becomes due after the cursor has passed it waits for the next lap; the scan runs the `FirstDue` task only while the clock stands still.
- Scheduler.Scheduler.ScanFromRoot: on an empty task list it returns without running anything. `CosRunScheduler` dereferences the NULL root there (`pt->task_pt` at CosScheduler.cpp:438), which the model does not reproduce; the list is never empty after `InitTaskList` obtained either of its two tasks.
- Scheduler.Scheduler.RunSchedulerStep: the `resume` cursor is the root at dispatch time. `CosRunScheduler` re-reads the root after the task body returns (CosScheduler.cpp:448), so a body that creates, deletes or re-prioritises tasks can move it; task bodies are outside the model.
- The tick interrupt is an atomic step. Concurrency between the interrupt and the main loop is not modelled.
- `free` of a node is not modelled, since nodes are garbage-collected objects here.
  - `_newNode` is assumed to succeed, as `_addTaskAtBeginningOfTaskList` never checks it.
  - A task record's `free` removes the handle from `TaskHeap`.
- Semaphore.CosSema.Wait, Semaphore.CosSema.Signal, DataFifo.CosFifo.Write, DataFifo.CosFifo.Read, DataFifo.CosFifo.BlockingWriteWait, DataFifo.CosFifo.BlockingReadWait: require that the `int8` count of the semaphore they signal or wait on does not wrap (-128 / 127). The C code does not guard against that.
- DataFifo.CosFifo.Create: requires `nSlots <= 127` because `nSlots` becomes the `int8` start value of the write semaphore. It also requires `slotSize * nSlots <= 256` so the 8-bit indices stay correct (see Findings). The dead NULL checks of `COS_SemCreate` are not modelled.
- DataFifo.CosFifo.Read: returns the slot's bytes instead of copying them into a caller's buffer with `memcpy`. Write takes its data as a sequence.
- DataFifo.CosFifo.Write, DataFifo.CosFifo.Read: the model does not connect the semaphore counts to `usedSlots`. The blocking macros rely on that protocol, which holds only when every access goes through them.
- A task deleted while it waits in a semaphore list leaves a dangling handle in that list. The model does not rule this out: `Signal`, `Write` and `Read` require only that the task at the head of the list they signal is live, as the C code touches only that one. Waking a deleted head task is not modelled.
- Ser.SerialPort.OutInt32Dec: requires the argument is not `INT32_MIN`, whose negation overflows in the C code.
- Ser.SerialPort.OutUint8Bin: computes bit `7 - i` of the argument directly. The C code gets the same bit by shifting `x` left one place per iteration.
- Ser.SerialPort.Gets: does not model the caller's buffer, which the C code may overrun.
- Ser.IDecLoop: keeps the accumulated `int32` value unbounded after the error flag is set. It is no longer stored then; the C value could overflow after about nine more digits.
- Ser.UDecAccept, Ser.IDecAccept: cover 1 to 255 digits. The `uint8_t` digit counter `n` wraps after 255 digits, and the readers model that wrap but no lemma is stated beyond it.
- Ser.HexInRoundTrip: is stated without the leading space that `serOutUint16Hex` prints. `serInUint16Hex` expects '0' as its first character, so it does not accept the writer's output as printed.

Notes on what the C code does, which the model follows:

- Priority order: the list is kept in non-increasing priority, so 255 (the load task) comes first and 0 (the idle task) last.
- Insertion: `COS_CreateTask` prepends the new task and then bubble-sorts stably. A new task therefore goes before the older tasks of the same priority.
- Dispatch: `CosRunScheduler` leaves the list alone. It scans with a cursor, runs the first eligible task and restarts at the root.
- Milliseconds to ticks: the RX63N code truncates and then raises 0 to 1. The openCM code returns its argument, so 0 ms is 0 ticks.
- Removal of an absent task: `COS_DeleteTask` returns 0 in every case. Only suspend, resume and set-priority return -1.
- Allocation: tasks, nodes and FIFO buffers come from `malloc`.
- FIFO indices: the read and write indices are byte offsets kept in 8 bits and taken modulo the buffer size (see Findings).

## Findings

| source | as written | input that shows it | evidently intended | confidence | as-written member | corrected member |
|---|---|---|---|---|---|---|
| CosScheduler/utility/cos_data_fifo.c:340-341 | `wIndex += slotSize` in a `uint8_t`, then `% (maxSlots*slotSize)`, wraps at 256 before the modulo | slotSize=100, nSlots=3 (documented range 1..255 each): from slot 2 at byte 200 the index becomes 44, not 0 | the index moves to the next slot start, wrapping to 0, which holds when maxSlots*slotSize <= 256 | not executed | DataFifo.IndexTruncationCounterexample | DataFifo.AdvanceNextSlot |
