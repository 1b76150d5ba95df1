# libStableEvent reactor bookkeeping, in Dafny

This project models the bookkeeping core of libStableEvent's epoll reactor and
proves properties of it. The model has four parts, one module each.

- `opt_map.dfy`, module `DataStruct`. This is `opt_map`, the descriptor-keyed
  lookup. Keys below `ARRAY_SIZE` live in a dense array of nullable slots.
  Larger keys live in an overflow map. The class `OptMap` keeps both in fields
  and a ghost abstraction of them:
  - `Contents` holds the live entries;
  - `NullKeys` holds the overflow keys whose entry holds null.

  `operator[]` can create such a null entry. It then blocks `insert` on that
  key until the key is erased, cleared or overwritten.
- `util.dfy`, module `Util`. This is `move_iov`, the POSIX `struct iovec`
  cursor advance.
  - Segments are `(base, len)` pairs, and the cursor is an index and a count
    into an array.
  - `Move` is the specification of the whole call. The method `MoveIov` is
    the loop, proved equal to it.
  - The lemmas relate `Move` to `Advance`, a plain description of "drop the
    first `m` bytes". They prove conservation of bytes and the exhaustion
    condition.
- `event_action.dfy`, module `EventActions`. This is `event_action`: the
  interest mask, four callbacks, two FIFO task queues and two readiness flags.
  - `ActionState` is the value of these fields, with one pure operation per
    setter and disabler.
  - The class `EventAction` holds the fields. Each of its methods is proved to
    perform exactly that operation in place.
- `epoll.dfy`, module `Reactor`. This is the `epoll` reactor and its
  `event_info` records.
  - The three `submit_async_*` entry points all use `Epoll.Submit`. It
    rejects a call without an epoll descriptor or with a negative descriptor.
    Otherwise it finds or creates the record and makes the record's step
    (`SubmitStep`). It then stores a new record, puts the record on the change
    list at most once, and queues the action when it is already ready.
  - `apply_one_change` chooses ADD, MOD or DEL and follows the retry matrix.
    The pure `ApplyOne` describes this, and `Epoll.ApplyOneChange` carries it
    out on the record and the table.
  - `apply_changes` applies every listed record's transition in order.
  - `dispatch` applies and clears the change list, then waits without blocking
    when actions are already ready. It treats EINTR as success, marks what the
    kernel reported, and drains the ready queue.
  - `close` forgets the epoll descriptor, the table and the change list.

The kernel is not called. Its results are parameters:
- `Init` receives what `epoll_create1` returned.
- Each listed record receives a `CtlAnswers`, the answer to its first
  `epoll_ctl` and to the retry.
- `Dispatch` receives a `WaitResult`, either an errno or at most `EVENT_CNT`
  (action, mask) pairs.

`Ctl` is a model of the kernel's interest list. `ApplyOneSynchronises`
proves what one `apply_one_change` does against answers consistent with it:
- a record with interest ends registered with its mask;
- a record without interest ends erased and unregistered, when the reactor
  believed it registered or the kernel does not hold its descriptor.

The remaining case is a record without interest that the reactor never
registered, while the kernel holds its descriptor. The source erases that
record without a kernel call, so the kernel's registration outlives it
(`StaleRegistrationSurvives`).

Bit masks are sets of bits:
- `a | b` is `a + b`;
- `a & ~b` is `a - b`;
- `a & b != 0` is `a * b != {}`.

`MaskValue` and `EvValue` tie the bits to the values in Linux
`<sys/epoll.h>` and in the source's `EVENT` enum.

Where the code does something other than its names or comments suggest, the
model follows the code:
- `move_iov` returns -1 both for a zero-segment cursor and for an exhausted
  one, so the two cases cannot be told apart (`MinusOneIsAmbiguous`).
- The callback test compares `target<void(*)(int32_t)>()` of the callback
  passed in with that of the one the action stores. For a plain function
  pointer this is the address of the pointer inside that `std::function`
  object, so two different objects never compare equal. For a lambda or an
  empty callback it is null. The two targets are therefore equal only when
  both are null:
  - a function pointer is always installed, even the one already installed
    (`SamePointerReinstalls`);
  - a lambda is installed only over a function pointer;
  - a lambda's first submit leaves no interest.
  `LambdaFirstSubmitIsDropped` shows that the next `apply_one_change` then
  erases the record without a kernel call.
- `apply_one_change` clears the change-list flag only on the paths that keep
  the record. The paths that erase it return before clearing the flag.
- `handle_events` has an empty body, so draining the ready queue runs no task.
- `close` leaves the ready queue as it is.

## Model

| member | source | states |
|---|---|---|
| DataStruct.OptMap.constructor | include/data_struct/opt_map.h:46-48 | a new map has no live entry and no null entry |
| DataStruct.OptMap.Find | include/data_struct/opt_map.h:63-74 | changes nothing; yields the value exactly when the key is live, and null for a missing dense or overflow key |
| DataStruct.OptMap.Insert | include/data_struct/opt_map.h:84-102 | succeeds exactly for a non-null value on a key that is neither live nor a null overflow entry; on success only that key changes, on failure nothing; a dense key leaves the overflow map alone and an overflow key the array |
| DataStruct.OptMap.Erase | include/data_struct/opt_map.h:108-115 | the key is no longer live and every other key is unchanged; routing as for insert |
| DataStruct.OptMap.Index | include/data_struct/opt_map.h:117-123 | reading through `operator[]` yields the live value or null; on a missing overflow key it creates a null entry |
| DataStruct.OptMap.IndexStore | include/data_struct/opt_map.h:117-123 | writing through `operator[]` stores the value, null included; a null stored at an overflow key becomes a null entry |
| DataStruct.OptMap.Clear | include/data_struct/opt_map.h:128-133 | afterwards no key is live and there is no null entry |
| DataStruct.SecondInsertFails | include/data_struct/opt_map.h:84-102 | a second insert on a key before any erase fails and keeps the first value |
| DataStruct.NullEntryBlocksInsert | include/data_struct/opt_map.h:84-123 | after `operator[]` reads a missing overflow key, `find` still yields null but `insert` fails |
| DataStruct.NullSlotIsFree | include/data_struct/opt_map.h:84-123 | the same read on a dense key leaves the slot free: insert succeeds and find yields the value |
| DataStruct.ClearThenInsert | include/data_struct/opt_map.h:84-133 | after clear any non-null insert succeeds and is the only entry |
| Util.Skipped | source/util/util.cpp:88-94 | the number of consumed segments is at most the count, and the first segment not consumed is longer than what is left to move |
| Util.Shrink | source/util/util.cpp:95-96 | the shrunk segment's base grows by the leftover and its length drops by the same amount |
| Util.SkippedAccountsForMove | source/util/util.cpp:88-94 | the consumed segments and the leftover add up to exactly the bytes moved |
| Util.ExhaustedIff | source/util/util.cpp:88-99 | every segment is consumed exactly when the bytes moved reach the total length |
| Util.AdvanceConserves | source/util/util.cpp:88-97 | what remains after the advance is the old total minus the bytes moved, or nothing when those cover the total |
| Util.MoveAdvances | source/util/util.cpp:82-100 | the new cursor delimits exactly the segments still to move, stays inside the old window, and no array entry outside the window changes |
| Util.MoveIov | source/util/util.cpp:82-100 | the return value, new cursor and array are exactly those of `Move`: -1 and nothing changed for zero segments, -1 with the cursor at the end when exhausted, otherwise 0 with the first unconsumed segment shrunk in place |
| Util.MinusOneIsAmbiguous | source/util/util.cpp:84-99 | an empty cursor and an exhausted one both yield -1 |
| EventActions.Target | source/event/epoll.cpp:53-54 | the target is an address inside the callback's own holder exactly when the callback holds a plain function pointer, and null otherwise; so targets taken from two different holders are never the same address |
| EventActions.ActionState.SetReadCallback | include/event/event_action.h:34-37 | the read group is added and no other bit changes; only the read callback is replaced |
| EventActions.ActionState.SetWriteCallback | include/event/event_action.h:38-41 | the write group is added and no other bit changes; only the write callback is replaced |
| EventActions.ActionState.SetCloseCallback | source/event/event_action.cpp:41-45 | the close group is added and no other bit changes; only the close callback is replaced |
| EventActions.ActionState.SetErrorCallback | source/event/event_action.cpp:53-57 | the error group is added and no other bit changes; only the error callback is replaced |
| EventActions.ActionState.DisableReading | source/event/event_action.cpp:29-33 | exactly the read bits are cleared and only the read callback is emptied |
| EventActions.ActionState.DisableWriting | source/event/event_action.cpp:35-39 | exactly the write bits are cleared and only the write callback is emptied |
| EventActions.ActionState.DisableClosing | source/event/event_action.cpp:47-51 | exactly the close bits are cleared and only the close callback is emptied |
| EventActions.ActionState.DisableError | source/event/event_action.cpp:59-63 | exactly the error bits are cleared and only the error callback is emptied |
| EventActions.ActionState.DisableAll | source/event/event_action.cpp:65-72 | no interest and no callback remain; the task queues and ready flags are kept |
| EventActions.ActionState.AddReadTask | include/event/event_action.h:48-50 | the task joins the tail of the read queue; nothing else changes |
| EventActions.ActionState.AddWriteTask | include/event/event_action.h:51-53 | the task joins the tail of the write queue; nothing else changes |
| EventActions.ActionState.SetReadyEvents | include/event/event_action.h:60-67 | a flag is set exactly when it was set or the mask meets its group; no flag is ever cleared |
| EventActions.GroupsDisjoint | source/event/event_action.cpp:14-18 | the four groups are non-empty, pairwise disjoint, free of EPOLLET, and have the values 0x2003, 0x4, 0x10 and 0x8 |
| EventActions.DisableUndoesSet | source/event/event_action.cpp:29-33 | disabling reading undoes setting the read callback when the read group and callback were clear |
| EventActions.EventAction.constructor | include/event/event_action.h:86-95 | a new action has no interest, empty callbacks, empty queues and both flags clear |
| EventActions.EventAction.SetReadCallback | include/event/event_action.h:34-37 | the fields change exactly as `ActionState.SetReadCallback` says |
| EventActions.EventAction.SetWriteCallback | include/event/event_action.h:38-41 | the fields change exactly as `ActionState.SetWriteCallback` says |
| EventActions.EventAction.SetCloseCallback | source/event/event_action.cpp:41-45 | the fields change exactly as `ActionState.SetCloseCallback` says |
| EventActions.EventAction.SetErrorCallback | source/event/event_action.cpp:53-57 | the fields change exactly as `ActionState.SetErrorCallback` says |
| EventActions.EventAction.DisableReading | source/event/event_action.cpp:29-33 | the fields change exactly as `ActionState.DisableReading` says |
| EventActions.EventAction.DisableWriting | source/event/event_action.cpp:35-39 | the fields change exactly as `ActionState.DisableWriting` says |
| EventActions.EventAction.DisableClosing | source/event/event_action.cpp:47-51 | the fields change exactly as `ActionState.DisableClosing` says |
| EventActions.EventAction.DisableError | source/event/event_action.cpp:59-63 | the fields change exactly as `ActionState.DisableError` says |
| EventActions.EventAction.DisableAll | source/event/event_action.cpp:65-72 | the fields change exactly as `ActionState.DisableAll` says |
| EventActions.EventAction.AddReadTask | include/event/event_action.h:48-50 | the fields change exactly as `ActionState.AddReadTask` says |
| EventActions.EventAction.AddWriteTask | include/event/event_action.h:51-53 | the fields change exactly as `ActionState.AddWriteTask` says |
| EventActions.EventAction.SetReadyEvents | include/event/event_action.h:60-67 | the fields change exactly as `ActionState.SetReadyEvents` says |
| EventActions.EventAction.HandleEvents | source/event/event_action.cpp:74-96 | the action's state is unchanged |
| Reactor.EvValue | include/event/epoll.h:44-56 | every EVENT bit is one of the five single-bit values |
| Reactor.EvValueInjective | include/event/epoll.h:44-56 | the five EVENT values are distinct, so OR-ing them into `events_` is a union of bits |
| Reactor.InstallsCases | source/event/epoll.cpp:52-58 | a function pointer is always installed, a lambda exactly when a function pointer is installed, and an empty callback never |
| Reactor.SamePointerReinstalls | source/event/epoll.cpp:130-136 | submitting the function pointer already installed installs it again, and the direction's group is in the action's interest afterwards |
| Reactor.SubmitStep | source/event/epoll.cpp:130-153 | the direction bit ends set, with EPOLLET added when it was missing; the record is enlisted exactly when the bit was missing and it was not yet listed; the callback is replaced exactly when the target test passes; the task joins the tail of its queue; the action is queued as ready exactly when its direction is already ready |
| Reactor.ApplyOne | source/event/epoll.cpp:157-225 | the op selection, the mask with EPOLLET, the single retry on MOD/ENOENT and ADD/EEXIST, erasure exactly for a record without interest that the kernel no longer holds, a cleared flag exactly for a kept record, and the in-epoll flag after success or a successful retry |
| Reactor.ApplyOneSynchronises | source/event/epoll.cpp:182-222 | against a kernel that answers consistently, a record with interest ends registered with its mask; a record without interest that the reactor believed registered, or whose descriptor the kernel does not hold, ends erased and unregistered; no other descriptor changes |
| Reactor.StaleRegistrationSurvives | source/event/epoll.cpp:169-171 | a record without interest that the reactor never registered is erased without a kernel call, so a registration the kernel holds for its descriptor stays |
| Reactor.LambdaFirstSubmitIsDropped | source/event/epoll.cpp:130-173 | a lambda's first submit enlists a record without interest, which the next change erases without a kernel call |
| Reactor.FnPtrFirstSubmitAdds | source/event/epoll.cpp:130-182 | a function pointer's first submit leads to an ADD of the direction's group with EPOLLET |
| Reactor.SecondSubmitIsQuiet | source/event/epoll.cpp:137-146 | a second submit in the same direction changes no interest, does not enlist again, and queues both tasks in order |
| Reactor.EventInfo.constructor | include/event/epoll.h:69-78 | a new record has no EVENT bits, is neither in epoll nor listed, and owns a fresh default action |
| Reactor.EventInfo.Submit | source/event/epoll.cpp:130-153 | the record and its action take exactly the step `SubmitStep` describes |
| Reactor.EventInfo.InstallCallback | source/event/epoll.cpp:130-136 | the action's callback is replaced exactly when the target test passes; the record's own fields do not change |
| Reactor.EventInfo.RaiseInterest | source/event/epoll.cpp:137-144 | the direction bit and EPOLLET are added only when the bit was missing, and only then is the record enlisted, unless it already was |
| Reactor.EventInfo.QueueTask | source/event/epoll.cpp:145-146 | the task joins the tail of the direction's queue |
| Reactor.Epoll.constructor | include/event/epoll.h:140-146 | a new reactor, with a new table, has no epoll descriptor, an empty table, change list and ready queue, and satisfies the invariant |
| Reactor.Epoll.Init | source/event/epoll.cpp:31-38 | keeps the created descriptor and succeeds exactly when it is valid |
| Reactor.Epoll.Lookup | source/event/epoll.cpp:123-129 | yields the table's record for the descriptor, or a fresh default record for it that is not in the table and whose action no record of the table owns |
| Reactor.Epoll.Store | source/event/epoll.cpp:147-149 | a new record, whose action no record of the table owns, is stored under its descriptor, and that insert always succeeds |
| Reactor.Epoll.Enlist | source/event/epoll.cpp:140-143 | the record is appended once, and then the change list and every flag match again |
| Reactor.Epoll.Prepare | source/event/epoll.cpp:123-146 | the found or new record takes `SubmitStep`; the table, lists and descriptor do not change, and neither does any other descriptor's record or its action |
| Reactor.Epoll.Commit | source/event/epoll.cpp:140-153 | a new record is stored, an enlisted record is appended, a ready action is queued, and the invariant is restored |
| Reactor.Epoll.Enqueue | source/event/epoll.cpp:123-154 | a submit past the checks leaves exactly the state `Accepted` describes, leaves every other descriptor's record and its action untouched, and keeps the invariant |
| Reactor.Epoll.Submit | source/event/epoll.cpp:118-155 | -1 and no change without an epoll descriptor or for a negative descriptor; otherwise 0 and the `Accepted` state, with every other descriptor's record and its action untouched |
| Reactor.Epoll.SubmitAsyncAccept | source/event/epoll.cpp:40-77 | an accept is a read-direction submit, with `Submit`'s outcome: -1 and no change, or 0, the `Accepted` state, and every other descriptor's record and action untouched |
| Reactor.Epoll.SubmitAsyncRead | source/event/epoll.cpp:118-155 | a read-direction submit, with `Submit`'s outcome: -1 and no change, or 0, the `Accepted` state, and every other descriptor's record and action untouched |
| Reactor.Epoll.SubmitAsyncWrite | source/event/epoll.cpp:79-116 | a write-direction submit, with `Submit`'s outcome: -1 and no change, or 0, the `Accepted` state, and every other descriptor's record and action untouched |
| Reactor.Epoll.ApplyOneChange | source/event/epoll.cpp:157-225 | the calls made, the table and the record's flags are exactly those `ApplyOne` gives from the record's state and the kernel's answers |
| Reactor.Epoll.ApplyNext | source/event/epoll.cpp:229-231 | one more listed record takes its transition; records already done keep their transition's flags, pending ones their flags, and no record's EVENT bits change |
| Reactor.Epoll.ApplyAll | source/event/epoll.cpp:227-232 | the loop applies the planned transitions in list order, the calls are their calls in that order, and no record's EVENT bits change |
| Reactor.Epoll.ApplyChanges | source/event/epoll.cpp:227-232 | every listed record takes the transition `ApplyOne` gives from its state before the first change; the table loses exactly the erased descriptors; no record's EVENT bits and no action change |
| Reactor.Epoll.FlushChanges | source/event/epoll.cpp:236-239 | the changes are applied and the list emptied, the listed records keep their EVENT bits, and the invariant holds again with every flag clear |
| Reactor.Epoll.ClearChangeList | source/event/epoll.cpp:238 | once the changes are applied, emptying the list makes every remaining record's flag match |
| Reactor.Epoll.MarkReady | source/event/epoll.cpp:253-257 | each action named by the wait raises exactly the flags of the groups some of its events report |
| Reactor.Epoll.DoPendingTasks | source/event/epoll.cpp:297-305 | the ready queue ends empty and nothing else of the reactor changes |
| Reactor.Epoll.Poll | source/event/epoll.cpp:240-261 | the timeout is 0 when actions are ready; a wait error returns 0 for EINTR and -1 otherwise and changes nothing; a successful wait marks readiness, drains the ready queue and returns 0 |
| Reactor.Epoll.Dispatch | source/event/epoll.cpp:234-262 | the changes are applied as planned and the list emptied, the listed records keep their EVENT bits, then the outcome of `Poll`, with the invariant kept |
| Reactor.Epoll.Close | source/event/epoll.cpp:307-315 | with an epoll descriptor, the descriptor, table and change list are cleared; without one nothing changes; the ready queue is kept |
| Reactor.CloseRejectsSubmits | source/event/epoll.cpp:307-315 | after close every submit returns -1 |
| Reactor.CloseIsIdempotent | source/event/epoll.cpp:307-315 | a second close leaves the state the first one left |
| Reactor.FreshReactorSubmit | source/event/epoll.cpp:31-38 | on a reactor built and initialised with what `epoll_create1` returned, a submit is accepted exactly when that descriptor is valid and the submitted one is not negative, and the new record is then alone in the table and on the change list |
| Reactor.FirstFnPtrSubmit | source/event/epoll.cpp:118-155 | a first submit with a function pointer leaves the new record listed alone, with interest in its direction and the task queued |
| Reactor.DispatchRegisters | source/event/epoll.cpp:234-262 | a dispatch whose one listed record has interest and whose first `epoll_ctl` succeeds keeps the record in the table, registered and off the change list, with its EVENT bits and action unchanged |
| Reactor.SubmitRegistered | source/event/epoll.cpp:137-146 | a submit in a direction the record already has interest in leaves an empty change list empty and queues the task at the tail |
| Reactor.SubmitDispatchSubmit | source/event/epoll.cpp:118-262 | submit, dispatch and submit again in the same direction: the record ends registered, the change list empty, and both tasks queued in order |

## Left out

- The kernel calls are not made. `epoll_create1`, `epoll_ctl` and `epoll_wait` are parameters: `Init`'s `created`, one `CtlAnswers` per listed record, and a `WaitResult`. `::close` of the epoll descriptor (`STABLE_INFRA_SAFE_CLOSE_FD`) has no counterpart.
- The destructor, which only calls `close`, is not modelled. Neither is the `events_ptr_` buffer: the wait result stands for its contents.
- The unused `errno_` member of `epoll` and the unused `fd_` member of `event_action` are not modelled.
- Memory ownership is not modelled: `shared_ptr` records, and the raw `event_info*` and `event_action*` pointers in the change list and the ready queue. Objects are never freed. So a pointer left on the ready queue after `close`, or to a record erased during `apply_changes`, stays valid in the model.
- Integer widths are not modelled. Descriptors, segment counts and byte counts are unbounded integers, and `move_size`'s `uint32_t` cannot wrap. The masks are sets of bits, so the `uint16_t`/`int32_t`/`uint32_t` widths of `events_` and of the kernel mask play no part.
- The iovec pointer is an index into an array of segments, and `iov_base` is an integer. A pointer outside the caller's array has no counterpart.
- Reactor.Epoll.Submit: the source puts the record on the change list before it queues the task. The model does it after the record's whole step. No other state lies between the two, so the final state is the same.
- Reactor.Epoll.Lookup: the source's `fd_` is -1 between `make_shared` and its assignment; the model creates the record with its descriptor.
- `STABLE_INFRA_ASSERT(res <= EVENT_CNT)` is a precondition of `Dispatch` and `Poll`. The insert in `submit_*` is proved always to succeed. The null-pointer assertions have no counterpart, because references cannot be null.
- The getters `get_read_callback`, `get_write_callback`, `events`, `is_readable` and `is_writable`, and the predicates `is_reading`, `is_writing` and `is_none_evt`, are field reads, so they carry no contract of their own.
- The two callback types are one `Callback` in the model. The read and write callbacks are `callback_t`, a `std::function<void(int32_t)>` (include/event/event_action.h:16). The close and error callbacks are `callback`, a `std::function<void(void)>` (include/event/event_common.h:15; the fields are at include/event/event_action.h:90-91). Only the read and write callbacks are compared by target, so the merge changes nothing the model states.
- include/event/event_action.h:68 declares a second `set_write_callback`, taking a `callback`, that is never defined. It is not modelled.
- Reactor.Installs: a submit that passes the very `std::function` object the action stores, so that both targets are one address, is not modelled. Every callback passed in is taken to be an object of its own.
- `do_read` and the old `unset` are commented out. The I/O strategies (`fd_io_operation`), the `poll_base` interface, the factory and the descriptor-hygiene helpers in source/util/util.cpp are outside this model.
