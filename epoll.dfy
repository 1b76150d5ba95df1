// The epoll reactor: a table from descriptor to `EventInfo`, a change list of
// records whose interest must be pushed to the kernel, and a queue of actions
// that are already ready. `epoll_create1`, `epoll_ctl` and `epoll_wait` are
// not called: their results are parameters of the operations that use them.

module Reactor {
  import opened DataStruct
  import opened EventActions

  /** Events received from one `epoll_wait`. */
  const EVENT_CNT: nat := 1024
  /** Descriptors below this live in the dense part of the table. */
  const MAX_FD: nat := 100000
  const INVALID_FD: int := -1

  // errno values (Linux).
  const EPERM: int := 1
  const ENOENT: int := 2
  const EINTR: int := 4
  const EBADF: int := 9
  const EEXIST: int := 17

  /** The reactor's own interest bits (`EVENT`), kept in `EventInfo.events`. */
  datatype EvBit = EvRead | EvWrite | EvClose | EvErr | EvEt

  function EvValue(b: EvBit): (v: nat)
    ensures v in {0x1, 0x2, 0x4, 0x8, 0x10}
  {
    match b
    case EvRead => 0x1
    case EvWrite => 0x2
    case EvClose => 0x4
    case EvErr => 0x8
    case EvEt => 0x10
  }

  /** The five EVENT values are distinct single bits, so OR-ing them into
      `events_` is the union of sets of `EvBit`. */
  lemma EvValueInjective()
    ensures forall b, c :: EvValue(b) == EvValue(c) ==> b == c
  {
  }

  datatype CtlOp = CtlAdd | CtlMod | CtlDel

  /** One `epoll_ctl(epfd, op, fd, {mask, action})` call. */
  datatype CtlCall = CtlCall(op: CtlOp, fd: int, mask: Mask)

  /** What `epoll_ctl` answered: 0, or -1 with `errno`. */
  datatype CtlResult = CtlOk | CtlErr(errno: int)

  /** The three submit entry points: accept and read share the read side. */
  datatype Direction = Accept | Read | Write

  /** The reactor-side fields of one `event_info` (its descriptor aside) and its action's state. */
  datatype Record = Record(events: set<EvBit>, inEpoll: bool, inChangeList: bool, action: ActionState)

  /** A freshly constructed `event_info`. */
  const FreshRecord := Record({}, false, false, InitialAction)

  function DirBit(dir: Direction): EvBit
  {
    if dir == Write then EvWrite else EvRead
  }

  function DirCallback(a: ActionState, dir: Direction): Callback
  {
    if dir == Write then a.writeCb else a.readCb
  }

  function DirTasks(a: ActionState, dir: Direction): seq<Task>
  {
    if dir == Write then a.writeTasks else a.readTasks
  }

  function DirReady(a: ActionState, dir: Direction): bool
  {
    if dir == Write then a.writable else a.readable
  }

  /** The callback test of a submit: install `cb` when it is non-empty and
      the address of its function-pointer target differs from that of the
      callback installed. */
  predicate Installs(cb: Callback, installed: Callback)
  {
    cb != Null && Target(cb, Passed) != Target(installed, Stored)
  }

  /** The two addresses are equal only when both are null: a non-empty
      callable that is not a plain function pointer is installed only over a
      plain function pointer, a function pointer is always installed (the
      same pointer again included), and an empty callback never. */
  lemma InstallsCases(cb: Callback, installed: Callback)
    ensures cb.Other? ==> (Installs(cb, installed) <==> installed.FnPtr?)
    ensures cb.FnPtr? ==> Installs(cb, installed)
    ensures cb.Null? ==> !Installs(cb, installed)
  {
  }

  /** Submitting the function pointer already installed installs it again,
      so the direction's interest group comes back even after it was
      disabled. */
  lemma {:induction false} SamePointerReinstalls(a: ActionState, dir: Direction, id: nat)
    requires DirCallback(a, dir) == FnPtr(id)
    ensures var r := Installed(a, dir, FnPtr(id));
            && DirCallback(r, dir) == FnPtr(id)
            && (if dir == Write then WRITE_EVENT else READ_EVENT) <= r.events
  {
    InstallsCases(FnPtr(id), FnPtr(id));
  }

  /** The callback step of a submit on an action. */
  function Installed(a: ActionState, dir: Direction, cb: Callback): ActionState
  {
    if !Installs(cb, DirCallback(a, dir)) then a
    else if dir == Write then a.SetWriteCallback(cb)
    else a.SetReadCallback(cb)
  }

  /** The task step of a submit on an action. */
  function Queued(a: ActionState, dir: Direction, t: Task): ActionState
  {
    if dir == Write then a.AddWriteTask(t) else a.AddReadTask(t)
  }

  datatype SubmitOutcome = SubmitOutcome(record: Record, enlist: bool, ready: bool)

  /** One submit on a record, the descriptor checks aside: the callback test,
      the interest bit with the edge-triggered bit, the change-list decision,
      the queued task and whether the action is already ready. */
  function SubmitStep(r: Record, dir: Direction, t: Task, cb: Callback): (o: SubmitOutcome)
    ensures DirBit(dir) in o.record.events && (DirBit(dir) !in r.events ==> EvEt in o.record.events)
    ensures r.events <= o.record.events && o.record.events - r.events <= {DirBit(dir), EvEt}
    ensures o.enlist <==> DirBit(dir) !in r.events && !r.inChangeList
    ensures o.record.inChangeList <==> r.inChangeList || DirBit(dir) !in r.events
    ensures o.record.inEpoll == r.inEpoll
    ensures DirCallback(o.record.action, dir) == if Installs(cb, DirCallback(r.action, dir)) then cb else DirCallback(r.action, dir)
    ensures DirTasks(o.record.action, dir) == DirTasks(r.action, dir) + [t]
    ensures o.ready <==> DirReady(r.action, dir)
  {
    var a1 := Installed(r.action, dir, cb);
    var changed := DirBit(dir) !in r.events;
    var events := if changed then r.events + {DirBit(dir), EvEt} else r.events;
    var enlist := changed && !r.inChangeList;
    var a2 := Queued(a1, dir, t);
    SubmitOutcome(Record(events, r.inEpoll, r.inChangeList || enlist, a2), enlist, DirReady(a2, dir))
  }

  /** The effect of one `apply_one_change` on the record and the table. */
  datatype Transition = Transition(calls: seq<CtlCall>, erase: bool, inEpoll: bool, clearsFlag: bool)

  /** The mask handed to the kernel: the action's interest, plus EPOLLET when
      the record asks for edge-triggered mode. */
  function KernelMask(interest: Mask, events: set<EvBit>): Mask
  {
    if EvEt in events then interest + {EpollEt} else interest
  }

  /** The first `epoll_ctl` operation, when there is one. */
  function FirstOp(interest: Mask, inEpoll: bool): CtlOp
  {
    if interest == NONE_EVENT then CtlDel else if inEpoll then CtlMod else CtlAdd
  }

  /** `apply_one_change`: `first` and `retry` are what the kernel answers to
      the first call and to the retry (the latter is consulted only when a
      retry is made). */
  function ApplyOne(interest: Mask, events: set<EvBit>, inEpoll: bool, fd: int,
                    first: CtlResult, retry: CtlResult): (tr: Transition)
    // A record with no interest that the kernel never saw is dropped without a call.
    ensures interest == NONE_EVENT && !inEpoll ==> tr == Transition([], true, false, false)
    // Otherwise the first call is the one the record's state calls for, with the full mask.
    ensures interest != NONE_EVENT || inEpoll ==>
              1 <= |tr.calls| <= 2
              && tr.calls[0] == CtlCall(FirstOp(interest, inEpoll), fd, KernelMask(interest, events))
    // A retry happens exactly after MOD/ENOENT (as ADD) and ADD/EEXIST (as MOD).
    ensures |tr.calls| == 2 <==>
              (interest != NONE_EVENT && first.CtlErr?
               && ((inEpoll && first.errno == ENOENT) || (!inEpoll && first.errno == EEXIST)))
    ensures |tr.calls| == 2 ==>
              tr.calls[1] == tr.calls[0].(op := if inEpoll then CtlAdd else CtlMod)
    // Only a record without interest is erased, and then when the kernel no longer holds it.
    ensures tr.erase <==>
              interest == NONE_EVENT
              && (!inEpoll || first.CtlOk? || first.errno in {ENOENT, EBADF, EPERM})
    // A kept record leaves the change list; an erased one is gone anyway.
    ensures tr.clearsFlag <==> !tr.erase
    // The record is in the kernel once a call for a non-empty mask succeeded;
    // a failed DEL leaves the flag set.
    ensures !tr.erase ==>
              (tr.inEpoll <==> inEpoll || first.CtlOk? || (|tr.calls| == 2 && retry.CtlOk?))
  {
    if interest == NONE_EVENT && !inEpoll then
      Transition([], true, false, false)
    else
      var op := FirstOp(interest, inEpoll);
      var call := CtlCall(op, fd, KernelMask(interest, events));
      if first.CtlOk? then
        if op != CtlDel then Transition([call], false, true, true)
        else Transition([call], true, inEpoll, false)
      else if op == CtlMod && first.errno == ENOENT then
        Transition([call, call.(op := CtlAdd)], false, inEpoll || retry.CtlOk?, true)
      else if op == CtlAdd && first.errno == EEXIST then
        Transition([call, call.(op := CtlMod)], false, inEpoll || retry.CtlOk?, true)
      else if op == CtlDel && first.errno in {ENOENT, EBADF, EPERM} then
        Transition([call], true, inEpoll, false)
      else
        Transition([call], false, inEpoll, true)
  }

  /** The kernel's interest list as `epoll_ctl` keeps it for open descriptors:
      ADD of a registered descriptor fails with EEXIST, MOD and DEL of an
      unregistered one with ENOENT. */
  function Ctl(reg: map<int, Mask>, c: CtlCall): (CtlResult, map<int, Mask>)
  {
    match c.op
    case CtlAdd => if c.fd in reg then (CtlErr(EEXIST), reg) else (CtlOk, reg[c.fd := c.mask])
    case CtlMod => if c.fd in reg then (CtlOk, reg[c.fd := c.mask]) else (CtlErr(ENOENT), reg)
    case CtlDel => if c.fd in reg then (CtlOk, reg - {c.fd}) else (CtlErr(ENOENT), reg)
  }

  /** The interest list after a run of calls. */
  function Run(reg: map<int, Mask>, calls: seq<CtlCall>): map<int, Mask>
    decreases calls
  {
    if calls == [] then reg else Run(Ctl(reg, calls[0]).1, calls[1..])
  }

  /** Against a kernel that answers as `Ctl` does, one `apply_one_change`
      brings the kernel and the record into agreement, whatever the kernel
      held before: a record with interest ends registered with its mask, and
      a record without interest that the reactor believed registered, or that
      the kernel does not hold, ends erased and unregistered. No other
      descriptor is touched. */
  lemma {:induction false} ApplyOneSynchronises(interest: Mask, events: set<EvBit>, inEpoll: bool, fd: int,
                                                reg: map<int, Mask>, first: CtlResult, retry: CtlResult)
    requires var tr := ApplyOne(interest, events, inEpoll, fd, first, retry);
             && (tr.calls != [] ==> first == Ctl(reg, tr.calls[0]).0)
             && (|tr.calls| == 2 ==> retry == Ctl(Ctl(reg, tr.calls[0]).1, tr.calls[1]).0)
    ensures var tr := ApplyOne(interest, events, inEpoll, fd, first, retry);
            var after := Run(reg, tr.calls);
            && (interest != NONE_EVENT ==>
                  !tr.erase && tr.inEpoll && fd in after && after[fd] == KernelMask(interest, events))
            && (interest == NONE_EVENT && (inEpoll || fd !in reg) ==> tr.erase && fd !in after)
            && (forall g :: g != fd ==> (g in after <==> g in reg) && (g in reg ==> after[g] == reg[g]))
  {
    var tr := ApplyOne(interest, events, inEpoll, fd, first, retry);
    if |tr.calls| == 2 {
      var mid := Ctl(reg, tr.calls[0]).1;
      assert tr.calls[1..][1..] == [];
      assert Run(reg, tr.calls) == Run(mid, tr.calls[1..]) == Ctl(mid, tr.calls[1]).1;
    } else if |tr.calls| == 1 {
      assert tr.calls[1..] == [];
      assert Run(reg, tr.calls) == Ctl(reg, tr.calls[0]).1;
    }
  }

  /** A record without interest that the reactor never registered is erased
      without a kernel call even when the kernel holds its descriptor, so the
      kernel's registration outlives the record. */
  lemma {:induction false} StaleRegistrationSurvives(events: set<EvBit>, fd: int, reg: map<int, Mask>,
                                                     first: CtlResult, retry: CtlResult)
    requires fd in reg
    ensures var tr := ApplyOne(NONE_EVENT, events, false, fd, first, retry);
            tr.erase && tr.calls == [] && fd in Run(reg, tr.calls) && Run(reg, tr.calls) == reg
  {
    assert Run(reg, []) == reg;
  }

  /** A first submit whose callback is a lambda installs nothing, so the
      record reaches the change list with no interest and the next
      `apply_one_change` erases it without a single kernel call. */
  lemma {:induction false} LambdaFirstSubmitIsDropped(dir: Direction, t: Task, id: nat, fd: int,
                                                      first: CtlResult, retry: CtlResult)
    ensures var o := SubmitStep(FreshRecord, dir, t, Other(id));
            && o.enlist && o.record.action.events == NONE_EVENT
            && ApplyOne(o.record.action.events, o.record.events, o.record.inEpoll, fd, first, retry)
               == Transition([], true, false, false)
  {
    InstallsCases(Other(id), Null);
  }

  /** A first submit with a function pointer registers the direction's group,
      edge-triggered, with an ADD. */
  lemma {:induction false} FnPtrFirstSubmitAdds(dir: Direction, t: Task, id: nat, fd: int,
                                                first: CtlResult, retry: CtlResult)
    ensures var o := SubmitStep(FreshRecord, dir, t, FnPtr(id));
            var group := if dir == Write then WRITE_EVENT else READ_EVENT;
            && o.enlist
            && ApplyOne(o.record.action.events, o.record.events, o.record.inEpoll, fd, first, retry).calls[0]
               == CtlCall(CtlAdd, fd, group + {EpollEt})
  {
    InstallsCases(FnPtr(id), Null);
    GroupsDisjoint();
  }

  /** A second submit in the same direction changes no interest and never
      enlists the record again. */
  lemma {:induction false} SecondSubmitIsQuiet(r: Record, dir: Direction, t1: Task, t2: Task,
                                               cb1: Callback, cb2: Callback)
    ensures var o1 := SubmitStep(r, dir, t1, cb1);
            var o2 := SubmitStep(o1.record, dir, t2, cb2);
            && !o2.enlist && o2.record.events == o1.record.events
            && o2.record.inChangeList == o1.record.inChangeList
            && DirTasks(o2.record.action, dir) == DirTasks(r.action, dir) + [t1, t2]
  {
    var o1 := SubmitStep(r, dir, t1, cb1);
    assert DirBit(dir) in o1.record.events;
  }

  /** The kernel's answers to the first call and to the retry of one change. */
  datatype CtlAnswers = CtlAnswers(first: CtlResult, retry: CtlResult)

  /** One `epoll_event` returned by `epoll_wait`: the action it was registered with and the events. */
  datatype WaitEvent = WaitEvent(tag: EventAction, mask: Mask)

  /** What `epoll_wait` returned: -1 with `errno`, or the ready events. */
  datatype WaitResult = WaitErr(errno: int) | WaitOk(events: seq<WaitEvent>)

  /** The actions a wait result names. */
  function Tags(w: WaitResult): set<EventAction>
  {
    if w.WaitErr? then {} else set e | e in w.events :: e.tag
  }

  /** Some event of `evs` for action `a` carries a bit of `group`. */
  predicate Reports(evs: seq<WaitEvent>, a: EventAction, group: Mask)
  {
    evs != [] &&
    (Reports(evs[..|evs| - 1], a, group) || (evs[|evs| - 1].tag == a && evs[|evs| - 1].mask * group != {}))
  }

  /** The kernel calls of a run of changes, in order. */
  function AllCalls(trs: seq<Transition>): seq<CtlCall>
  {
    if trs == [] then [] else AllCalls(trs[..|trs| - 1]) + trs[|trs| - 1].calls
  }

  /** Appending an element that is not there keeps a sequence free of repeats. */
  lemma Distinct<T>(s: seq<T>, x: T)
    requires forall i, j :: 0 <= i < j < |s| ==> s[i] != s[j]
    requires x !in s
    ensures forall i, j :: 0 <= i < j < |s + [x]| ==> (s + [x])[i] != (s + [x])[j]
  {
  }

  /** `event_info`: the record kept per descriptor. */
  class EventInfo {
    const fd: int
    var events: set<EvBit>
    var isInEpoll: bool
    var isInChangeList: bool
    const action: EventAction

    /** `make_shared<event_info>()` followed by the assignment of `fd_`. */
    constructor (fd: int)
      ensures this.fd == fd && fresh(action)
      ensures View() == FreshRecord
    {
      this.fd := fd;
      events := {};
      isInEpoll := false;
      isInChangeList := false;
      action := new EventAction();
    }

    function View(): Record
      reads this, action
    {
      Record(events, isInEpoll, isInChangeList, action.State())
    }

    /** The record's part of a submit: install the callback, raise the
        interest bit, take the change-list flag, queue the task. The caller
        puts the record on the change list when `o.enlist` and queues the
        action as ready when `o.ready`. */
    method Submit(dir: Direction, t: Task, cb: Callback) returns (o: SubmitOutcome)
      modifies this, action
      ensures o == SubmitStep(old(View()), dir, t, cb)
      ensures View() == o.record
    {
      InstallCallback(dir, cb);
      var enlist := RaiseInterest(dir);
      QueueTask(dir, t);
      var ready := if dir == Write then action.IsWritable() else action.IsReadable();
      o := SubmitOutcome(View(), enlist, ready);
    }

    /** The callback test of a submit and the install it guards. */
    method InstallCallback(dir: Direction, cb: Callback)
      modifies action
      ensures action.State() == Installed(old(action.State()), dir, cb)
      ensures events == old(events) && isInEpoll == old(isInEpoll) && isInChangeList == old(isInChangeList)
    {
      if Installs(cb, DirCallback(action.State(), dir)) {
        if dir == Write {
          action.SetWriteCallback(cb);
        } else {
          action.SetReadCallback(cb);
        }
      }
    }

    /** The interest bit of the direction, with the edge-triggered bit, when
        it is missing; the record is then enlisted unless it already is. */
    method RaiseInterest(dir: Direction) returns (enlist: bool)
      modifies this
      ensures enlist <==> DirBit(dir) !in old(events) && !old(isInChangeList)
      ensures events == if DirBit(dir) !in old(events) then old(events) + {DirBit(dir), EvEt} else old(events)
      ensures isInChangeList == (old(isInChangeList) || enlist) && isInEpoll == old(isInEpoll)
      ensures action.State() == old(action.State())
    {
      enlist := false;
      if DirBit(dir) !in events {
        events := events + {DirBit(dir), EvEt};
        if !isInChangeList {
          enlist := true;
          isInChangeList := true;
        }
      }
    }

    /** The task of a submit joins the direction's queue. */
    method QueueTask(dir: Direction, t: Task)
      modifies action
      ensures action.State() == Queued(old(action.State()), dir, t)
      ensures events == old(events) && isInEpoll == old(isInEpoll) && isInChangeList == old(isInChangeList)
    {
      if dir == Write {
        action.AddWriteTask(t);
      } else {
        action.AddReadTask(t);
      }
    }
  }

  class Epoll {
    var epfd: int
    /** fd_to_event_info_ */
    const table: OptMap<EventInfo>
    /** evt_change_lst_ */
    var changeList: seq<EventInfo>
    /** ready_events_ */
    var readyEvents: seq<EventAction>

    ghost function Infos(): set<EventInfo>
      reads table
    {
      table.Contents.Values
    }

    ghost function Actions(): set<EventAction>
      reads table
    {
      set i | i in Infos() :: i.action
    }

    /** The table: every record sits under its own descriptor, no entry is
        a null placeholder, and distinct records own distinct actions. */
    ghost predicate Core()
      reads table, table.vec
    {
      && table.Valid() && table.arraySize == MAX_FD && table.NullKeys == {}
      && (forall k :: k in table.Contents ==> table.Contents[k].fd == k)
      && (forall k1, k2 :: k1 in table.Contents && k2 in table.Contents && k1 != k2 ==>
            table.Contents[k1].action != table.Contents[k2].action)
    }

    /** The objects a submit on `fd` may change: the record of `fd` and its action. */
    ghost function Owned(fd: int): set<object>
      reads table
    {
      if 0 <= fd && fd in table.Contents then {table.Contents[fd], table.Contents[fd].action} else {}
    }

    /** The change list holds distinct records of the table. */
    ghost predicate ListInTable()
      reads this`changeList, table
    {
      && (forall i :: 0 <= i < |changeList| ==>
            changeList[i].fd in table.Contents && table.Contents[changeList[i].fd] == changeList[i])
      && (forall i, j :: 0 <= i < j < |changeList| ==> changeList[i] != changeList[j])
    }

    /** Every record of the table outside `except` carries the
        in-change-list flag exactly when it is on the list. */
    ghost predicate FlagsMatch(except: set<EventInfo>)
      reads this`changeList, table, Infos() - except
    {
      forall k :: k in table.Contents && table.Contents[k] !in except ==>
        (table.Contents[k].isInChangeList <==> table.Contents[k] in changeList)
    }

    /** Between dispatches, moreover, the change list holds distinct records
        of the table, and a record carries the in-change-list flag exactly
        when it is on the list. */
    ghost predicate Valid()
      reads this`changeList, table, table.vec, Infos()
    {
      Core() && ListInTable() && FlagsMatch({})
    }

    constructor ()
      ensures Valid() && fresh(table)
      ensures fresh(table.vec)
      ensures epfd == INVALID_FD && table.Contents == map[] && changeList == [] && readyEvents == []
    {
      epfd := INVALID_FD;
      table := new OptMap<EventInfo>(MAX_FD);
      changeList := [];
      readyEvents := [];
    }

    /** `init`: `created` is what `epoll_create1` returned. */
    method Init(created: int) returns (ok: bool)
      modifies this
      ensures epfd == created && (ok <==> created != INVALID_FD)
      ensures changeList == old(changeList) && readyEvents == old(readyEvents)
    {
      epfd := created;
      ok := created != INVALID_FD;
    }

    /** The effect of a submit: rejected without an epoll descriptor or for a
        negative descriptor; otherwise the record (found, or created for the
        descriptor) takes the step `SubmitStep`, goes on the change list when
        the step enlists it, and its action is queued as ready when the
        direction is already ready. No other record changes. */
    twostate predicate Submitted(fd: int, dir: Direction, t: Task, cb: Callback, ret: int)
      reads this, table, Infos(), Actions()
    {
      && epfd == old(epfd)
      && if old(epfd) == INVALID_FD || fd < 0 then
           && ret == -1
           && table.Contents == old(table.Contents)
           && changeList == old(changeList) && readyEvents == old(readyEvents)
           && (forall k :: k in table.Contents ==> table.Contents[k].View() == old(table.Contents[k].View()))
         else
           && ret == 0 && Accepted(fd, dir, t, cb)
           && (forall k :: k in table.Contents && k != fd ==> unchanged(table.Contents[k], table.Contents[k].action))
    }

    /** A submit that passed the descriptor checks. */
    twostate predicate Accepted(fd: nat, dir: Direction, t: Task, cb: Callback)
      reads this, table, Owned(fd)
    {
      var before := if fd in old(table.Contents) then old(table.Contents[fd].View()) else FreshRecord;
      var o := SubmitStep(before, dir, t, cb);
      && fd in table.Contents && table.Contents == old(table.Contents)[fd := table.Contents[fd]]
      && (fd in old(table.Contents) ==> table.Contents[fd] == old(table.Contents[fd]))
      && (fd !in old(table.Contents) ==> fresh(table.Contents[fd]) && fresh(table.Contents[fd].action))
      && table.Contents[fd].View() == o.record
      && changeList == old(changeList) + (if o.enlist then [table.Contents[fd]] else [])
      && readyEvents == old(readyEvents) + (if o.ready then [table.Contents[fd].action] else [])
    }

    /** `Valid`, except that the flag of `x` need not match the change list. */
    ghost predicate ValidExcept(x: EventInfo)
      reads this`changeList, table, table.vec, Infos() - {x}
    {
      Core() && ListInTable() && FlagsMatch({x})
    }

    /** The record for `fd`: the one in the table, or a new one not yet in it. */
    method Lookup(fd: nat) returns (info: EventInfo, existed: bool)
      requires Valid()
      ensures existed <==> fd in table.Contents
      ensures existed ==> info == table.Contents[fd]
      ensures !existed ==> fresh(info) && fresh(info.action) && info.View() == FreshRecord
      ensures !existed ==> forall k :: k in table.Contents ==> table.Contents[k].action != info.action
      ensures info.fd == fd && (info.isInChangeList <==> info in changeList)
    {
      var found := table.Find(fd);
      existed := found.Some?;
      if found.None? {
        info := new EventInfo(fd);
      } else {
        info := found.value;
      }
    }

    /** Store a record that is not yet in the table under its descriptor. */
    method Store(info: EventInfo)
      requires ValidExcept(info) && 0 <= info.fd && info.fd !in table.Contents && info !in changeList
      requires forall k :: k in table.Contents ==> table.Contents[k].action != info.action
      modifies table, table.vec
      ensures ValidExcept(info) && table.Contents == old(table.Contents)[info.fd := info]
    {
      var ok := table.Insert(info.fd, Some(info));
      assert ok;
    }

    /** `evt_change_lst_.push_back` when the submit enlists the record: the
        record's flag then matches the list again. */
    method Enlist(info: EventInfo, enlist: bool)
      requires ValidExcept(info) && 0 <= info.fd
      requires info.fd in table.Contents && table.Contents[info.fd] == info
      requires enlist ==> info !in changeList
      requires info.isInChangeList <==> info in changeList || enlist
      modifies this`changeList
      ensures Valid() && changeList == old(changeList) + (if enlist then [info] else [])
      ensures epfd == old(epfd) && readyEvents == old(readyEvents)
    {
      if enlist {
        Distinct(changeList, info);
        changeList := changeList + [info];
      }
    }

    /** The reactor's part of a submit, after the record's own step: store a
        new record in the table, enlist the record, queue a ready action. */
    method Commit(info: EventInfo, existed: bool, o: SubmitOutcome)
      requires ValidExcept(info) && 0 <= info.fd
      requires existed <==> info.fd in table.Contents
      requires existed ==> table.Contents[info.fd] == info
      requires !existed ==> info !in changeList
      requires !existed ==> forall k :: k in table.Contents ==> table.Contents[k].action != info.action
      requires o.enlist ==> info !in changeList
      requires info.isInChangeList <==> info in changeList || o.enlist
      modifies this`changeList, this`readyEvents, table, table.vec
      ensures Valid()
      ensures table.Contents == old(table.Contents)[info.fd := info]
      ensures changeList == old(changeList) + (if o.enlist then [info] else [])
      ensures readyEvents == old(readyEvents) + (if o.ready then [info.action] else [])
      ensures info.View() == old(info.View()) && epfd == old(epfd)
    {
      if !existed {
        Store(info);
      }
      Enlist(info, o.enlist);
      if o.ready {
        readyEvents := readyEvents + [info.action];
      }
    }

    /** The record's part of a submit on `fd`: the record found in the
        table, or a new one, takes its step; nothing else changes yet. */
    method Prepare(fd: nat, dir: Direction, t: Task, cb: Callback, ghost before: Record)
      returns (info: EventInfo, existed: bool, o: SubmitOutcome)
      requires Valid()
      requires before == if fd in table.Contents then table.Contents[fd].View() else FreshRecord
      modifies Owned(fd)
      ensures table.Contents == old(table.Contents) && changeList == old(changeList)
      ensures readyEvents == old(readyEvents) && epfd == old(epfd)
      ensures ValidExcept(info) && info.fd == fd
      ensures existed <==> fd in table.Contents
      ensures existed ==> table.Contents[fd] == info
      ensures !existed ==> info !in changeList && fresh(info) && fresh(info.action)
      ensures !existed ==> forall k :: k in table.Contents ==> table.Contents[k].action != info.action
      ensures forall k :: k in old(table.Contents) && k != fd ==> unchanged(old(table.Contents[k]), old(table.Contents[k].action))
      ensures o.enlist ==> info !in changeList
      ensures info.isInChangeList <==> info in changeList || o.enlist
      ensures o == SubmitStep(before, dir, t, cb)
      ensures info.View() == o.record
    {
      info, existed := Lookup(fd);
      assert ValidExcept(info);
      o := info.Submit(dir, t, cb);
    }

    /** A submit past the descriptor checks: the record's step, then the reactor's. */
    method Enqueue(fd: nat, dir: Direction, t: Task, cb: Callback)
      requires Valid()
      modifies this, table, table.vec, Owned(fd)
      ensures Valid() && epfd == old(epfd)
      ensures Accepted(fd, dir, t, cb)
      ensures forall k :: k in old(table.Contents) && k != fd ==> unchanged(old(table.Contents[k]), old(table.Contents[k].action))
    {
      ghost var before := if fd in table.Contents then table.Contents[fd].View() else FreshRecord;
      var info, existed, o := Prepare(fd, dir, t, cb, before);
      Commit(info, existed, o);
    }

    /** The body shared by the three submit entry points. */
    method Submit(fd: int, dir: Direction, t: Task, cb: Callback) returns (ret: int)
      requires Valid()
      modifies this, table, table.vec, Owned(fd)
      ensures Valid()
      ensures Submitted(fd, dir, t, cb, ret)
    {
      if epfd == INVALID_FD || fd < 0 {
        return -1;
      }
      Enqueue(fd, dir, t, cb);
      return 0;
    }

    /** `apply_one_change` on a record of the table: `first` and `retry` are
        the kernel's answers. The record is erased from the table, or its
        in-epoll and in-change-list flags are updated, as `ApplyOne` says. */
    method ApplyOneChange(info: EventInfo, first: CtlResult, retry: CtlResult) returns (calls: seq<CtlCall>)
      requires Core() && 0 <= info.fd && info.fd in table.Contents && table.Contents[info.fd] == info
      modifies table, table.vec, info
      ensures Core()
      ensures var tr := ApplyOne(info.action.events, info.events, old(info.isInEpoll), info.fd, first, retry);
              && calls == tr.calls
              && table.Contents == (if tr.erase then old(table.Contents) - {info.fd} else old(table.Contents))
              && info.isInEpoll == tr.inEpoll
              && info.isInChangeList == (old(info.isInChangeList) && !tr.clearsFlag)
      ensures info.events == old(info.events)
    {
      var interest := info.action.events;
      var op := CtlAdd;
      if interest != NONE_EVENT {
        if info.isInEpoll {
          op := CtlMod;
        }
      } else {
        if info.isInEpoll {
          op := CtlDel;
        } else {
          table.Erase(info.fd);
          return [];
        }
      }
      var mask := interest;
      if EvEt in info.events {
        mask := mask + {EpollEt};
      }
      var call := CtlCall(op, info.fd, mask);
      calls := [call];
      if first.CtlOk? {
        if op != CtlDel {
          info.isInEpoll := true;
          info.isInChangeList := false;
        } else {
          table.Erase(info.fd);
        }
        return;
      }
      match op {
        case CtlMod =>
          if first.errno == ENOENT {
            calls := calls + [call.(op := CtlAdd)];
            if retry.CtlOk? {
              info.isInEpoll := true;
            }
          }
        case CtlAdd =>
          if first.errno == EEXIST {
            calls := calls + [call.(op := CtlMod)];
            if retry.CtlOk? {
              info.isInEpoll := true;
            }
          }
        case CtlDel =>
          if first.errno in {ENOENT, EBADF, EPERM} {
            table.Erase(info.fd);
            return;
          }
      }
      info.isInChangeList := false;
    }

    /** Descriptors whose records the first `|trs|` changes erased from the table. */
    static ghost function Erased(cl: seq<EventInfo>, trs: seq<Transition>): set<nat>
      requires |trs| <= |cl|
    {
      set j | 0 <= j < |trs| && trs[j].erase && cl[j].fd >= 0 :: cl[j].fd as nat
    }

    /** One more change erases at most its own descriptor. */
    static lemma ErasedStep(cl: seq<EventInfo>, trs: seq<Transition>, tr: Transition)
      requires |trs| < |cl|
      ensures Erased(cl, trs + [tr]) ==
              Erased(cl, trs) + (if tr.erase && cl[|trs|].fd >= 0 then {cl[|trs|].fd as nat} else {})
    {
      var n := |trs|;
      forall k | k in Erased(cl, trs + [tr])
        ensures k in Erased(cl, trs) + (if tr.erase && cl[n].fd >= 0 then {cl[n].fd as nat} else {})
      {
        var j :| 0 <= j <= n && (trs + [tr])[j].erase && cl[j].fd >= 0 && k == cl[j].fd;
        if j < n {
          assert (trs + [tr])[j] == trs[j];
        }
      }
      forall k | k in Erased(cl, trs)
        ensures k in Erased(cl, trs + [tr])
      {
        var j :| 0 <= j < n && trs[j].erase && cl[j].fd >= 0 && k == cl[j].fd;
        assert (trs + [tr])[j] == trs[j];
      }
    }

    static lemma MinusStep<K, V>(m: map<K, V>, e: set<K>, d: set<K>)
      ensures (m - e) - d == m - (e + d)
    {
    }

    /** With distinct descriptors on the list, the changes erase a listed
        descriptor exactly when that record's own transition erases it. */
    static lemma ErasedAt(cl: seq<EventInfo>, trs: seq<Transition>, j: int)
      requires |trs| <= |cl| && 0 <= j < |cl| && 0 <= cl[j].fd
      requires forall a, b :: 0 <= a < b < |cl| ==> cl[a].fd != cl[b].fd
      ensures cl[j].fd in Erased(cl, trs) <==> j < |trs| && trs[j].erase
    {
      if cl[j].fd in Erased(cl, trs) {
        var a :| 0 <= a < |trs| && trs[a].erase && cl[a].fd >= 0 && cl[j].fd == cl[a].fd;
        assert a == j;
      }
    }

    /** The listed records sit at distinct descriptors of the table. */
    lemma ListedFdsDistinct()
      requires Valid()
      ensures forall j :: 0 <= j < |changeList| ==> 0 <= changeList[j].fd
      ensures forall a, b :: 0 <= a < b < |changeList| ==> changeList[a].fd != changeList[b].fd
    {
      forall a, b | 0 <= a < b < |changeList|
        ensures changeList[a].fd != changeList[b].fd
      {
        assert table.Contents[changeList[a].fd] == changeList[a];
        assert changeList[a] != changeList[b];
      }
    }

    /** The in-epoll flags of the records of `cl`. */
    static ghost function InEpollFlags(cl: seq<EventInfo>): (r: seq<bool>)
      reads cl
      ensures |r| == |cl| && forall j :: 0 <= j < |cl| ==> r[j] == cl[j].isInEpoll
    {
      seq(|cl|, j requires 0 <= j < |cl| reads cl => cl[j].isInEpoll)
    }

    /** The EVENT bits of the records of `cl`. */
    static ghost function EventBits(cl: seq<EventInfo>): (r: seq<set<EvBit>>)
      reads cl
      ensures |r| == |cl| && forall j :: 0 <= j < |cl| ==> r[j] == cl[j].events
    {
      seq(|cl|, j requires 0 <= j < |cl| reads cl => cl[j].events)
    }

    /** Where `apply_changes` stands after the first `|trs|` changes of `cl`:
        `m0` is the table and `ep0`, `ev0` the records' in-epoll flags and
        EVENT bits before the first change. Done records carry their
        transition's flags, the others are as they were, and no record's
        EVENT bits change. */
    ghost predicate Progress(cl: seq<EventInfo>, m0: map<nat, EventInfo>, ep0: seq<bool>, ev0: seq<set<EvBit>>,
                             trs: seq<Transition>)
      reads table, table.vec, cl
    {
      && |trs| <= |cl| == |ep0| == |ev0|
      && Core()
      && table.Contents == m0 - Erased(cl, trs)
      && (forall j :: 0 <= j < |trs| ==> cl[j].isInEpoll == trs[j].inEpoll)
      && (forall j :: 0 <= j < |trs| && !trs[j].erase ==> !cl[j].isInChangeList)
      && (forall j :: |trs| <= j < |cl| ==> cl[j].isInEpoll == ep0[j])
      && (forall j :: 0 <= j < |cl| ==> cl[j].events == ev0[j])
    }

    /** The next change of `apply_changes`: record `cl[|trs|]` takes its transition. */
    method ApplyNext(ghost cl: seq<EventInfo>, ghost m0: map<nat, EventInfo>, ghost ep0: seq<bool>,
                     ghost ev0: seq<set<EvBit>>, ghost trs: seq<Transition>, info: EventInfo, answer: CtlAnswers)
      returns (calls: seq<CtlCall>, ghost tr: Transition)
      requires Progress(cl, m0, ep0, ev0, trs) && |trs| < |cl| && info == cl[|trs|]
      requires forall j :: 0 <= j < |cl| ==> 0 <= cl[j].fd && cl[j].fd in m0 && m0[cl[j].fd] == cl[j]
      requires forall a, b :: 0 <= a < b < |cl| ==> cl[a].fd != cl[b].fd
      modifies table, table.vec, info
      ensures Progress(cl, m0, ep0, ev0, trs + [tr])
      ensures tr == ApplyOne(info.action.events, ev0[|trs|], ep0[|trs|], info.fd, answer.first, answer.retry)
      ensures calls == tr.calls
    {
      ghost var i := |trs|;
      ErasedAt(cl, trs, i);
      calls := ApplyOneChange(info, answer.first, answer.retry);
      tr := ApplyOne(info.action.events, info.events, old(info.isInEpoll), info.fd, answer.first, answer.retry);
      ErasedStep(cl, trs, tr);
      MinusStep(m0, Erased(cl, trs), if tr.erase then {info.fd as nat} else {});
      forall j | 0 <= j < |trs + [tr]|
        ensures cl[j].isInEpoll == (trs + [tr])[j].inEpoll
        ensures !(trs + [tr])[j].erase ==> !cl[j].isInChangeList
        ensures cl[j].events == ev0[j]
      {
        if j < i {
          assert cl[j] != info;
        }
      }
      forall j | i + 1 <= j < |cl|
        ensures cl[j].isInEpoll == ep0[j] && cl[j].events == ev0[j]
      {
        assert cl[j] != info;
      }
    }

    /** The transitions `apply_changes` makes on `cl`, each from its record's
        current state and the kernel's answers to its calls. */
    static ghost function Planned(cl: seq<EventInfo>, answers: seq<CtlAnswers>): (p: seq<Transition>)
      requires |answers| == |cl|
      reads cl, set x | x in cl :: x.action
      ensures |p| == |cl|
      ensures forall j :: 0 <= j < |cl| ==>
                p[j] == ApplyOne(cl[j].action.events, cl[j].events, cl[j].isInEpoll, cl[j].fd,
                                 answers[j].first, answers[j].retry)
    {
      seq(|cl|, j requires 0 <= j < |cl| reads cl, set x | x in cl :: x.action =>
            ApplyOne(cl[j].action.events, cl[j].events, cl[j].isInEpoll, cl[j].fd, answers[j].first, answers[j].retry))
    }

    /** The records of the change list `cl` after `apply_changes`, with
        `trs[i]` the transition of `cl[i]`: each has its transition's
        in-epoll flag, is in the table exactly when not erased, and when kept
        is off the change list. */
    ghost predicate Applied(cl: seq<EventInfo>, trs: seq<Transition>)
      reads table, cl
    {
      && |trs| == |cl|
      && (forall i :: 0 <= i < |cl| ==>
            && cl[i].isInEpoll == trs[i].inEpoll
            && (cl[i].fd in table.Contents <==> !trs[i].erase)
            && (!trs[i].erase ==> !cl[i].isInChangeList))
    }

    /** The loop of `apply_changes`: the changes of `cl`, in order, each
        taking its planned transition. */
    method ApplyAll(ghost cl: seq<EventInfo>, ghost m0: map<nat, EventInfo>, ghost ep0: seq<bool>,
                    ghost ev0: seq<set<EvBit>>, ghost plan: seq<Transition>, answers: seq<CtlAnswers>)
      returns (calls: seq<CtlCall>, ghost trs: seq<Transition>)
      requires changeList == cl && |answers| == |cl| && Progress(cl, m0, ep0, ev0, [])
      requires forall j :: 0 <= j < |cl| ==> 0 <= cl[j].fd && cl[j].fd in m0 && m0[cl[j].fd] == cl[j]
      requires forall a, b :: 0 <= a < b < |cl| ==> cl[a].fd != cl[b].fd
      requires |plan| == |cl| && forall j :: 0 <= j < |cl| ==>
                 plan[j] == ApplyOne(cl[j].action.events, ev0[j], ep0[j], cl[j].fd, answers[j].first, answers[j].retry)
      modifies table, table.vec, cl
      ensures Progress(cl, m0, ep0, ev0, trs) && trs == plan && calls == AllCalls(trs)
    {
      calls, trs := [], [];
      var i := 0;
      while i < |changeList|
        invariant 0 <= i <= |cl| && |trs| == i
        invariant Progress(cl, m0, ep0, ev0, trs)
        invariant trs == plan[..i]
        invariant calls == AllCalls(trs)
      {
        var c;
        ghost var tr;
        c, tr := ApplyNext(cl, m0, ep0, ev0, trs, changeList[i], answers[i]);
        assert plan[..i + 1] == plan[..i] + [tr];
        calls, trs := calls + c, trs + [tr];
        i := i + 1;
      }
    }

    /** `apply_changes`: every record on the change list, in order, takes
        the transition planned from its state before the first change.
        Records off the list are not touched (they are outside the frame). */
    method ApplyChanges(answers: seq<CtlAnswers>, ghost acts: set<EventAction>)
      returns (calls: seq<CtlCall>, ghost trs: seq<Transition>)
      requires Valid() && |answers| == |changeList|
      modifies table, table.vec, changeList
      ensures Core() && changeList == old(changeList) && epfd == old(epfd) && readyEvents == old(readyEvents)
      ensures trs == old(Planned(changeList, answers)) && calls == AllCalls(trs)
      ensures Applied(changeList, trs) && table.Contents == old(table.Contents) - Erased(changeList, trs)
      ensures EventBits(changeList) == old(EventBits(changeList))
      ensures forall a :: a in acts ==> unchanged(a)
    {
      ghost var cl, m0 := changeList, table.Contents;
      ghost var ep0, ev0 := InEpollFlags(cl), EventBits(cl);
      ghost var plan := Planned(cl, answers);
      ListedFdsDistinct();
      calls, trs := ApplyAll(cl, m0, ep0, ev0, plan, answers);
      Finished(cl, m0, ep0, ev0, trs);
    }

    /** Once every change of `cl` is done, each record has its transition's
        flags and presence in the table, and its EVENT bits as before. */
    lemma Finished(cl: seq<EventInfo>, m0: map<nat, EventInfo>, ep0: seq<bool>, ev0: seq<set<EvBit>>,
                   trs: seq<Transition>)
      requires Progress(cl, m0, ep0, ev0, trs) && |trs| == |cl|
      requires forall j :: 0 <= j < |cl| ==> 0 <= cl[j].fd && cl[j].fd in m0
      requires forall a, b :: 0 <= a < b < |cl| ==> cl[a].fd != cl[b].fd
      ensures Applied(cl, trs) && EventBits(cl) == ev0
    {
      forall j | 0 <= j < |cl|
        ensures cl[j].fd in table.Contents <==> !trs[j].erase
      {
        ErasedAt(cl, trs, j);
      }
    }

    /** The first step of `dispatch`: apply the change list, then empty it.
        No action (among `acts`) changes. */
    method FlushChanges(answers: seq<CtlAnswers>, ghost acts: set<EventAction>)
      returns (calls: seq<CtlCall>, ghost trs: seq<Transition>)
      requires Valid() && |answers| == |changeList|
      modifies this`changeList, table, table.vec, changeList
      ensures Valid() && changeList == [] && epfd == old(epfd) && readyEvents == old(readyEvents)
      ensures trs == old(Planned(changeList, answers)) && calls == AllCalls(trs)
      ensures Applied(old(changeList), trs) && table.Contents == old(table.Contents) - Erased(old(changeList), trs)
      ensures EventBits(old(changeList)) == old(EventBits(changeList))
      ensures forall a :: a in acts ==> unchanged(a)
    {
      ghost var cl, m0 := changeList, table.Contents;
      calls, trs := ApplyChanges(answers, acts);
      forall k | k in m0 && m0[k] !in cl
        ensures !m0[k].isInChangeList
      {
        assert !old(m0[k].isInChangeList);
      }
      ClearChangeList(cl, m0, trs);
    }

    /** `evt_change_lst_.clear()`: every record left in the table is either
        a kept record of the list, whose flag was cleared, or one that was not
        on it, so the emptied list matches every flag. */
    method ClearChangeList(ghost cl: seq<EventInfo>, ghost m0: map<nat, EventInfo>, ghost trs: seq<Transition>)
      requires Core() && Applied(cl, trs) && table.Contents == m0 - Erased(cl, trs)
      requires forall k :: k in m0 && m0[k] !in cl ==> !m0[k].isInChangeList
      modifies this`changeList
      ensures Valid() && changeList == [] && Applied(cl, trs) && table.Contents == m0 - Erased(cl, trs)
      ensures epfd == old(epfd) && readyEvents == old(readyEvents)
    {
      changeList := [];
      forall k | k in table.Contents
        ensures !table.Contents[k].isInChangeList
      {
        var r := table.Contents[k];
        if r in cl {
          var j :| 0 <= j < |cl| && cl[j] == r;
          assert cl[j].fd in table.Contents;
        }
      }
    }

    /** The marking loop of `dispatch`: each returned event raises the ready
        flags of its action. */
    method MarkReady(evs: seq<WaitEvent>)
      modifies set e | e in evs :: e.tag
      ensures forall a :: a in (set e | e in evs :: e.tag) ==>
                a.State() == old(a.State()).(readable := old(a.readable) || Reports(evs, a, READ_EVENT),
                                             writable := old(a.writable) || Reports(evs, a, WRITE_EVENT))
    {
      for i := 0 to |evs|
        invariant forall a :: a in (set e | e in evs :: e.tag) ==>
                    a.State() == old(a.State()).(readable := old(a.readable) || Reports(evs[..i], a, READ_EVENT),
                                                 writable := old(a.writable) || Reports(evs[..i], a, WRITE_EVENT))
      {
        assert evs[..i + 1][..i] == evs[..i];
        evs[i].tag.SetReadyEvents(evs[i].mask);
      }
      assert evs[..|evs|] == evs;
    }

    /** `do_pending_tasks`: every queued action, front first, handles its
        events and leaves the queue. */
    method DoPendingTasks()
      modifies this`readyEvents
      ensures readyEvents == []
      ensures epfd == old(epfd) && changeList == old(changeList)
    {
      var readyCnt := |readyEvents|;
      for i := 0 to readyCnt
        invariant readyEvents == old(readyEvents)[i..]
        invariant epfd == old(epfd) && changeList == old(changeList)
      {
        var a := readyEvents[0];
        a.HandleEvents();
        readyEvents := readyEvents[1..];
      }
    }

    /** The waiting part of `dispatch`: wait without blocking when actions
        are already ready, mark what the kernel reported, run the ready
        actions. `wait` is what `epoll_wait` returned; `waitTimeout` is the
        timeout it was given. */
    method Poll(timeout: int, wait: WaitResult, ghost cl: seq<EventInfo>, ghost trs: seq<Transition>)
      returns (ret: int, waitTimeout: int)
      requires wait.WaitOk? ==> |wait.events| <= EVENT_CNT
      requires Valid() && Applied(cl, trs)
      modifies this`readyEvents, Tags(wait)
      ensures Valid() && Applied(cl, trs) && table.Contents == old(table.Contents)
      ensures epfd == old(epfd) && changeList == old(changeList) && EventBits(cl) == old(EventBits(cl))
      ensures waitTimeout == if old(readyEvents) == [] then timeout else 0
      ensures wait.WaitErr? ==> ret == (if wait.errno == EINTR then 0 else -1) && readyEvents == old(readyEvents)
      ensures wait.WaitOk? ==> ret == 0 && readyEvents == []
      ensures wait.WaitOk? ==> forall a :: a in Tags(wait) ==>
                a.State() == old(a.State()).(readable := old(a.readable) || Reports(wait.events, a, READ_EVENT),
                                             writable := old(a.writable) || Reports(wait.events, a, WRITE_EVENT))
    {
      waitTimeout := timeout;
      if readyEvents != [] {
        waitTimeout := 0;
      }
      match wait
      case WaitErr(errno) =>
        ret := if errno != EINTR then -1 else 0;
      case WaitOk(evs) =>
        assert |evs| <= EVENT_CNT;
        MarkReady(evs);
        DoPendingTasks();
        ret := 0;
    }

    /** `dispatch`: push the pending changes to the kernel, then poll.
        `answers` are the kernel's answers to the changes. */
    method Dispatch(timeout: int, answers: seq<CtlAnswers>, wait: WaitResult)
      returns (ret: int, waitTimeout: int, calls: seq<CtlCall>, ghost trs: seq<Transition>)
      requires Valid() && |answers| == |changeList|
      requires wait.WaitOk? ==> |wait.events| <= EVENT_CNT
      modifies this, table, table.vec, changeList, Tags(wait)
      ensures Valid() && changeList == [] && epfd == old(epfd)
      ensures trs == old(Planned(changeList, answers)) && calls == AllCalls(trs)
      ensures Applied(old(changeList), trs) && table.Contents == old(table.Contents) - Erased(old(changeList), trs)
      ensures EventBits(old(changeList)) == old(EventBits(changeList))
      ensures waitTimeout == if old(readyEvents) == [] then timeout else 0
      ensures wait.WaitErr? ==> ret == (if wait.errno == EINTR then 0 else -1) && readyEvents == old(readyEvents)
      ensures wait.WaitOk? ==> ret == 0 && readyEvents == []
      ensures wait.WaitOk? ==> forall a :: a in Tags(wait) ==>
                a.State() == old(a.State()).(readable := old(a.readable) || Reports(wait.events, a, READ_EVENT),
                                             writable := old(a.writable) || Reports(wait.events, a, WRITE_EVENT))
    {
      calls, trs := [], [];
      if changeList != [] {
        calls, trs := FlushChanges(answers, Tags(wait));
      }
      ret, waitTimeout := Poll(timeout, wait, old(changeList), trs);
    }

    /** `close`: with an open epoll descriptor, forget it, every record and
        the change list. The ready queue is left as it is. */
    method Close()
      requires Valid()
      modifies this, table, table.vec
      ensures Valid() && epfd == INVALID_FD && readyEvents == old(readyEvents)
      ensures old(epfd) != INVALID_FD ==> table.Contents == map[] && changeList == []
      ensures old(epfd) == INVALID_FD ==> table.Contents == old(table.Contents) && changeList == old(changeList)
    {
      if epfd != INVALID_FD {
        epfd := INVALID_FD;
        table.Clear();
        changeList := [];
      }
    }

    method SubmitAsyncAccept(listenFd: int, buffer: int, bufferIovCnt: nat, cb: Callback) returns (ret: int)
      requires Valid()
      modifies this, table, table.vec, Owned(listenFd)
      ensures Valid()
      ensures Submitted(listenFd, Accept, Task(buffer, bufferIovCnt), cb, ret)
    {
      ret := Submit(listenFd, Accept, Task(buffer, bufferIovCnt), cb);
    }

    method SubmitAsyncRead(fd: int, buffer: int, bufferIovCnt: nat, cb: Callback) returns (ret: int)
      requires Valid()
      modifies this, table, table.vec, Owned(fd)
      ensures Valid()
      ensures Submitted(fd, Read, Task(buffer, bufferIovCnt), cb, ret)
    {
      ret := Submit(fd, Read, Task(buffer, bufferIovCnt), cb);
    }

    method SubmitAsyncWrite(fd: int, buffer: int, bufferIovCnt: nat, cb: Callback) returns (ret: int)
      requires Valid()
      modifies this, table, table.vec, Owned(fd)
      ensures Valid()
      ensures Submitted(fd, Write, Task(buffer, bufferIovCnt), cb, ret)
    {
      ret := Submit(fd, Write, Task(buffer, bufferIovCnt), cb);
    }
  }

  /** After `close` every submit is rejected and changes nothing. */
  method CloseRejectsSubmits(e: Epoll, fd: int, dir: Direction, t: Task, cb: Callback) returns (ret: int)
    requires e.Valid()
    modifies e, e.table, e.table.vec, e.Owned(fd)
    ensures ret == -1 && e.epfd == INVALID_FD && e.Valid()
    ensures e.table.Contents == if old(e.epfd) != INVALID_FD then map[] else old(e.table.Contents)
  {
    e.Close();
    ret := e.Submit(fd, dir, t, cb);
  }

  /** A second `close` changes nothing the first did not. */
  method CloseIsIdempotent(e: Epoll)
    requires e.Valid()
    modifies e, e.table, e.table.vec
    ensures e.Valid() && e.epfd == INVALID_FD && e.readyEvents == old(e.readyEvents)
    ensures old(e.epfd) != INVALID_FD ==> e.table.Contents == map[] && e.changeList == []
    ensures old(e.epfd) == INVALID_FD ==> e.table.Contents == old(e.table.Contents) && e.changeList == old(e.changeList)
  {
    e.Close();
    e.Close();
  }

  /** A reactor built, initialised with what `epoll_create1` returned, and
      given one submit: the submit is accepted exactly when the epoll
      descriptor is valid and the descriptor is not negative, and then the
      new record is the only one in the table and on the change list. */
  method FreshReactorSubmit(created: int, fd: int, dir: Direction, t: Task, cb: Callback) returns (e: Epoll, ret: int)
    ensures fresh(e) && fresh(e.table) && fresh(e.table.vec) && e.Valid() && e.readyEvents == []
    ensures e.epfd == created
    ensures ret == (if created != INVALID_FD && fd >= 0 then 0 else -1)
    ensures ret == 0 ==> |e.changeList| == 1 && e.table.Contents == map[fd := e.changeList[0]]
    ensures ret == 0 ==> fresh(e.changeList[0]) && fresh(e.changeList[0].action)
    ensures ret == 0 ==> e.changeList[0].View() == SubmitStep(FreshRecord, dir, t, cb).record
  {
    e := new Epoll();
    var ok := e.Init(created);
    ret := e.Submit(fd, dir, t, cb);
  }

  /** A dispatch whose one listed record has interest and whose first
      `epoll_ctl` succeeds: the record stays in the table, is registered,
      leaves the change list and keeps its EVENT bits. */
  method DispatchRegisters(e: Epoll, info: EventInfo, timeout: int)
    requires e.Valid() && e.changeList == [info] && info.action.events != NONE_EVENT
    modifies e, e.table, e.table.vec, info
    ensures e.Valid() && e.changeList == [] && e.table.Contents == old(e.table.Contents)
    ensures e.readyEvents == old(e.readyEvents)
    ensures e.epfd == old(e.epfd) && info.isInEpoll && info.events == old(info.events)
    ensures info.action.State() == old(info.action.State())
  {
    var ret, waitTimeout, calls;
    ghost var trs;
    ret, waitTimeout, calls, trs := e.Dispatch(timeout, [CtlAnswers(CtlOk, CtlOk)], WaitErr(EINTR));
    assert !trs[0].erase;
  }

  /** A submit in a direction the record already has interest in, with an
      empty change list: the list stays empty, the record stays registered,
      and the task joins the tail of the direction's queue. */
  method SubmitRegistered(e: Epoll, fd: nat, dir: Direction, t: Task, cb: Callback)
    requires e.Valid() && e.epfd != INVALID_FD && e.changeList == []
    requires fd in e.table.Contents && DirBit(dir) in e.table.Contents[fd].events
    modifies e, e.table, e.table.vec, e.Owned(fd)
    ensures e.Valid() && e.changeList == [] && e.table.Contents == old(e.table.Contents)
    ensures e.table.Contents[fd].isInEpoll == old(e.table.Contents[fd].isInEpoll)
    ensures DirTasks(e.table.Contents[fd].action.State(), dir)
            == old(DirTasks(e.table.Contents[fd].action.State(), dir)) + [t]
  {
    var ret := e.Submit(fd, dir, t, cb);
  }

  /** A first submit with a function pointer on a new reactor: the new
      record is alone in the table and on the change list, has interest in
      the direction, and holds the task. */
  method FirstFnPtrSubmit(created: int, fd: nat, dir: Direction, t: Task, id: nat) returns (e: Epoll, info: EventInfo)
    requires created != INVALID_FD
    ensures fresh(e) && fresh(e.table) && fresh(e.table.vec) && fresh(info) && fresh(info.action)
    ensures e.Valid() && e.epfd == created && e.changeList == [info] && e.table.Contents == map[fd := info]
    ensures DirBit(dir) in info.events && info.action.events != NONE_EVENT
    ensures DirTasks(info.action.State(), dir) == [t]
  {
    var ret;
    e, ret := FreshReactorSubmit(created, fd, dir, t, FnPtr(id));
    info := e.changeList[0];
    InstallsCases(FnPtr(id), Null);
    GroupsDisjoint();
  }

  /** The reactor's cycle on one descriptor: a submit with a function
      pointer enlists a new record, a dispatch whose ADD succeeds registers
      it and empties the change list, and a second submit in the same
      direction enlists nothing and queues its task behind the first. */
  method SubmitDispatchSubmit(created: int, fd: nat, dir: Direction, t1: Task, t2: Task, id: nat, timeout: int)
    returns (e: Epoll)
    requires created != INVALID_FD
    ensures e.Valid() && e.changeList == [] && fd in e.table.Contents
    ensures e.table.Contents[fd].isInEpoll
    ensures DirTasks(e.table.Contents[fd].action.State(), dir) == [t1, t2]
  {
    var info;
    e, info := FirstFnPtrSubmit(created, fd, dir, t1, id);
    DispatchRegisters(e, info, timeout);
    assert e.Owned(fd) == {info, info.action};
    SubmitRegistered(e, fd, dir, t2, FnPtr(id));
    assert [t1] + [t2] == [t1, t2];
  }
}
