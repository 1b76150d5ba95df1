// `event_action`: the per-descriptor interest bits, callbacks, pending task
// queues and readiness flags. The state is a value (`ActionState`) whose
// operations are pure; the class `EventAction` holds it in fields and its
// methods are proved to perform exactly those operations in place.
//
// A bit mask is modelled as the set of its bits: `a | b` is `a + b`,
// `a & ~b` is `a - b`, and `(a & b) != 0` is `a * b != {}`.

module EventActions {
  import opened DataStruct

  /** The epoll event bits this code uses. */
  datatype EpollBit = EpollIn | EpollPri | EpollOut | EpollErr | EpollHup | EpollRdHup | EpollEt

  type Mask = set<EpollBit>

  /** Each bit's value in Linux <sys/epoll.h>. */
  function BitValue(b: EpollBit): nat
  {
    match b
    case EpollIn => 0x001
    case EpollPri => 0x002
    case EpollOut => 0x004
    case EpollErr => 0x008
    case EpollHup => 0x010
    case EpollRdHup => 0x2000
    case EpollEt => 0x8000_0000
  }

  /** The value of a mask: the sum of its (distinct, single-bit) members. */
  ghost function MaskValue(m: Mask): nat
    decreases m
  {
    if m == {} then 0
    else
      var b := Pick(m);
      BitValue(b) + MaskValue(m - {b})
  }

  ghost function Pick(m: Mask): (b: EpollBit)
    requires m != {}
    ensures b in m
  {
    if EpollIn in m then EpollIn
    else if EpollPri in m then EpollPri
    else if EpollOut in m then EpollOut
    else if EpollErr in m then EpollErr
    else if EpollHup in m then EpollHup
    else if EpollRdHup in m then EpollRdHup
    else var x :| x in m; assert x == EpollEt; EpollEt
  }

  // The interest groups of an event_action.
  const NONE_EVENT: Mask := {}
  const READ_EVENT: Mask := {EpollIn, EpollPri, EpollRdHup}
  const WRITE_EVENT: Mask := {EpollOut}
  const CLOSE_EVENT: Mask := {EpollHup}
  const ERROR_EVENT: Mask := {EpollErr}

  /** A `std::function` as far as the reactor can see it: empty, holding a
      plain function pointer (identified by `id`), or holding any other
      callable (a lambda, a bound object). */
  datatype Callback = Null | FnPtr(id: nat) | Other(id: nat)

  /** The `std::function` objects whose targets a submit compares: the
      callback passed in, and the one the action has stored. */
  datatype Holder = Passed | Stored

  /** An address `target<>()` can yield: null, or a place inside one holder. */
  datatype Addr = NullAddr | Inside(holder: Holder, id: nat)

  /** `target<void(*)(int32_t)>()` on the callback held by `h`: the address
      of the function pointer stored inside that `std::function`, or null for
      an empty function and for every target that is not a plain function
      pointer. Addresses inside distinct holders differ. */
  function Target(cb: Callback, h: Holder): (r: Addr)
    ensures r.Inside? <==> cb.FnPtr?
    ensures r.Inside? ==> r.holder == h
  {
    match cb
    case FnPtr(id) => Inside(h, id)
    case _ => NullAddr
  }

  /** A pending I/O request: the caller's iovec array (an address) and its segment count. */
  datatype Task = Task(buffer: int, iovCnt: nat)

  datatype ActionState = ActionState(
    events: Mask,
    readCb: Callback, writeCb: Callback, closeCb: Callback, errorCb: Callback,
    readTasks: seq<Task>, writeTasks: seq<Task>,
    readable: bool, writable: bool)
  {
    predicate IsReading() { events * READ_EVENT != {} }
    predicate IsWriting() { events * WRITE_EVENT != {} }
    predicate IsNoneEvt() { events == NONE_EVENT }

    function SetReadCallback(cb: Callback): (r: ActionState)
      ensures READ_EVENT <= r.events && r.events - READ_EVENT == events - READ_EVENT
      ensures r.IsReading() && r.IsWriting() == IsWriting()
      ensures r == this.(events := r.events, readCb := cb)
    {
      assert EpollIn in (events + READ_EVENT) * READ_EVENT;
      this.(events := events + READ_EVENT, readCb := cb)
    }

    function SetWriteCallback(cb: Callback): (r: ActionState)
      ensures WRITE_EVENT <= r.events && r.events - WRITE_EVENT == events - WRITE_EVENT
      ensures r.IsWriting() && r.IsReading() == IsReading()
      ensures r == this.(events := r.events, writeCb := cb)
    {
      assert EpollOut in (events + WRITE_EVENT) * WRITE_EVENT;
      this.(events := events + WRITE_EVENT, writeCb := cb)
    }

    function SetCloseCallback(cb: Callback): (r: ActionState)
      ensures CLOSE_EVENT <= r.events && r.events - CLOSE_EVENT == events - CLOSE_EVENT
      ensures r.IsReading() == IsReading() && r.IsWriting() == IsWriting()
      ensures r == this.(events := r.events, closeCb := cb)
    {
      this.(events := events + CLOSE_EVENT, closeCb := cb)
    }

    function SetErrorCallback(cb: Callback): (r: ActionState)
      ensures ERROR_EVENT <= r.events && r.events - ERROR_EVENT == events - ERROR_EVENT
      ensures r.IsReading() == IsReading() && r.IsWriting() == IsWriting()
      ensures r == this.(events := r.events, errorCb := cb)
    {
      this.(events := events + ERROR_EVENT, errorCb := cb)
    }

    function DisableReading(): (r: ActionState)
      ensures r.events !! READ_EVENT && r.events + READ_EVENT == events + READ_EVENT
      ensures !r.IsReading() && r.IsWriting() == IsWriting()
      ensures r == this.(events := r.events, readCb := Null)
    {
      this.(events := events - READ_EVENT, readCb := Null)
    }

    function DisableWriting(): (r: ActionState)
      ensures r.events !! WRITE_EVENT && r.events + WRITE_EVENT == events + WRITE_EVENT
      ensures !r.IsWriting() && r.IsReading() == IsReading()
      ensures r == this.(events := r.events, writeCb := Null)
    {
      this.(events := events - WRITE_EVENT, writeCb := Null)
    }

    function DisableClosing(): (r: ActionState)
      ensures r.events !! CLOSE_EVENT && r.events + CLOSE_EVENT == events + CLOSE_EVENT
      ensures r.IsReading() == IsReading() && r.IsWriting() == IsWriting()
      ensures r == this.(events := r.events, closeCb := Null)
    {
      this.(events := events - CLOSE_EVENT, closeCb := Null)
    }

    function DisableError(): (r: ActionState)
      ensures r.events !! ERROR_EVENT && r.events + ERROR_EVENT == events + ERROR_EVENT
      ensures r.IsReading() == IsReading() && r.IsWriting() == IsWriting()
      ensures r == this.(events := r.events, errorCb := Null)
    {
      this.(events := events - ERROR_EVENT, errorCb := Null)
    }

    function DisableAll(): (r: ActionState)
      ensures r.IsNoneEvt() && !r.IsReading() && !r.IsWriting()
      ensures r.readCb == r.writeCb == r.closeCb == r.errorCb == Null
      ensures r.readTasks == readTasks && r.writeTasks == writeTasks
      ensures r.readable == readable && r.writable == writable
    {
      this.(events := NONE_EVENT, readCb := Null, writeCb := Null, closeCb := Null, errorCb := Null)
    }

    function AddReadTask(t: Task): (r: ActionState)
      ensures |r.readTasks| == |readTasks| + 1 && r.readTasks[|readTasks|] == t
      ensures r.readTasks[..|readTasks|] == readTasks
      ensures r == this.(readTasks := r.readTasks)
    {
      this.(readTasks := readTasks + [t])
    }

    function AddWriteTask(t: Task): (r: ActionState)
      ensures |r.writeTasks| == |writeTasks| + 1 && r.writeTasks[|writeTasks|] == t
      ensures r.writeTasks[..|writeTasks|] == writeTasks
      ensures r == this.(writeTasks := r.writeTasks)
    {
      this.(writeTasks := writeTasks + [t])
    }

    /** A readiness report raises the flags of the directions it mentions and never lowers one. */
    function SetReadyEvents(m: Mask): (r: ActionState)
      ensures r.readable <==> readable || m * READ_EVENT != {}
      ensures r.writable <==> writable || m * WRITE_EVENT != {}
      ensures r == this.(readable := r.readable, writable := r.writable)
    {
      this.(readable := readable || m * READ_EVENT != {},
            writable := writable || m * WRITE_EVENT != {})
    }
  }

  /** A default-constructed event_action. */
  const InitialAction := ActionState(NONE_EVENT, Null, Null, Null, Null, [], [], false, false)

  /** The four groups are non-empty and pairwise disjoint, none holds the
      edge-triggered bit, and their values are the source's constants. */
  lemma GroupsDisjoint()
    ensures READ_EVENT != {} && WRITE_EVENT != {} && CLOSE_EVENT != {} && ERROR_EVENT != {}
    ensures READ_EVENT !! WRITE_EVENT && READ_EVENT !! CLOSE_EVENT && READ_EVENT !! ERROR_EVENT
    ensures WRITE_EVENT !! CLOSE_EVENT && WRITE_EVENT !! ERROR_EVENT && CLOSE_EVENT !! ERROR_EVENT
    ensures EpollEt !in READ_EVENT + WRITE_EVENT + CLOSE_EVENT + ERROR_EVENT
    ensures MaskValue(READ_EVENT) == 0x2003 && MaskValue(WRITE_EVENT) == 0x004
    ensures MaskValue(CLOSE_EVENT) == 0x010 && MaskValue(ERROR_EVENT) == 0x008
  {
    assert READ_EVENT - {EpollIn} == {EpollPri, EpollRdHup};
    assert {EpollPri, EpollRdHup} - {EpollPri} == {EpollRdHup};
    assert {EpollRdHup} - {EpollRdHup} == {};
    assert MaskValue({EpollRdHup}) == 0x2000;
    assert MaskValue({EpollPri, EpollRdHup}) == 0x2002;
    assert WRITE_EVENT - {EpollOut} == {};
    assert CLOSE_EVENT - {EpollHup} == {};
    assert ERROR_EVENT - {EpollErr} == {};
  }

  /** Disabling a group undoes enabling it whenever the group was clear before. */
  lemma {:induction false} DisableUndoesSet(s: ActionState, cb: Callback)
    requires s.events !! READ_EVENT && s.readCb == Null
    ensures s.SetReadCallback(cb).DisableReading() == s
  {
    assert s.events + READ_EVENT - READ_EVENT == s.events;
  }

  class EventAction {
    var events: Mask
    var readCb: Callback
    var writeCb: Callback
    var closeCb: Callback
    var errorCb: Callback
    var readTasks: seq<Task>
    var writeTasks: seq<Task>
    var readable: bool
    var writable: bool

    function State(): ActionState
      reads this
    {
      ActionState(events, readCb, writeCb, closeCb, errorCb, readTasks, writeTasks, readable, writable)
    }

    constructor ()
      ensures State() == InitialAction
    {
      events := NONE_EVENT;
      readCb, writeCb, closeCb, errorCb := Null, Null, Null, Null;
      readTasks, writeTasks := [], [];
      readable, writable := false, false;
    }

    predicate IsReadable() reads this { readable }
    predicate IsWritable() reads this { writable }
    predicate IsReading() reads this { State().IsReading() }
    predicate IsWriting() reads this { State().IsWriting() }
    predicate IsNoneEvt() reads this { State().IsNoneEvt() }

    method SetReadCallback(cb: Callback)
      modifies this
      ensures State() == old(State()).SetReadCallback(cb)
    {
      events := events + READ_EVENT;
      readCb := cb;
    }

    method SetWriteCallback(cb: Callback)
      modifies this
      ensures State() == old(State()).SetWriteCallback(cb)
    {
      events := events + WRITE_EVENT;
      writeCb := cb;
    }

    method SetCloseCallback(cb: Callback)
      modifies this
      ensures State() == old(State()).SetCloseCallback(cb)
    {
      events := events + CLOSE_EVENT;
      closeCb := cb;
    }

    method SetErrorCallback(cb: Callback)
      modifies this
      ensures State() == old(State()).SetErrorCallback(cb)
    {
      events := events + ERROR_EVENT;
      errorCb := cb;
    }

    method DisableReading()
      modifies this
      ensures State() == old(State()).DisableReading()
    {
      events := events - READ_EVENT;
      readCb := Null;
    }

    method DisableWriting()
      modifies this
      ensures State() == old(State()).DisableWriting()
    {
      events := events - WRITE_EVENT;
      writeCb := Null;
    }

    method DisableClosing()
      modifies this
      ensures State() == old(State()).DisableClosing()
    {
      events := events - CLOSE_EVENT;
      closeCb := Null;
    }

    method DisableError()
      modifies this
      ensures State() == old(State()).DisableError()
    {
      events := events - ERROR_EVENT;
      errorCb := Null;
    }

    method DisableAll()
      modifies this
      ensures State() == old(State()).DisableAll()
    {
      events := NONE_EVENT;
      readCb, writeCb, closeCb, errorCb := Null, Null, Null, Null;
    }

    method AddReadTask(t: Task)
      modifies this
      ensures State() == old(State()).AddReadTask(t)
    {
      readTasks := readTasks + [t];
    }

    method AddWriteTask(t: Task)
      modifies this
      ensures State() == old(State()).AddWriteTask(t)
    {
      writeTasks := writeTasks + [t];
    }

    method SetReadyEvents(m: Mask)
      modifies this
      ensures State() == old(State()).SetReadyEvents(m)
    {
      if m * READ_EVENT != {} {
        readable := true;
      }
      if m * WRITE_EVENT != {} {
        writable := true;
      }
    }

    /** handle_events: its whole body is commented out, so it changes nothing. */
    method HandleEvents()
      ensures State() == old(State())
    {
    }
  }
}
