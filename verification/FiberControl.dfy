/** Fibers of one thread (cont.c): resume, yield, transfer, raise and termination. */
module FiberControl {
  import opened Wrappers
  import opened FiberHistory

  datatype Status = CREATED | RESUMED | SUSPENDED | TERMINATED

  /** What is passed along with control: arguments, or an exception (argc == -1). */
  datatype Message = Arguments(values: seq<int>) | Exception(error: int)

  datatype FiberError =
    | UnbornRaise | ResumeTerminated | ResumeCurrent | DoubleResume | ResumeResuming | ResumeTransferring
    | TransferToResuming | TransferToYielding | DeadFiberCalled | YieldOnNotResumed | RaiseResuming

  /** How a call ends: another fiber now has control and has received the message; or the call returns at once
      to its caller; or it raises a FiberError there; or the thread falls back to its root fiber. */
  datatype Outcome = Switched(delivered: Message) | Same(result: Message) | Error(error: FiberError) | FellBack

  /** rb_fiber_t */
  class Fiber {
    var prev: Fiber?
    var resuming: Fiber?
    var status: Status
    var yielding: bool
    const blocking: bool
    var cont: Message

    constructor (status: Status, blocking: bool)
      ensures prev == null && resuming == null && !yielding && this.status == status && this.blocking == blocking
    {
      prev, resuming, yielding := null, null, false;
      this.status, this.blocking := status, blocking;
      cont := Arguments([]);
    }
  }

  /** What a resume of a fiber that is at w, and was resumed by r, comes to. */
  function ResumeOutcome<F>(w: Place<F>, r: Option<F>, m: Message): Outcome
  {
    match w
    case Fresh => if m.Exception? then Error(UnbornRaise) else Switched(m)
    case Running => Error(ResumeCurrent)
    case Left(op, _, _) =>
      if op.Terminate? then Error(ResumeTerminated)
      else if op.Yield? then Switched(m)
      else if r.Some? then Error(DoubleResume)
      else if op.Resume? then Error(ResumeResuming)
      else Error(ResumeTransferring)
  }

  /** What a transfer to a fiber that is at w comes to. */
  function TransferOutcome<F>(w: Place<F>, m: Message): Outcome
  {
    match w
    case Fresh => Switched(m)
    case Running => Same(m)
    case Left(op, _, _) =>
      match op
      case Resume => Error(TransferToResuming)
      case Yield => Error(TransferToYielding)
      case Transfer => Switched(m)
      case Terminate => Error(DeadFiberCalled)
  }

  /** What raising an error in a fiber that is at w comes to. */
  function RaiseOutcome<F>(w: Place<F>, error: int): Outcome
  {
    match w
    case Fresh => Error(UnbornRaise)
    case Running => Error(ResumeCurrent)
    case Left(op, _, _) =>
      match op
      case Resume => Error(RaiseResuming)
      case Yield => Switched(Exception(error))
      case Transfer => Switched(Exception(error))
      case Terminate => Error(ResumeTerminated)
  }

  /** The error is passed on in the way in which the fiber can get control back. */
  function RaiseOp<F>(w: Place<F>): Op
  {
    if w.Left? && w.op.Yield? then Resume else Transfer
  }

  /** A resume with arguments succeeds exactly if it may happen; with an exception, if the fiber has started as well. */
  lemma ResumeExactly<F>(h: History<F>, n: nat, f: F, m: Message)
    requires Legal(h) && n <= |h.events|
    ensures ResumeOutcome(Where(h, n, f), Resumer(h, n, f), m) == Switched(m)
       <==> Allowed(h, n, Event(Current(h, n), Resume, f)) && (m.Exception? ==> Where(h, n, f) != Fresh)
  {
    hide Where, Resumer, ChainEnd;
    RunningIsCurrent(h, n, f);
    WhoIsResumed(h, n, f);
  }

  /** A transfer succeeds exactly if it may happen. */
  lemma TransferExactly<F>(h: History<F>, n: nat, f: F, m: Message)
    requires Legal(h) && n <= |h.events|
    ensures TransferOutcome(Where(h, n, f), m) == Switched(m) <==> Allowed(h, n, Event(Current(h, n), Transfer, f))
  {
    hide Where, Resumer, ChainEnd;
    RunningIsCurrent(h, n, f);
  }

  /** Raising an error succeeds exactly in a fiber that has started and can get control back in its way. */
  lemma RaiseExactly<F>(h: History<F>, n: nat, f: F, error: int)
    requires Legal(h) && n <= |h.events|
    ensures RaiseOutcome(Where(h, n, f), error) == Switched(Exception(error))
       <==> Where(h, n, f) != Fresh && Allowed(h, n, Event(Current(h, n), RaiseOp(Where(h, n, f)), f))
    ensures RaiseOp(Where(h, n, f)) == if LeftBy(h, n, f, Yield) then Resume else Transfer
  {
    hide Where, Resumer, ChainEnd;
    RunningIsCurrent(h, n, f);
    WhoIsResumed(h, n, f);
  }

  /** A fiber that somebody resumed is in control, or has resumed another, or has transferred. */
  lemma WhoIsResumed<F>(h: History<F>, n: nat, f: F)
    requires Legal(h) && n <= |h.events|
    ensures Resumer(h, n, f) != None ==> f == Current(h, n) || LeftBy(h, n, f, Resume) || LeftBy(h, n, f, Transfer)
  {
    hide Where, Resumer;
    RunningIsCurrent(h, n, f);
    var r := Resumer(h, n, f);
    if r.Some? { LinksInverse(h, n, r.value, f); }
  }

  /** When a resume is refused, and why. */
  lemma ResumeRefused<F>(h: History<F>, n: nat, f: F, m: Message)
    requires Legal(h) && n <= |h.events|
    ensures var o := ResumeOutcome(Where(h, n, f), Resumer(h, n, f), m);
      && (o == Error(UnbornRaise) <==> Where(h, n, f) == Fresh && m.Exception?)
      && (o == Error(ResumeCurrent) <==> f == Current(h, n))
      && (o == Error(ResumeTerminated) <==> LeftBy(h, n, f, Terminate))
      && (o == Error(DoubleResume) <==> f != Current(h, n) && Resumer(h, n, f) != None)
      && (o == Error(ResumeResuming) <==> LeftBy(h, n, f, Resume) && Resumer(h, n, f) == None)
      && (o == Error(ResumeTransferring) <==> LeftBy(h, n, f, Transfer) && Resumer(h, n, f) == None)
  {
    hide Where, Resumer;
    RunningIsCurrent(h, n, f);
    WhoIsResumed(h, n, f);
  }

  /** When a transfer is refused, and why; to the current fiber it just returns. */
  lemma TransferRefused<F>(h: History<F>, n: nat, f: F, m: Message)
    requires Legal(h) && n <= |h.events|
    ensures var o := TransferOutcome(Where(h, n, f), m);
      && (o == Same(m) <==> f == Current(h, n))
      && (o == Error(TransferToResuming) <==> LeftBy(h, n, f, Resume))
      && (o == Error(TransferToYielding) <==> LeftBy(h, n, f, Yield))
      && (o == Error(DeadFiberCalled) <==> LeftBy(h, n, f, Terminate))
  {
    hide Where;
    RunningIsCurrent(h, n, f);
  }

  /** When an error cannot be raised, and why. */
  lemma RaiseRefused<F>(h: History<F>, n: nat, f: F, error: int)
    requires Legal(h) && n <= |h.events|
    ensures var o := RaiseOutcome(Where(h, n, f), error);
      && (o == Error(UnbornRaise) <==> Where(h, n, f) == Fresh)
      && (o == Error(ResumeCurrent) <==> f == Current(h, n))
      && (o == Error(RaiseResuming) <==> LeftBy(h, n, f, Resume))
      && (o == Error(ResumeTerminated) <==> LeftBy(h, n, f, Terminate))
  {
    hide Where;
    RunningIsCurrent(h, n, f);
  }

  /** The current fiber may yield exactly if somebody resumed it, and may end exactly if it is not the root; there is
      only one fiber that can get control then. */
  lemma LeaveExactly<F>(h: History<F>, n: nat, f: F)
    requires Legal(h) && n <= |h.events|
    ensures Allowed(h, n, Event(Current(h, n), Yield, f)) <==> Resumer(h, n, Current(h, n)) == Some(f)
    ensures Allowed(h, n, Event(Current(h, n), Terminate, f)) <==>
              Current(h, n) != h.root
              && match Resumer(h, n, Current(h, n))
                 case Some(p) => f == p
                 case None => f == ChainEnd(h, n, h.root, 0)
  {
    hide Where, Resumer, ChainEnd;
    var c := Current(h, n);
    RunningIsCurrent(h, n, c);
    if Resumer(h, n, c).Some? {
      LinksInverse(h, n, Resumer(h, n, c).value, c);
    } else if c != h.root {
      ChainEndIdle(h, n, c);
    }
  }

  function StatusAt<F>(w: Place<F>): Status
  {
    match w
    case Fresh => CREATED
    case Running => RESUMED
    case Left(op, _, _) => if op.Terminate? then TERMINATED else SUSPENDED
  }

  /** The links and the flag of f are those of a fiber that is at w and was resumed by r. */
  ghost predicate Matches(f: Fiber, w: Place<Fiber>, r: Option<Fiber>)
    reads f
  {
    && f.yielding == (w.Left? && w.op.Yield?)
    && f.resuming == (if w.Left? && w.op.Resume? then w.to else null)
    && f.prev == (if r.Some? then r.value else null)
  }

  /** rb_thread_t, as far as fibers go. */
  class Thread {
    const root: Fiber
    var current: Fiber
    var blocking: nat
    ghost var fibers: set<Fiber>
    ghost var history: History<Fiber>

    ghost function Now(): nat
      reads this
    {
      |history.events|
    }

    ghost function At(f: Fiber): Place<Fiber>
      reads this
    {
      Where(history, Now(), f)
    }

    ghost function ResumedBy(f: Fiber): Option<Fiber>
      reads this
    {
      Resumer(history, Now(), f)
    }

    /** Every field of every fiber is what the events so far say, the status of the current fiber being s. */
    ghost predicate Consistent(s: Status)
      reads this, fibers
    {
      && root in fibers && current in fibers
      && history.root == root && Legal(history)
      && (forall e | e in history.events :: e.actor in fibers && e.next in fibers)
      && current == Current(history, Now())
      && (forall f | f in fibers :: Matches(f, At(f), ResumedBy(f)))
      && (forall f | f in fibers :: f.status == if f == current then s else StatusAt(At(f)))
      && blocking == Bit(current.blocking)
    }

    /** The state between two steps. */
    ghost predicate Valid()
      reads this, fibers
    {
      Consistent(RESUMED)
    }

    /** The current fiber has been closed and has not yet given control away. */
    ghost predicate Closing()
      reads this, fibers
    {
      Consistent(TERMINATED) && current != root
    }

    /** rb_threadptr_root_fiber_setup */
    constructor ()
      ensures Valid() && fresh(fibers) && fibers == {root} && history.events == [] && root.blocking
    {
      var f := new Fiber(RESUMED, true);
      root, current, blocking, fibers, history := f, f, 1, {f}, History(f, []);
    }

    /** fiber_t_alloc: Fiber.new */
    method NewFiber(blocking: bool) returns (f: Fiber)
      requires Valid()
      modifies this`fibers
      ensures Valid() && fresh(f) && fibers == old(fibers) + {f}
      ensures At(f) == Fresh && f.blocking == blocking
    {
      f := new Fiber(CREATED, blocking);
      NotStarted(history, Now(), f);
      fibers := fibers + {f};
    }

    /** The state in which the current fiber and the fiber that resumed it are no longer linked. */
    ghost predicate Detached(s: Status)
      reads this, fibers
    {
      && root in fibers && current in fibers
      && history.root == root && Legal(history)
      && (forall e | e in history.events :: e.actor in fibers && e.next in fibers)
      && current == Current(history, Now())
      && (forall f | f in fibers ::
           Matches(f, if Some(f) == ResumedBy(current) then Running else At(f), if f == current then None else ResumedBy(f)))
      && (forall f | f in fibers :: f.status == if f == current then s else StatusAt(At(f)))
      && blocking == Bit(current.blocking)
    }

    /** return_fiber: unlink the current fiber from the fiber that resumed it; a fiber that nobody resumed
        may only end, and then the fibers that resume one another are searched from the root. */
    method ReturnFiber(terminate: bool) returns (next: Fiber?)
      requires if terminate then Closing() else Valid()
      modifies current`prev, fibers`resuming
      ensures next == null <==> !terminate && ResumedBy(current) == None
      ensures next == null ==> unchanged(fibers)
      ensures next != null ==> next in fibers && next != current && Detached(if terminate then TERMINATED else RESUMED)
      ensures next != null ==> match ResumedBy(current)
                               case Some(p) => next == p
                               case None => next == ChainEnd(history, Now(), root, 0)
    {
      hide Where, Resumer, ChainEnd;
      var prev := current.prev;
      if prev != null {
        ghost var i := ResumerResumed(history, Now(), prev, current);
        LinksInverse(history, Now(), prev, current);
        RunningIsCurrent(history, Now(), current);
        current.prev := null;
        prev.resuming := null;
        return prev;
      }
      if !terminate { return null; }
      next := SearchResuming();
    }

    /** Follow the resuming fibers from the root; the walk ends, and not at the fiber that is ending. */
    method SearchResuming() returns (f: Fiber)
      requires Closing() && ResumedBy(current) == None
      ensures f == ChainEnd(history, Now(), root, 0)
      ensures f in fibers && f != current
    {
      hide Resumer;
      ghost var since := 0;
      RootPlace(history, Now());
      PlaceTime(history, Now(), root);
      RunningIsCurrent(history, Now(), current);
      f := root;
      while f.resuming != null
        invariant f in fibers && f != current
        invariant At(f).Left? && since <= At(f).at < Now()
        invariant ChainEnd(history, Now(), f, since) == ChainEnd(history, Now(), root, 0)
        decreases Now() - since
      {
        assert Matches(f, At(f), ResumedBy(f));
        since := At(f).at + 1;
        Next(f);
        f := f.resuming;
      }
      assert Matches(f, At(f), ResumedBy(f));
    }

    /** The fiber that f resumes is a fiber of this thread that was left after f, unless it is in control. */
    lemma Next(f: Fiber)
      requires Closing() && ResumedBy(current) == None
      requires f in fibers && f != current && f.resuming != null
      ensures f.resuming in fibers && f.resuming != current && At(f).Left? && At(f).to == f.resuming
      ensures At(f.resuming).Left? && At(f).at < At(f.resuming).at < Now()
    {
      var w := At(f);
      assert Matches(f, w, ResumedBy(f));
      LinksInverse(history, Now(), f, w.to);
      PlaceTime(history, Now(), f);
      PlaceTime(history, Now(), w.to);
      RunningIsCurrent(history, Now(), w.to);
      PlaceEvent(f);
    }

    lemma PlaceEvent(f: Fiber)
      ensures At(f).Left? ==> exists e :: e in history.events && e.next == At(f).to
    {
      if At(f).Left? { PlaceEventAt(history, Now(), f); }
    }

    /** fiber_store: hand the thread over to next. */
    method FiberStore(next: Fiber)
      requires current.status == RESUMED || current.status == TERMINATED
      requires next.status == CREATED || next.status == SUSPENDED
      modifies this`current, current`status, next`status
      ensures current == next && next.status == RESUMED
      ensures old(current).status == if old(current.status) == RESUMED then SUSPENDED else TERMINATED
    {
      if current.status == RESUMED { current.status := SUSPENDED; }
      next.status := RESUMED;
      current := next;
    }

    /** fiber_switch.  What follows FiberStore is done by the fiber that has got control, where it gave control
        away before, or by rb_fiber_start if it has just been started. */
    method FiberSwitch(fiber: Fiber, m: Message, resuming: Fiber?, yielding: bool) returns (o: Outcome)
      requires resuming != null ==> resuming == fiber
      requires blocking == Bit(current.blocking)
      requires fiber == current || fiber.status == TERMINATED || Ready(fiber)
      modifies this`current, this`blocking, current, fiber, root`cont
      ensures o == if fiber == old(current) then Same(m)
                   else if old(fiber.status) != TERMINATED then Switched(m)
                   else if old(current.status) != TERMINATED then Error(DeadFiberCalled)
                   else FellBack
      ensures !o.Switched? && !o.FellBack? ==> current == old(current) && unchanged(`blocking, current, fiber, root)
      ensures o.FellBack? ==> current == root && root.cont.Exception? && blocking == old(blocking)
      ensures o.Switched? ==> SwitchedTo(old(current), fiber, m, resuming, yielding)
    {
      if current == fiber { return Same(m); }
      if fiber.status == TERMINATED {
        if current.status != TERMINATED { return Error(DeadFiberCalled); }
        root.cont := Exception(0);
        current := root;
        return FellBack;
      }
      var leaving := current;
      if resuming != null {
        leaving.resuming := resuming;
        fiber.prev := leaving;
        fiber.yielding := false;
      }
      if yielding { leaving.yielding := true; }
      if leaving.blocking { blocking := blocking - 1; }
      fiber.cont := m;
      FiberStore(fiber);
      if current.blocking { blocking := blocking + 1; }
      o := Switched(current.cont);
    }

    /** The assertions under which fiber_switch may switch. */
    ghost predicate Ready(fiber: Fiber)
      reads this, current, fiber
    {
      && (fiber.status == CREATED || fiber.status == SUSPENDED)
      && (current.status == RESUMED || current.status == TERMINATED)
      && current.resuming == null && !current.yielding
    }

    /** The state after a switch. */
    twostate predicate SwitchedTo(c: Fiber, fiber: Fiber, m: Message, resuming: Fiber?, yielding: bool)
      reads this, fiber, c
    {
      && current == fiber && blocking == Bit(fiber.blocking) && fiber.cont == m
      && fiber.status == RESUMED && fiber.resuming == old(fiber.resuming)
      && fiber.prev == (if resuming != null then c else old(fiber.prev))
      && fiber.yielding == (resuming == null && old(fiber.yielding))
      && c.status == (if old(c.status) == RESUMED then SUSPENDED else TERMINATED)
      && c.resuming == resuming && c.yielding == yielding && c.prev == old(c.prev)
    }

    /** fiber_resume_kw: succeeds exactly on a fiber that is unstarted (unless an exception is to be raised in
        it) or that has yielded. */
    method Resume(fiber: Fiber, m: Message) returns (o: Outcome)
      requires Valid() && fiber in fibers
      modifies this`current, this`blocking, this`history, fibers
      ensures Valid() && fibers == old(fibers)
      ensures o == ResumeOutcome(old(At(fiber)), old(ResumedBy(fiber)), m)
      ensures o.Switched? <==> old(Allowed(history, Now(), Event(current, FiberHistory.Resume, fiber)))
                               && (m.Exception? ==> old(At(fiber)) != Fresh)
      ensures Advanced(o, FiberHistory.Resume, fiber)
    {
      hide Where, Resumer, ChainEnd, Legal;
      PlaceFacts(fiber);
      ResumeExactly(history, Now(), fiber, m);
      if m.Exception? && fiber.status == CREATED { return Error(UnbornRaise); }
      if fiber.status == TERMINATED { return Error(ResumeTerminated); }
      if fiber == current { return Error(ResumeCurrent); }
      if fiber.prev != null { return Error(DoubleResume); }
      if fiber.resuming != null { return Error(ResumeResuming); }
      if fiber.prev == null && !fiber.yielding && fiber.status != CREATED { return Error(ResumeTransferring); }
      PlaceFacts(current);
      ghost var e := Event(current, FiberHistory.Resume, fiber);
      o := FiberSwitch(fiber, m, fiber, false);
      Record(e);
      forall f | f in fibers
        ensures Matches(f, At(f), ResumedBy(f)) && f.status == StatusAt(At(f))
      {
        WhereNext(old(history), e, f);
      }
    }

    /** rb_fiber_yield_kw: succeeds exactly in a fiber that was resumed, and goes back to the fiber that did so. */
    method Yield(m: Message) returns (o: Outcome)
      requires Valid()
      modifies this`current, this`blocking, this`history, fibers
      ensures Valid() && fibers == old(fibers)
      ensures o == if old(ResumedBy(current)).Some? then Switched(m) else Error(YieldOnNotResumed)
      ensures Advanced(o, FiberHistory.Yield, current)
      ensures o.Switched? ==> Some(current) == old(ResumedBy(current))
    {
      hide Where, Resumer, ChainEnd, Legal;
      PlaceFacts(current);
      var next := ReturnFiber(false);
      if next == null { return Error(YieldOnNotResumed); }
      o := Leave(next, m, FiberHistory.Yield);
    }

    /** Give control to next, to which return_fiber has pointed. */
    method Leave(next: Fiber, m: Message, op: Op) returns (o: Outcome)
      requires op.Yield? || op.Terminate?
      requires Detached(if op.Terminate? then TERMINATED else RESUMED) && next in fibers
      requires Allowed(history, Now(), Event(current, op, next))
      modifies this`current, this`blocking, this`history, fibers
      ensures Valid() && fibers == old(fibers) && o == Switched(m)
      ensures current == next && next.cont == m && history == Extended(old(history), Event(old(current), op, next))
    {
      hide Where, Resumer, ChainEnd, Legal;
      ghost var e := Event(current, op, next);
      NextPlace(e);
      o := FiberSwitch(next, m, null, op.Yield?);
      Record(e);
      forall f | f in fibers
        ensures Matches(f, At(f), ResumedBy(f)) && f.status == StatusAt(At(f))
      {
        WhereNext(old(history), e, f);
      }
    }

    /** The fiber that gets control from a yield or at the end of a fiber waits for that, or has transferred. */
    lemma NextPlace(e: Event<Fiber>)
      requires history.root == root && Legal(history) && Allowed(history, Now(), e) && (e.op.Yield? || e.op.Terminate?)
      ensures At(e.actor).Running?
      ensures match ResumedBy(e.actor)
              case Some(p) => p == e.next && LeftBy(history, Now(), e.next, FiberHistory.Resume)
              case None => LeftBy(history, Now(), e.next, FiberHistory.Transfer)
    {
      hide Where, Resumer, ChainEnd;
      RunningIsCurrent(history, Now(), e.actor);
      if ResumedBy(e.actor) == None {
        ChainEndIdle(history, Now(), e.actor);
      } else {
        LinksInverse(history, Now(), e.next, e.actor);
      }
    }

    /** fiber_transfer_kw: succeeds exactly on a fiber that is unstarted or that has transferred; a transfer to
        the current fiber just returns. */
    method Transfer(fiber: Fiber, m: Message) returns (o: Outcome)
      requires Valid() && fiber in fibers
      modifies this`current, this`blocking, this`history, fibers
      ensures Valid() && fibers == old(fibers)
      ensures o == TransferOutcome(old(At(fiber)), m)
      ensures o.Switched? <==> old(Allowed(history, Now(), Event(current, FiberHistory.Transfer, fiber)))
      ensures Advanced(o, FiberHistory.Transfer, fiber)
    {
      hide Where, Resumer, ChainEnd, Legal;
      PlaceFacts(fiber);
      PlaceFacts(current);
      TransferExactly(history, Now(), fiber, m);
      if fiber.resuming != null { return Error(TransferToResuming); }
      if fiber.yielding { return Error(TransferToYielding); }
      ghost var e := Event(current, FiberHistory.Transfer, fiber);
      o := FiberSwitch(fiber, m, null, false);
      if o.Switched? {
        Record(e);
        forall f | f in fibers
          ensures Matches(f, At(f), ResumedBy(f)) && f.status == StatusAt(At(f))
        {
          WhereNext(old(history), e, f);
        }
      }
    }

    /** fiber_raise: passes an exception in whichever way the fiber can get control back. */
    method Raise(fiber: Fiber, error: int) returns (o: Outcome)
      requires Valid() && fiber in fibers
      modifies this`current, this`blocking, this`history, fibers
      ensures Valid() && fibers == old(fibers)
      ensures o == RaiseOutcome(old(At(fiber)), error)
      ensures o.Switched? <==> old(At(fiber)) != Fresh
                               && old(Allowed(history, Now(), Event(current, RaiseOp(At(fiber)), fiber)))
      ensures Advanced(o, RaiseOp(old(At(fiber))), fiber)
    {
      hide Where, Resumer, ChainEnd, Legal;
      PlaceFacts(fiber);
      RaiseExactly(history, Now(), fiber, error);
      if fiber.resuming != null {
        o := Error(RaiseResuming);
      } else if fiber.status == SUSPENDED && !fiber.yielding {
        o := Transfer(fiber, Exception(error));
      } else {
        o := Resume(fiber, Exception(error));
      }
    }

    /** rb_fiber_close */
    method Close()
      requires Valid() && current != root
      modifies current`status
      ensures Closing() && current.status == TERMINATED
    {
      hide Where, Resumer, ChainEnd, Legal;
      current.status := TERMINATED;
    }

    /** rb_fiber_terminate: the current fiber ends.  Control always reaches a live fiber: the one that resumed
        it, or else one that the search from the root finds suspended by a transfer of its own. */
    method Terminate(m: Message)
      requires Valid() && current != root
      modifies this`current, this`blocking, this`history, fibers
      ensures Valid() && fibers == old(fibers)
      ensures Advanced(Switched(m), FiberHistory.Terminate, current)
      ensures match old(ResumedBy(current))
              case Some(p) => current == p
              case None => current == ChainEnd(old(history), old(Now()), root, 0)
                           && LeftBy(old(history), old(Now()), current, FiberHistory.Transfer)
      ensures old(current).status == TERMINATED && current.status == RESUMED
    {
      hide Where, Resumer, ChainEnd, Legal;
      Close();
      var next := ReturnFiber(true);
      NextPlace(Event(current, FiberHistory.Terminate, next));
      var _ := Leave(next, m, FiberHistory.Terminate);
      WhereNext(old(history), Event(old(current), FiberHistory.Terminate, next), old(current));
    }

    /** What is recorded of a call: an event by the fiber that made it if control was passed on, else nothing. */
    twostate predicate Advanced(o: Outcome, op: Op, next: Fiber)
      reads this, fibers, next
    {
      if o.Switched? then
        current == next && next.cont == o.delivered && history == Extended(old(history), Event(old(current), op, next))
      else
        unchanged(this) && unchanged(fibers)
    }

    /** Where a fiber is, and what that says of its links. */
    lemma PlaceFacts(f: Fiber)
      requires Consistent(RESUMED) || Consistent(TERMINATED)
      requires f in fibers
      ensures At(f) == Running <==> f == current
      ensures At(f).Fresh? ==> ResumedBy(f) == None
      ensures At(f).Left? && (At(f).op.Yield? || At(f).op.Terminate?) ==> ResumedBy(f) == None
    {
      hide Where, Resumer, ChainEnd;
      RunningIsCurrent(history, Now(), f);
      if ResumedBy(f).Some? { LinksInverse(history, Now(), ResumedBy(f).value, f); }
    }

    /** Note that e has happened. */
    ghost method Record(e: Event<Fiber>)
      requires Legal(history) && Allowed(history, Now(), e)
      modifies this`history
      ensures history == Extended(old(history), e) && Legal(history)
    {
      LegalNext(history, e);
      history := Extended(history, e);
    }
  }

  /** The assertions of cont.c, in every state between two steps. */
  lemma LinkInvariants(th: Thread, f: Fiber, g: Fiber)
    requires th.Valid() && f in th.fibers && g in th.fibers
    ensures th.current.resuming == null && !th.current.yielding
    ensures f.status == RESUMED <==> f == th.current
    ensures g.prev == f <==> f.resuming == g
    ensures f.yielding ==> f.status == SUSPENDED && f.prev == null && f.resuming == null
    ensures f.status == CREATED || f.status == TERMINATED ==> f.prev == null && f.resuming == null
    ensures th.root.prev == null && !th.root.yielding && th.root.status != TERMINATED
  {
    hide Where, Resumer, ChainEnd;
    th.PlaceFacts(f);
    th.PlaceFacts(th.current);
    RootPlace(th.history, th.Now());
    LinksInverse(th.history, th.Now(), f, g);
    RunningIsCurrent(th.history, th.Now(), f);
  }

  lemma {:induction false} PlaceEventAt(h: History<Fiber>, n: nat, f: Fiber)
    requires n <= |h.events| && Where(h, n, f).Left?
    ensures exists e :: e in h.events && e.next == Where(h, n, f).to
  {
    var e := h.events[n - 1];
    assert e in h.events;
    if e.next != f && e.actor != f { PlaceEventAt(h, n - 1, f); }
  }
}
