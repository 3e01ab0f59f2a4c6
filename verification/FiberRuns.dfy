/** Programs over fibers: every run of a thread is one of a machine that only keeps the history. */
module FiberRuns {
  import opened Wrappers
  import opened FiberHistory
  import opened FiberControl

  /** What the fiber in control does next.  Fibers are named in the order in which they were made; 0 is the root. */
  datatype Command =
    | New(blocking: bool)
    | DoResume(fiber: nat, message: Message)
    | DoYield(message: Message)
    | DoTransfer(fiber: nat, message: Message)
    | DoRaise(fiber: nat, error: int)
    | DoTerminate(message: Message)

  /** What a command answers: the name of a new fiber, or how the call ends, or that it cannot be made. */
  datatype Answer = Made(fiber: nat) | Did(outcome: Outcome) | Impossible

  /** Fibers that are just numbers, with no links and no status: the events so far, and which fibers are blocking. */
  datatype Plain = Plain(history: History<nat>, blocking: seq<bool>)
  {
    ghost function Now(): nat
    {
      |history.events|
    }

    ghost function Running(): nat
    {
      Current(history, Now())
    }

    ghost function At(f: nat): Place<nat>
    {
      Where(history, Now(), f)
    }

    ghost function ResumedBy(f: nat): Option<nat>
    {
      Resumer(history, Now(), f)
    }

    /** The fiber in control tries to pass it to next. */
    ghost function Attempt(o: Outcome, op: Op, next: nat): (Plain, Answer)
    {
      (if o.Switched? then Plain(Extended(history, Event(Running(), op, next)), blocking) else this, Did(o))
    }

    ghost function Step(c: Command): (Plain, Answer)
    {
      match c
      case New(b) => (Plain(history, blocking + [b]), Made(|blocking|))
      case DoResume(f, m) =>
        if |blocking| <= f then (this, Impossible)
        else Attempt(ResumeOutcome(At(f), ResumedBy(f), m), Resume, f)
      case DoYield(m) =>
        (match ResumedBy(Running())
         case None => (this, Did(Error(YieldOnNotResumed)))
         case Some(p) => Attempt(Switched(m), Yield, p))
      case DoTransfer(f, m) =>
        if |blocking| <= f then (this, Impossible)
        else Attempt(TransferOutcome(At(f), m), Transfer, f)
      case DoRaise(f, x) =>
        if |blocking| <= f then (this, Impossible)
        else Attempt(RaiseOutcome(At(f), x), RaiseOp(At(f)), f)
      case DoTerminate(m) =>
        if Running() == history.root then (this, Impossible)
        else
          (match ResumedBy(Running())
           case None => Attempt(Switched(m), Terminate, ChainEnd(history, Now(), history.root, 0))
           case Some(p) => Attempt(Switched(m), Terminate, p))
    }
  }

  /** The first n commands of a script, and their answers. */
  ghost function PlainRun(script: seq<Command>, n: nat): (Plain, seq<Answer>)
    requires n <= |script|
  {
    if n == 0 then (Plain(History(0, []), [true]), [])
    else
      var (p, answers) := PlainRun(script, n - 1);
      var (q, answer) := p.Step(script[n - 1]);
      (q, answers + [answer])
  }

  /** Only what is allowed is ever recorded. */
  lemma StepLegal(p: Plain, c: Command)
    requires Legal(p.history)
    ensures Legal(p.Step(c).0.history)
  {
    hide Where, Resumer, ChainEnd, Legal;
    var q := p.Step(c).0;
    if q.history != p.history {
      var e := Event(p.Running(), q.history.events[p.Now()].op, q.history.events[p.Now()].next);
      assert q.history == Extended(p.history, e);
      StepAllowed(p, c, e);
      LegalNext(p.history, e);
    }
  }

  lemma StepAllowed(p: Plain, c: Command, e: Event<nat>)
    requires Legal(p.history) && p.Step(c).0.history == Extended(p.history, e)
    ensures Allowed(p.history, p.Now(), e)
  {
    hide Where, Resumer, ChainEnd;
    var h, n := p.history, p.Now();
    assert Extended(h, e).events[n] == e;
    RunningIsCurrent(h, n, e.next);
    RunningIsCurrent(h, n, e.actor);
    var r := p.ResumedBy(e.next);
    if r.Some? { LinksInverse(h, n, r.value, e.next); }
    var b := p.ResumedBy(e.actor);
    if b.Some? {
      LinksInverse(h, n, b.value, e.actor);
    } else if e.op.Terminate? {
      ChainEndIdle(h, n, e.actor);
    }
  }

  lemma {:induction false} RunLegal(script: seq<Command>, n: nat)
    requires n <= |script|
    ensures Legal(PlainRun(script, n).0.history)
  {
    hide Legal;
    if n == 0 {
      NothingYet(PlainRun(script, n).0.history);
    } else {
      RunLegal(script, n - 1);
      StepLegal(PlainRun(script, n - 1).0, script[n - 1]);
    }
  }

  lemma NothingYet(h: History<nat>)
    requires h.events == []
    ensures Legal(h)
  {
  }

  /** In every run, at every time: resuming and being resumed are inverse, nobody is reached from itself by the
      links, and control comes back only in the way that fits how it was given away. */
  lemma RunTheorems(script: seq<Command>)
    ensures var h := PlainRun(script, |script|).0.history;
      && (forall n: nat, f: nat, g: nat | n <= |h.events| :: Linked(h, n, f, g))
      && (forall n: nat, f: nat, k: nat | n <= |h.events| && 0 < k :: Follow(h, n, f, k) != Some(f))
      && (forall i: nat, j: nat | Returns(h, i, j) :: Fitting(h, i, j))
  {
    hide Linked, Follow, Returns, Fitting, Legal;
    RunLegal(script, |script|);
    var h := PlainRun(script, |script|).0.history;
    forall n: nat, f: nat, g: nat | n <= |h.events| ensures Linked(h, n, f, g) { LinksInverse(h, n, f, g); }
    forall n: nat, f: nat, k: nat | n <= |h.events| && 0 < k ensures Follow(h, n, f, k) != Some(f) { Acyclic(h, n, f, k); }
    forall i: nat, j: nat | Returns(h, i, j) ensures i < j < |h.events| && Fitting(h, i, j) {
      ReturnTimes(h, i, j);
      ReturnMatches(h, i, j);
    }
  }

  lemma ReturnTimes(h: History<nat>, i: nat, j: nat)
    requires Returns(h, i, j)
    ensures i < j < |h.events|
  {
  }

  /** The fibers of a thread, in the order in which they were made. */
  ghost predicate Names(made: seq<Fiber>)
  {
    forall i, j | 0 <= i < j < |made| :: made[i] != made[j]
  }

  ghost predicate SameEvent(made: seq<Fiber>, d: Event<nat>, e: Event<Fiber>)
  {
    d.actor < |made| && d.next < |made| && e == Event(made[d.actor], d.op, made[d.next])
  }

  /** h is g with the fibers for their names. */
  ghost predicate SameHistory(made: seq<Fiber>, g: History<nat>, h: History<Fiber>)
  {
    && g.root < |made| && h.root == made[g.root] && |g.events| == |h.events|
    && forall k | 0 <= k < |g.events| :: SameEvent(made, g.events[k], h.events[k])
  }

  ghost predicate SamePlace(made: seq<Fiber>, v: Place<nat>, w: Place<Fiber>)
  {
    match v
    case Fresh => w == Fresh
    case Running => w == Running
    case Left(op, to, at) => to < |made| && w == Left(op, made[to], at)
  }

  ghost predicate SameFiber(made: seq<Fiber>, r: Option<nat>, s: Option<Fiber>)
  {
    match r
    case None => s == None
    case Some(f) => f < |made| && s == Some(made[f])
  }

  lemma {:induction false} WhereSame(made: seq<Fiber>, g: History<nat>, h: History<Fiber>, n: nat, f: nat)
    requires Names(made) && SameHistory(made, g, h) && n <= |g.events| && f < |made|
    ensures SamePlace(made, Where(g, n, f), Where(h, n, made[f]))
    ensures SameFiber(made, Resumer(g, n, f), Resumer(h, n, made[f]))
  {
    if n > 0 {
      assert SameEvent(made, g.events[n - 1], h.events[n - 1]);
      WhereSame(made, g, h, n - 1, f);
    }
  }

  lemma CurrentSame(made: seq<Fiber>, g: History<nat>, h: History<Fiber>, n: nat)
    requires SameHistory(made, g, h) && n <= |g.events|
    ensures Current(g, n) < |made| && Current(h, n) == made[Current(g, n)]
  {
    if n > 0 { assert SameEvent(made, g.events[n - 1], h.events[n - 1]); }
  }

  lemma {:induction false} ChainSame(made: seq<Fiber>, g: History<nat>, h: History<Fiber>, n: nat, f: nat, since: nat)
    requires Names(made) && SameHistory(made, g, h) && n <= |g.events| && f < |made|
    ensures ChainEnd(g, n, f, since) < |made| && ChainEnd(h, n, made[f], since) == made[ChainEnd(g, n, f, since)]
    decreases n - since
  {
    hide Where;
    WhereSame(made, g, h, n, f);
    var w := Where(g, n, f);
    if w.Left? && w.op.Resume? && since <= w.at < n { ChainSame(made, g, h, n, w.to, w.at + 1); }
  }

  /** The fibers made, and what they have done, are those of p. */
  ghost predicate Shows(fibers: set<Fiber>, h: History<Fiber>, made: seq<Fiber>, p: Plain)
  {
    && Names(made) && |made| == |p.blocking| && fibers == (set f | f in made)
    && SameHistory(made, p.history, h)
    && forall i | 0 <= i < |made| :: made[i].blocking == p.blocking[i]
  }

  /** The fiber in control, and who resumed it. */
  lemma RunningShown(fibers: set<Fiber>, h: History<Fiber>, made: seq<Fiber>, p: Plain)
    requires Shows(fibers, h, made, p)
    ensures p.history.root < |made| == |p.blocking| && h.root == made[p.history.root] && |h.events| == p.Now()
    ensures p.Running() < |made| && Current(h, |h.events|) == made[p.Running()]
    ensures p.Running() == p.history.root <==> Current(h, |h.events|) == h.root
    ensures SameFiber(made, p.ResumedBy(p.Running()), Resumer(h, |h.events|, made[p.Running()]))
  {
    hide Where, Resumer;
    CurrentSame(made, p.history, h, p.Now());
    WhereSame(made, p.history, h, p.Now(), p.Running());
  }

  /** Any other fiber. */
  lemma PlaceShown(fibers: set<Fiber>, h: History<Fiber>, made: seq<Fiber>, p: Plain, f: nat)
    requires Shows(fibers, h, made, p) && f < |made|
    ensures made[f] in fibers && |made| == |p.blocking| && |h.events| == p.Now()
    ensures SamePlace(made, p.At(f), Where(h, |h.events|, made[f]))
    ensures SameFiber(made, p.ResumedBy(f), Resumer(h, |h.events|, made[f]))
  {
    hide Where, Resumer;
    WhereSame(made, p.history, h, p.Now(), f);
  }

  lemma ChainShown(fibers: set<Fiber>, h: History<Fiber>, made: seq<Fiber>, p: Plain)
    requires Shows(fibers, h, made, p)
    ensures var f := ChainEnd(p.history, p.Now(), p.history.root, 0);
            |h.events| == p.Now() && f < |made| && ChainEnd(h, |h.events|, h.root, 0) == made[f]
  {
    hide ChainEnd;
    ChainSame(made, p.history, h, p.Now(), p.history.root, 0);
  }

  /** An attempt to pass control that the thread and the machine judge in the same way. */
  lemma Attempted(fibers: set<Fiber>, h: History<Fiber>, made: seq<Fiber>, p: Plain, o: Outcome, op: Op, next: nat)
    requires Shows(fibers, h, made, p) && next < |made|
    ensures var e := Event(Current(h, |h.events|), op, made[next]);
            Shows(fibers, if o.Switched? then Extended(h, e) else h, made, p.Attempt(o, op, next).0)
  {
    CurrentSame(made, p.history, h, p.Now());
    var e := Event(Current(h, |h.events|), op, made[next]);
    assert SameEvent(made, Event(p.Running(), op, next), e);
  }

  /** A new fiber does not change what has been. */
  lemma Joined(fibers: set<Fiber>, h: History<Fiber>, made: seq<Fiber>, p: Plain, f: Fiber)
    requires Shows(fibers, h, made, p) && f !in fibers
    ensures |made| == |p.blocking| && Shows(fibers + {f}, h, made + [f], Plain(p.history, p.blocking + [f.blocking]))
  {
    forall k | 0 <= k < |p.history.events| ensures SameEvent(made + [f], p.history.events[k], h.events[k]) {
      assert SameEvent(made, p.history.events[k], h.events[k]);
    }
    forall i | 0 <= i < |made| ensures made[i] != f { assert made[i] in fibers; }
  }

  /** One command. */
  method Step(th: Thread, made: seq<Fiber>, c: Command, ghost p: Plain) returns (made': seq<Fiber>, answer: Answer)
    requires th.Valid() && Shows(th.fibers, th.history, made, p)
    modifies th, th.fibers
    ensures th.Valid() && Shows(th.fibers, th.history, made', p.Step(c).0) && answer == p.Step(c).1
    ensures fresh(th.fibers - old(th.fibers))
  {
    hide Where, Resumer, ChainEnd, Legal, Shows;
    made' := made;
    RunningShown(th.fibers, th.history, made, p);
    if c.New? {
      answer := Made(|made|);
      var f := th.NewFiber(c.blocking);
      made' := made + [f];
      Joined(old(th.fibers), th.history, made, p, f);
    } else if c.DoYield? {
      answer := PassBack(th, made, c.message, p);
    } else if c.DoTerminate? {
      answer := End(th, made, c.message, p);
    } else if |made| <= c.fiber {
      answer := Impossible;
    } else {
      answer := PassTo(th, made, c, p);
    }
  }

  method PassBack(th: Thread, made: seq<Fiber>, m: Message, ghost p: Plain) returns (answer: Answer)
    requires th.Valid() && Shows(th.fibers, th.history, made, p)
    modifies th, th.fibers
    ensures th.Valid() && th.fibers == old(th.fibers)
    ensures Shows(th.fibers, th.history, made, p.Step(DoYield(m)).0) && answer == p.Step(DoYield(m)).1
  {
    hide Where, Resumer, ChainEnd, Legal, Shows;
    RunningShown(th.fibers, th.history, made, p);
    ghost var r := p.ResumedBy(p.Running());
    var o := th.Yield(m);
    answer := Did(o);
    if r.Some? { Attempted(th.fibers, old(th.history), made, p, o, Yield, r.value); }
  }

  method End(th: Thread, made: seq<Fiber>, m: Message, ghost p: Plain) returns (answer: Answer)
    requires th.Valid() && Shows(th.fibers, th.history, made, p)
    modifies th, th.fibers
    ensures th.Valid() && th.fibers == old(th.fibers)
    ensures Shows(th.fibers, th.history, made, p.Step(DoTerminate(m)).0) && answer == p.Step(DoTerminate(m)).1
  {
    hide Where, Resumer, ChainEnd, Legal, Shows;
    RunningShown(th.fibers, th.history, made, p);
    if th.current == th.root { return Impossible; }
    ChainShown(th.fibers, th.history, made, p);
    ghost var r := p.ResumedBy(p.Running());
    ghost var next := if r.Some? then r.value else ChainEnd(p.history, p.Now(), p.history.root, 0);
    th.Terminate(m);
    answer := Did(Switched(m));
    Attempted(th.fibers, old(th.history), made, p, Switched(m), Terminate, next);
  }

  /** A command that names a fiber. */
  method PassTo(th: Thread, made: seq<Fiber>, c: Command, ghost p: Plain) returns (answer: Answer)
    requires th.Valid() && Shows(th.fibers, th.history, made, p)
    requires (c.DoResume? || c.DoTransfer? || c.DoRaise?) && c.fiber < |made|
    modifies th, th.fibers
    ensures th.Valid() && th.fibers == old(th.fibers)
    ensures Shows(th.fibers, th.history, made, p.Step(c).0) && answer == p.Step(c).1
  {
    hide Where, Resumer, ChainEnd, Legal, Shows;
    PlaceShown(th.fibers, th.history, made, p, c.fiber);
    var f := made[c.fiber];
    var o;
    ghost var op;
    if c.DoResume? {
      o := th.Resume(f, c.message);
      op := Resume;
    } else if c.DoTransfer? {
      o := th.Transfer(f, c.message);
      op := Transfer;
    } else {
      o := th.Raise(f, c.error);
      op := RaiseOp(p.At(c.fiber));
    }
    Attempted(th.fibers, old(th.history), made, p, o, op, c.fiber);
    answer := Did(o);
  }

  /** What p says of the fields of fiber f. */
  ghost predicate FieldsAre(made: seq<Fiber>, p: Plain, f: nat)
    requires f < |made| == |p.blocking|
    reads made[f]
  {
    var w, r, x := p.At(f), p.ResumedBy(f), made[f];
    && x.status == StatusAt(w) && x.blocking == p.blocking[f]
    && x.yielding == (w.Left? && w.op.Yield?)
    && (if w.Left? && w.op.Resume? then w.to < |made| && x.resuming == made[w.to] else x.resuming == null)
    && (match r case None => x.prev == null case Some(q) => q < |made| && x.prev == made[q])
  }

  lemma Fields(th: Thread, made: seq<Fiber>, p: Plain, f: nat)
    requires th.Valid() && Shows(th.fibers, th.history, made, p) && f < |made|
    ensures |made| == |p.blocking| && FieldsAre(made, p, f)
  {
    hide Where, Resumer, Legal;
    PlaceShown(th.fibers, th.history, made, p, f);
    RunningIsCurrent(th.history, th.Now(), made[f]);
    assert Matches(made[f], th.At(made[f]), th.ResumedBy(made[f]));
  }

  /** Whatever the fibers of a thread do, in whatever order: every call ends as the machine says, the thread goes
      through the same history, and every field of every fiber is what that history says. */
  method Run(script: seq<Command>) returns (th: Thread, made: seq<Fiber>, answers: seq<Answer>)
    ensures th.Valid() && answers == PlainRun(script, |script|).1
    ensures Shows(th.fibers, th.history, made, PlainRun(script, |script|).0)
    ensures var p := PlainRun(script, |script|).0;
            |made| == |p.blocking| && forall f: nat | f < |made| :: FieldsAre(made, p, f)
  {
    hide Shows, Plain.Step, FieldsAre;
    th := new Thread();
    made, answers := [th.root], [];
    Begun(th.root, PlainRun(script, 0).0);
    for i := 0 to |script|
      invariant th.Valid() && fresh(th) && fresh(th.fibers)
      invariant Shows(th.fibers, th.history, made, PlainRun(script, i).0) && answers == PlainRun(script, i).1
    {
      hide Where, Resumer, ChainEnd, Legal;
      var answer;
      made, answer := Step(th, made, script[i], PlainRun(script, i).0);
      answers := answers + [answer];
    }
    ghost var p := PlainRun(script, |script|).0;
    RunningShown(th.fibers, th.history, made, p);
    forall f: nat | f < |made| ensures FieldsAre(made, p, f) {
      Fields(th, made, p, f);
    }
  }

  lemma Begun(root: Fiber, p: Plain)
    requires p == Plain(History(0, []), [true]) && root.blocking
    ensures Shows({root}, History(root, []), [root], p)
  {
  }
}
