/** Histories of control passing between the fibers of one thread.

    An event is one switch: the fiber that gave control away, the way it did so, and the fiber that got it.
    What a fiber is doing at some time, and who has to get control back from it, are read off the events
    alone; `Legal` lists what may happen next.  The rules for mixing the two styles of control passing
    (cont.c, the documentation of Fiber#transfer) are then theorems about every legal history.
 */
module FiberHistory {
  import opened Wrappers

  datatype Op = Resume | Yield | Transfer | Terminate

  datatype Event<F> = Event(actor: F, op: Op, next: F)

  /** The root fiber has control at first. */
  datatype History<F> = History(root: F, events: seq<Event<F>>)

  /** Where a fiber is: not started, in control, or out of control since event number at. */
  datatype Place<F> = Fresh | Running | Left(op: Op, to: F, at: nat)

  ghost function Current<F>(h: History<F>, n: nat): F
    requires n <= |h.events|
  {
    if n == 0 then h.root else h.events[n - 1].next
  }

  /** Where f is after the first n events. */
  ghost function Where<F>(h: History<F>, n: nat, f: F): Place<F>
    requires n <= |h.events|
  {
    if n == 0 then
      if f == h.root then Running else Fresh
    else
      var e := h.events[n - 1];
      if e.next == f then Running
      else if e.actor == f then Left(e.op, e.next, n - 1)
      else Where(h, n - 1, f)
  }

  /** Who resumed g and has not got control back from it. */
  ghost function Resumer<F>(h: History<F>, n: nat, g: F): Option<F>
    requires n <= |h.events|
  {
    if n == 0 then None
    else
      var e := h.events[n - 1];
      if e.op.Resume? && e.next == g then Some(e.actor)
      else if (e.op.Yield? || e.op.Terminate?) && e.actor == g then None
      else Resumer(h, n - 1, g)
  }

  ghost predicate LeftBy<F>(h: History<F>, n: nat, f: F, op: Op)
    requires n <= |h.events|
  {
    var w := Where(h, n, f);
    w.Left? && w.op == op
  }

  /** The last of the fibers that, starting from f, have resumed one another. */
  ghost function ChainEnd<F>(h: History<F>, n: nat, f: F, since: nat): F
    requires n <= |h.events|
    decreases n - since
  {
    var w := Where(h, n, f);
    if w.Left? && w.op.Resume? && since <= w.at < n then ChainEnd(h, n, w.to, w.at + 1) else f
  }

  /** May e happen after the first n events? */
  ghost predicate Allowed<F>(h: History<F>, n: nat, e: Event<F>)
    requires n <= |h.events|
  {
    && e.actor == Current(h, n)
    && e.next != e.actor
    && match e.op {
         case Resume => Resumer(h, n, e.next) == None && (Where(h, n, e.next).Fresh? || LeftBy(h, n, e.next, Yield))
         case Yield => Resumer(h, n, e.actor) == Some(e.next)
         case Transfer => Where(h, n, e.next).Fresh? || LeftBy(h, n, e.next, Transfer)
         case Terminate =>
           && e.actor != h.root
           && match Resumer(h, n, e.actor) {
                case Some(p) => e.next == p
                case None => e.next == ChainEnd(h, n, h.root, 0)
              }
       }
  }

  ghost predicate LegalEvent<F>(h: History<F>, n: nat)
    requires n < |h.events|
  {
    Allowed(h, n, h.events[n])
  }

  ghost predicate Legal<F>(h: History<F>)
  {
    forall n | 0 <= n < |h.events| :: LegalEvent(h, n)
  }

  lemma {:induction false} RunningIsCurrent<F>(h: History<F>, n: nat, f: F)
    requires Legal(h) && n <= |h.events|
    ensures Where(h, n, f) == Running <==> f == Current(h, n)
  {
    if n > 0 {
      RunningIsCurrent(h, n - 1, f);
      assert LegalEvent(h, n - 1);
    }
  }

  /** What the links between f and g satisfy at time n. */
  ghost predicate Linked<F>(h: History<F>, n: nat, f: F, g: F)
    requires n <= |h.events|
  {
    var w, v := Where(h, n, f), Where(h, n, g);
    && (Resumer(h, n, g) == Some(f) <==> (w.Left? && w.op.Resume? && w.to == g))
    && (Resumer(h, n, g) == Some(f) ==> !v.Fresh?)
    && (Resumer(h, n, g) == Some(f) && v.Left? ==> w.at < v.at && !v.op.Yield? && !v.op.Terminate?)
    && (w.Left? ==> w.at < n)
  }

  /** Resuming and being resumed are inverse, and links are made in the order in which they are followed. */
  lemma {:induction false} LinksInverse<F>(h: History<F>, n: nat, f: F, g: F)
    requires Legal(h) && n <= |h.events|
    ensures Linked(h, n, f, g)
    decreases n, 0
  {
    if n > 0 {
      LinksInverse(h, n - 1, f, g);
      LinkStep(h, n - 1, f, g);
    }
  }

  lemma {:induction false} LinkStep<F>(h: History<F>, n: nat, f: F, g: F)
    requires Legal(h) && n < |h.events| && Linked(h, n, f, g)
    ensures Linked(h, n + 1, f, g)
    decreases n, 3
  {
    hide ChainEnd;
    assert LegalEvent(h, n);
    var e := h.events[n];
    RunningIsCurrent(h, n, e.actor);
    RunningIsCurrent(h, n, g);
    RunningIsCurrent(h, n, f);
    if (e.op.Yield? || e.op.Terminate?) && Resumer(h, n, e.actor) == Some(e.next) {
      LinksInverse(h, n, e.next, e.actor);
      LinksInverse(h, n, f, e.actor);
    } else if e.op.Terminate? {
      ChainEndIdle(h, n, e.actor);
      LinksInverse(h, n, f, e.actor);
    } else if e.op.Resume? {
      LinksInverse(h, n, f, e.next);
    }
  }

  /** The search for a fiber that can go on after actor has ended: it follows resuming fibers from the root
      and stops at a fiber that is neither dead, nor unstarted, nor waiting for a resume, nor resuming. */
  lemma ChainEndIdle<F>(h: History<F>, n: nat, actor: F)
    requires Legal(h) && n <= |h.events| && actor == Current(h, n) && actor != h.root && Resumer(h, n, actor) == None
    ensures LeftBy(h, n, ChainEnd(h, n, h.root, 0), Transfer)
    decreases n, 2
  {
    RootPlace(h, n);
    ChainEndFrom(h, n, h.root, 0, actor);
  }

  lemma {:induction false} ChainEndFrom<F>(h: History<F>, n: nat, f: F, since: nat, actor: F)
    requires Legal(h) && n <= |h.events| && actor == Current(h, n) && actor != f && Resumer(h, n, actor) == None
    requires var w := Where(h, n, f); w.Left? && !w.op.Yield? && !w.op.Terminate? && since <= w.at
    ensures LeftBy(h, n, ChainEnd(h, n, f, since), Transfer)
    decreases n, 1, n - since
  {
    var w := Where(h, n, f);
    PlaceTime(h, n, f);
    if w.op.Resume? {
      assert Linked(h, n, f, w.to) by { LinksInverse(h, n, f, w.to); }
      RunningIsCurrent(h, n, w.to);
      ChainEndFrom(h, n, w.to, w.at + 1, actor);
    }
  }

  lemma {:induction false} PlaceTime<F>(h: History<F>, n: nat, f: F)
    requires n <= |h.events|
    ensures var w := Where(h, n, f); w.Left? ==> w.at < n
  {
    if n > 0 { PlaceTime(h, n - 1, f); }
  }

  /** The root fiber is never resumed, so it never yields, and it does not end. */
  lemma {:induction false} RootPlace<F>(h: History<F>, n: nat)
    requires Legal(h) && n <= |h.events|
    ensures Resumer(h, n, h.root) == None
    ensures var w := Where(h, n, h.root); w.Running? || (w.Left? && !w.op.Yield? && !w.op.Terminate?)
    ensures Where(h, n, h.root).Running? <==> Current(h, n) == h.root
  {
    RunningIsCurrent(h, n, h.root);
    if n > 0 {
      RootPlace(h, n - 1);
      assert LegalEvent(h, n - 1);
    }
  }

  /** The fiber that left at event i gets control back at event j. */
  ghost predicate Returns<F>(h: History<F>, i: nat, j: nat)
  {
    && i < j < |h.events|
    && h.events[j].next == h.events[i].actor
    && forall k | i < k < j :: h.events[k].next != h.events[i].actor
  }

  /** As long as no event gives it control, a fiber stays where it went. */
  lemma {:induction false} StaysAway<F>(h: History<F>, i: nat, n: nat)
    requires Legal(h) && i < n <= |h.events| && forall k | i < k < n :: h.events[k].next != h.events[i].actor
    ensures Where(h, n, h.events[i].actor) == Left(h.events[i].op, h.events[i].next, i)
  {
    assert LegalEvent(h, i);
    if i + 1 < n {
      StaysAway(h, i, n - 1);
      assert LegalEvent(h, n - 1);
    }
  }

  /** Control comes back at event j in the way that fits how it was given away at event i: after a resume, when
      the resumed fiber itself yields or ends; after a yield, by a resume; after a transfer, by a transfer, or
      because a fiber that nobody resumed has ended; after the end, never. */
  ghost predicate Fitting<F>(h: History<F>, i: nat, j: nat)
    requires i < j < |h.events|
  {
    match h.events[i].op
    case Resume => (h.events[j].op.Yield? || h.events[j].op.Terminate?) && h.events[j].actor == h.events[i].next
    case Yield => h.events[j].op.Resume?
    case Transfer => h.events[j].op.Transfer?
                     || (h.events[j].op.Terminate? && Resumer(h, j, h.events[j].actor) == None)
    case Terminate => false
  }

  lemma ReturnMatches<F>(h: History<F>, i: nat, j: nat)
    requires Legal(h) && Returns(h, i, j)
    ensures Fitting(h, i, j)
  {
    hide Resumer, ChainEnd;
    var e := h.events[j];
    StaysAway(h, i, j);
    assert LegalEvent(h, j);
    if e.op.Terminate? && Resumer(h, j, e.actor) == None {
      ChainEndIdle(h, j, e.actor);
    } else {
      LinksInverse(h, j, e.next, e.actor);
    }
  }

  /** The documentation says that a fiber that has transferred can only be transferred back to.  Exactly the end
      of a fiber that nobody resumed breaks that rule: return_fiber then searches from the root. */
  lemma TransferReturn<F>(h: History<F>, j: nat)
    requires Legal(h) && j < |h.events|
    ensures LeftBy(h, j, h.events[j].next, Transfer) && !h.events[j].op.Transfer?
       <==> h.events[j].op.Terminate? && Resumer(h, j, h.events[j].actor) == None
  {
    hide Where, Resumer, ChainEnd;
    var e := h.events[j];
    assert LegalEvent(h, j);
    if e.op.Terminate? && Resumer(h, j, e.actor) == None {
      ChainEndIdle(h, j, e.actor);
    } else {
      LinksInverse(h, j, e.next, e.actor);
    }
  }

  /** A resumes B, B transfers to C, and C ends: B has control again, and nobody has transferred back to it. */
  lemma TransferredNotBack<F>(a: F, b: F, c: F)
    requires a != b && b != c && a != c
    ensures var h := History(a, [Event(a, Resume, b), Event(b, Transfer, c), Event(c, Terminate, b)]);
            Legal(h) && Returns(h, 1, 2) && h.events[1].op.Transfer? && !h.events[2].op.Transfer?
  {
    var h := History(a, [Event(a, Resume, b), Event(b, Transfer, c), Event(c, Terminate, b)]);
    assert Where(h, 0, b) == Fresh && Resumer(h, 0, b) == None;
    assert LegalEvent(h, 0);
    assert Where(h, 0, c) == Where(h, 1, c) == Fresh;
    assert LegalEvent(h, 1);
    assert Where(h, 1, a) == Where(h, 2, a) == Left(Resume, b, 0);
    assert Where(h, 2, b) == Left(Transfer, c, 1);
    assert Resumer(h, 0, c) == Resumer(h, 1, c) == Resumer(h, 2, c) == None;
    assert ChainEnd(h, 2, b, 1) == b;
    assert ChainEnd(h, 2, a, 0) == b;
    assert LegalEvent(h, 2);
  }

  /** A fiber that has ended neither gets control again nor gives it away again. */
  lemma DeadStaysDead<F>(h: History<F>, i: nat, j: nat)
    requires Legal(h) && i < j < |h.events| && h.events[i].op.Terminate?
    ensures h.events[j].actor != h.events[i].actor && h.events[j].next != h.events[i].actor
    decreases j
  {
    forall k | i < k < j ensures h.events[k].next != h.events[i].actor { DeadStaysDead(h, i, k); }
    StaysAway(h, i, j);
    RunningIsCurrent(h, j, h.events[i].actor);
    assert LegalEvent(h, j);
    if h.events[j].next == h.events[i].actor { ReturnMatches(h, i, j); }
  }

  /** Event i is the first to give f control, and it is a transfer. */
  ghost predicate StartedByTransfer<F>(h: History<F>, i: nat, f: F)
  {
    && i < |h.events| && f != h.root
    && h.events[i].op.Transfer? && h.events[i].next == f
    && forall k | 0 <= k < i :: h.events[k].next != f
  }

  /** Before it first gets control, a fiber other than the root is unstarted and nobody waits for it. */
  lemma {:induction false} NotStarted<F>(h: History<F>, n: nat, f: F)
    requires Legal(h) && n <= |h.events| && f != h.root && forall k | 0 <= k < n :: h.events[k].next != f
    ensures Where(h, n, f) == Fresh && Resumer(h, n, f) == None
  {
    if n > 0 {
      NotStarted(h, n - 1, f);
      assert LegalEvent(h, n - 1);
      RunningIsCurrent(h, n - 1, f);
    }
  }

  lemma {:induction false} TransferStartedPlace<F>(h: History<F>, i: nat, n: nat, f: F)
    requires Legal(h) && StartedByTransfer(h, i, f) && i < n <= |h.events|
    ensures Resumer(h, n, f) == None && !Where(h, n, f).Fresh? && !LeftBy(h, n, f, Yield)
  {
    assert LegalEvent(h, n - 1);
    if n == i + 1 {
      NotStarted(h, i, f);
    } else {
      TransferStartedPlace(h, i, n - 1, f);
    }
  }

  /** A fiber whose life began with a transfer never yields and is never resumed. */
  lemma TransferStartedNeverYields<F>(h: History<F>, i: nat, j: nat, f: F)
    requires Legal(h) && StartedByTransfer(h, i, f) && i < j < |h.events|
    ensures h.events[j].op.Yield? ==> h.events[j].actor != f
    ensures h.events[j].op.Resume? ==> h.events[j].next != f
  {
    TransferStartedPlace(h, i, j, f);
    assert LegalEvent(h, j);
  }

  /** Event i is the resume of g by f, and g has neither yielded, nor ended, nor been resumed since. */
  ghost predicate LastResume<F>(h: History<F>, i: nat, n: nat, f: F, g: F)
  {
    && i < n <= |h.events|
    && h.events[i] == Event(f, Resume, g)
    && (forall k | i < k < n :: h.events[k].next != f)
    && (forall k | i < k < n && h.events[k].actor == g :: h.events[k].op.Resume? || h.events[k].op.Transfer?)
    && (forall k | i < k < n && h.events[k].next == g :: !h.events[k].op.Resume?)
  }

  lemma {:induction false} ResumerResumed<F>(h: History<F>, n: nat, f: F, g: F) returns (i: nat)
    requires Legal(h) && n <= |h.events| && Resumer(h, n, g) == Some(f)
    ensures LastResume(h, i, n, f, g)
  {
    var e := h.events[n - 1];
    assert LegalEvent(h, n - 1);
    if e.op.Resume? && e.next == g {
      i := n - 1;
    } else {
      i := ResumerResumed(h, n - 1, f, g);
      if e.next == f {
        ReturnMatches(h, i, n - 1);
      }
    }
  }

  /** A yield gives control to the fiber that made the last resume of the yielding fiber, and so does the end
      of a fiber that was resumed and has not yielded since. */
  lemma YieldToResumer<F>(h: History<F>, j: nat) returns (i: nat)
    requires Legal(h) && j < |h.events|
    requires h.events[j].op.Yield? || (h.events[j].op.Terminate? && Resumer(h, j, h.events[j].actor) != None)
    ensures LastResume(h, i, j, h.events[j].next, h.events[j].actor)
  {
    assert LegalEvent(h, j);
    i := ResumerResumed(h, j, h.events[j].next, h.events[j].actor);
  }

  /** k steps along the resuming links. */
  ghost function Follow<F>(h: History<F>, n: nat, f: F, k: nat): Option<F>
    requires n <= |h.events|
    decreases k
  {
    if k == 0 then Some(f)
    else
      var w := Where(h, n, f);
      if w.Left? && w.op.Resume? then Follow(h, n, w.to, k - 1) else None
  }

  /** Following the links leads only to fibers that were left later, or not left at all. */
  lemma {:induction false} FollowLater<F>(h: History<F>, n: nat, f: F, k: nat)
    requires Legal(h) && n <= |h.events| && 0 < k
    ensures match Follow(h, n, f, k)
            case None => true
            case Some(g) => Where(h, n, f).Left? && (Where(h, n, g).Left? ==> Where(h, n, f).at < Where(h, n, g).at)
    decreases k
  {
    var w := Where(h, n, f);
    if w.Left? && w.op.Resume? {
      LinksInverse(h, n, f, w.to);
      if k > 1 { FollowLater(h, n, w.to, k - 1); }
    }
  }

  /** No fiber is reached from itself: the links form paths, not cycles. */
  lemma Acyclic<F>(h: History<F>, n: nat, f: F, k: nat)
    requires Legal(h) && n <= |h.events| && 0 < k
    ensures Follow(h, n, f, k) != Some(f)
  {
    FollowLater(h, n, f, k);
  }

  /** Paths do not meet: at most one fiber waits for another. */
  lemma PathsDisjoint<F>(h: History<F>, n: nat, e: F, f: F)
    requires Legal(h) && n <= |h.events|
    requires Follow(h, n, e, 1) == Follow(h, n, f, 1) != None
    ensures e == f
  {
    var w := Where(h, n, f);
    assert Follow(h, n, w.to, 0) == Some(w.to);
    LinksInverse(h, n, e, w.to);
    LinksInverse(h, n, f, w.to);
  }

  ghost function Extended<F>(h: History<F>, e: Event<F>): History<F>
  {
    History(h.root, h.events + [e])
  }

  /** Events to come do not change what has been. */
  lemma {:induction false} PastKept<F>(h: History<F>, e: Event<F>, n: nat, f: F)
    requires n <= |h.events|
    ensures Where(Extended(h, e), n, f) == Where(h, n, f)
    ensures Resumer(Extended(h, e), n, f) == Resumer(h, n, f)
    ensures Current(Extended(h, e), n) == Current(h, n)
  {
    if n > 0 { PastKept(h, e, n - 1, f); }
  }

  lemma {:induction false} ChainKept<F>(h: History<F>, e: Event<F>, n: nat, f: F, since: nat)
    requires n <= |h.events|
    ensures ChainEnd(Extended(h, e), n, f, since) == ChainEnd(h, n, f, since)
    decreases n - since
  {
    PastKept(h, e, n, f);
    var w := Where(h, n, f);
    if w.Left? && w.op.Resume? && since <= w.at < n { ChainKept(h, e, n, w.to, w.at + 1); }
  }

  /** What one more event changes. */
  lemma WhereNext<F>(h: History<F>, e: Event<F>, f: F)
    ensures Where(Extended(h, e), |h.events| + 1, f)
         == (if e.next == f then Running
             else if e.actor == f then Left(e.op, e.next, |h.events|)
             else Where(h, |h.events|, f))
    ensures Resumer(Extended(h, e), |h.events| + 1, f)
         == (if e.op.Resume? && e.next == f then Some(e.actor)
             else if (e.op.Yield? || e.op.Terminate?) && e.actor == f then None
             else Resumer(h, |h.events|, f))
  {
    PastKept(h, e, |h.events|, f);
  }

  /** An event that may happen makes a legal history longer. */
  lemma LegalNext<F>(h: History<F>, e: Event<F>)
    requires Legal(h) && Allowed(h, |h.events|, e)
    ensures Legal(Extended(h, e))
  {
    hide Where, Resumer, ChainEnd;
    var x := Extended(h, e);
    forall n | 0 <= n < |x.events| ensures LegalEvent(x, n) {
      var d := x.events[n];
      if n < |h.events| { assert LegalEvent(h, n); }
      assert Allowed(h, n, d);
      PastKept(h, e, n, d.next);
      PastKept(h, e, n, d.actor);
      ChainKept(h, e, n, h.root, 0);
    }
  }

  /** n rounds in which a resumes b and b yields. */
  ghost function Generator<F>(a: F, b: F, n: nat): History<F>
  {
    if n == 0 then History(a, [])
    else Extended(Extended(Generator(a, b, n - 1), Event(a, Resume, b)), Event(b, Yield, a))
  }

  /** A generator may be resumed as often as one likes. */
  lemma {:induction false} GeneratorRuns<F>(a: F, b: F, n: nat)
    requires a != b
    ensures var h := Generator(a, b, n); var m := |h.events|;
            Legal(h) && m == 2 * n && h.root == Current(h, m) == a && Resumer(h, m, b) == None
            && (if n == 0 then Where(h, m, b) == Fresh else LeftBy(h, m, b, Yield))
  {
    hide Where, Resumer, ChainEnd, Legal;
    if n == 0 {
      NoEvents(Generator(a, b, n), b);
    } else {
      GeneratorRuns(a, b, n - 1);
      var h := Generator(a, b, n - 1);
      var e := Event(a, Resume, b);
      LegalNext(h, e);
      WhereNext(h, e, b);
      var d := Event(b, Yield, a);
      LegalNext(Extended(h, e), d);
      WhereNext(Extended(h, e), d, b);
    }
  }

  lemma NoEvents<F>(h: History<F>, f: F)
    requires h.events == []
    ensures Legal(h) && Resumer(h, 0, f) == None && (f != h.root ==> Where(h, 0, f) == Fresh)
  {
  }

  /** n rounds in which a and b transfer to one another. */
  ghost function Coroutines<F>(a: F, b: F, n: nat): History<F>
  {
    if n == 0 then History(a, [])
    else Extended(Extended(Coroutines(a, b, n - 1), Event(a, Transfer, b)), Event(b, Transfer, a))
  }

  /** Two fibers may transfer to one another as often as they like. */
  lemma {:induction false} CoroutinesRun<F>(a: F, b: F, n: nat)
    requires a != b
    ensures var h := Coroutines(a, b, n); var m := |h.events|;
            Legal(h) && m == 2 * n && h.root == Current(h, m) == a
            && (if n == 0 then Where(h, m, b) == Fresh else LeftBy(h, m, b, Transfer))
  {
    hide Where, Resumer, ChainEnd, Legal;
    if n == 0 {
      NoEvents(Coroutines(a, b, n), b);
    } else {
      CoroutinesRun(a, b, n - 1);
      var h := Coroutines(a, b, n - 1);
      var e := Event(a, Transfer, b);
      LegalNext(h, e);
      WhereNext(h, e, a);
      var d := Event(b, Transfer, a);
      LegalNext(Extended(h, e), d);
      WhereNext(Extended(h, e), d, b);
    }
  }
}
