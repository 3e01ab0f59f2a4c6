/** What holds of all arrays together, so that the sharing of their buffers goes unnoticed (array.c).

    The object space is a map from object addresses to array headers and a map from addresses to the buffers
    allocated there.  The lemmas are the ways in which arrays come to share a buffer and stop doing so.
 */
module SharingInvariant {
  import opened Wrappers

  type Id = int
  type Ptr = int

  datatype Value = Nil | Ref(id: Id)

  const RARRAY_EMBED_LEN_MAX: nat := 3

  /** Elements inside the object; in a heap buffer of its own; or in the buffer of a shared root. */
  datatype Mode = Embed | Heap | Shared(root: Id)

  /** struct RArray */
  datatype RArray = RArray(
    mode: Mode,
    rootFlag: bool,     // RARRAY_SHARED_ROOT_FLAG
    frozen: bool,
    visible: bool,      // false for a root that ary_make_shared has allocated
    len: nat,
    slots: seq<Value>,  // as.ary
    buf: Ptr,           // as.heap.ptr is buf + off
    off: nat,
    capa: nat)          // as.heap.aux.capa: the capacity, or the reference count of a root

  type Objects = map<Id, RArray>
  type Memory = map<Ptr, seq<Value>>

  function Sharers(h: Objects, r: Id): set<Id>
  {
    set a | a in h && h[a].mode == Shared(r)
  }

  /** The reference count of a root is at least the number of arrays that point to it, and one more if the
      root is itself an array of the program. */
  ghost predicate RootOk(h: Objects, mem: Memory, a: Id)
    requires a in h && h[a].buf in mem
  {
    && h[a].frozen && h[a].len == |mem[h[a].buf]|
    && 1 <= h[a].capa && |Sharers(h, a)| + Bit(h[a].visible) <= h[a].capa
  }

  /** The window of a sharer lies inside its root. */
  ghost predicate WindowOk(h: Objects, a: Id, r: Id)
    requires a in h
  {
    && h[a].visible && !h[a].rootFlag
    && r in h && h[r].mode == Heap && h[r].rootFlag
    && h[a].buf == h[r].buf && h[a].off + h[a].len <= h[r].len
  }

  ghost predicate ArrayOk(h: Objects, mem: Memory, a: Id)
    requires a in h
  {
    && |h[a].slots| == RARRAY_EMBED_LEN_MAX
    && match h[a].mode {
         case Embed => h[a].len <= RARRAY_EMBED_LEN_MAX && (h[a].visible ==> !h[a].rootFlag)
         case Heap =>
           && h[a].buf in mem && h[a].off == 0 && h[a].len <= |mem[h[a].buf]|
           && if h[a].rootFlag then RootOk(h, mem, a) else h[a].visible && h[a].capa == |mem[h[a].buf]|
         case Shared(r) => WindowOk(h, a, r)
       }
  }

  /** No two arrays own the same buffer. */
  ghost predicate Apart(h: Objects, a: Id, b: Id)
    requires a in h && b in h
  {
    a != b && h[a].mode == Heap && h[b].mode == Heap ==> h[a].buf != h[b].buf
  }

  ghost predicate Inv(h: Objects, mem: Memory)
  {
    && (forall a | a in h :: ArrayOk(h, mem, a))
    && (forall a, b | a in h && b in h :: Apart(h, a, b))
  }

  /** The elements of an array. */
  function Items(h: Objects, mem: Memory, a: Id): seq<Value>
    requires a in h
  {
    var c := h[a];
    if c.mode == Embed then
      if c.len <= |c.slots| then c.slots[..c.len] else []
    else
      if c.buf in mem && c.off + c.len <= |mem[c.buf]| then mem[c.buf][c.off..c.off + c.len] else []
  }

  /** b is an array of the program before and after, with the same elements. */
  ghost predicate SameView(h: Objects, mem: Memory, h': Objects, mem': Memory, b: Id)
    requires b in h
  {
    && b in h' && h'[b].visible == h[b].visible && h'[b].frozen == h[b].frozen
    && Items(h', mem', b) == Items(h, mem, b)
  }

  /** Nothing that the program sees has changed, but for one array. */
  ghost predicate Kept(h: Objects, mem: Memory, h': Objects, mem': Memory, except: Id)
  {
    forall b | b in h && h[b].visible && b != except :: SameView(h, mem, h', mem', b)
  }

  /** May a write to its elements without copying them first? */
  ghost predicate Writable(h: Objects, a: Id)
  {
    && a in h && !h[a].frozen && h[a].visible
    && match h[a].mode {
         case Embed => true
         case Heap => true
         case Shared(r) => r in h && h[r].capa == 1
       }
  }

  /** How many elements there is room for from the pointer on. */
  ghost function Room(h: Objects, a: Id): int
    requires a in h
  {
    match h[a].mode
    case Embed => RARRAY_EMBED_LEN_MAX
    case Heap => h[a].capa
    case Shared(r) => if r in h then h[r].len - h[a].off else 0
  }

  lemma PairCount(s: set<Id>, a: Id, b: Id)
    requires a in s && b in s && a != b
    ensures |s| >= 2
  {
    assert |s - {a} - {b}| + 2 == |s|;
  }

  lemma OneCount(s: set<Id>, a: Id)
    requires a in s
    ensures |s| >= 1 && |s - {a}| + 1 == |s|
  {
  }

  /** A reference count of one means that the root is hidden and has a single sharer: what is writable, no
      other array of the program sees. */
  lemma SoleUser(h: Objects, mem: Memory, a: Id, b: Id)
    requires Inv(h, mem) && Writable(h, a) && h[a].mode != Embed
    requires b in h && b != a && h[b].visible && h[b].mode != Embed
    ensures h[b].buf != h[a].buf
  {
    assert ArrayOk(h, mem, a) && ArrayOk(h, mem, b);
    var o := if h[a].mode.Shared? then h[a].mode.root else a;
    var p := if h[b].mode.Shared? then h[b].mode.root else b;
    assert ArrayOk(h, mem, o) && Apart(h, o, p);
    if o == p && a != o {
      OneCount(Sharers(h, o), a);
      if b != o { PairCount(Sharers(h, o), a, b); }
    }
  }

  /** The elements of an array, and its room, lie in its buffer. */
  lemma RoomFits(h: Objects, mem: Memory, a: Id)
    requires Inv(h, mem) && a in h
    ensures |h[a].slots| == RARRAY_EMBED_LEN_MAX
    ensures if h[a].mode == Embed then h[a].len <= RARRAY_EMBED_LEN_MAX
            else h[a].buf in mem && h[a].off + h[a].len <= |mem[h[a].buf]|
    ensures Writable(h, a) ==> h[a].len <= Room(h, a)
    ensures Writable(h, a) && h[a].mode != Embed ==> h[a].off + Room(h, a) <= |mem[h[a].buf]|
  {
    assert ArrayOk(h, mem, a);
    if h[a].mode.Shared? { assert ArrayOk(h, mem, h[a].mode.root); }
  }

  /** c is the header of an array a of the program that shares nothing. */
  ghost predicate Alone(h: Objects, mem: Memory, a: Id, c: RArray)
  {
    && c.visible && !c.rootFlag && |c.slots| == RARRAY_EMBED_LEN_MAX
    && match c.mode {
         case Embed => c.len <= RARRAY_EMBED_LEN_MAX
         case Heap => c.off == 0 && c.buf in mem && c.len <= |mem[c.buf]| == c.capa && Unused(h, a, c.buf)
         case Shared(_) => false
       }
  }

  /** No array but a uses this buffer. */
  ghost predicate Unused(h: Objects, a: Id, p: Ptr)
  {
    forall b | b in h && b != a :: h[b].mode == Embed || h[b].buf != p
  }

  /** Memory in use by others than a has not been touched. */
  ghost predicate Untouched(h: Objects, mem: Memory, mem': Memory, a: Id)
  {
    forall b | b in h && b != a && h[b].mode != Embed && h[b].buf in mem ::
      h[b].buf in mem' && mem'[h[b].buf] == mem[h[b].buf]
  }

  /** Only a changes but for reference counts: buffers stay apart and nothing else is seen to change. */
  lemma OnlyOneChanges(h: Objects, mem: Memory, n: Objects, mem': Memory, a: Id)
    requires Inv(h, mem) && Untouched(h, mem, mem', a)
    requires forall b | b in n && b != a :: b in h
    requires forall b | b in h && b != a :: b in n && n[b] == h[b].(capa := n[b].capa)
    requires a in n && n[a].mode == Heap ==> Unused(h, a, n[a].buf)
    ensures forall b, d | b in n && d in n :: Apart(n, b, d)
    ensures Kept(h, mem, n, mem', a)
  {
    forall b, d | b in n && d in n ensures Apart(n, b, d) {
      if b != a && d != a { assert Apart(h, b, d); }
    }
    forall b | b in h && h[b].visible && b != a ensures SameView(h, mem, n, mem', b) {
      assert ArrayOk(h, mem, b);
      if h[b].mode.Shared? { assert ArrayOk(h, mem, h[b].mode.root); }
    }
  }

  /** An array that shares nothing changes, or appears: it ends up embedded or with a buffer of its own. */
  lemma SetAlone(h: Objects, mem: Memory, a: Id, c: RArray, mem': Memory)
    requires Inv(h, mem) && Alone(h, mem', a, c) && Untouched(h, mem, mem', a)
    requires a in h ==> !h[a].mode.Shared? && !h[a].rootFlag
    ensures Inv(h[a := c], mem') && Kept(h, mem, h[a := c], mem', a)
  {
    var n := h[a := c];
    forall b | b in n ensures ArrayOk(n, mem', b) {
      if b != a {
        assert ArrayOk(h, mem, b);
        assert Sharers(n, b) <= Sharers(h, b);
        SubsetCount(Sharers(n, b), Sharers(h, b));
      }
    }
    OnlyOneChanges(h, mem, n, mem', a);
  }

  lemma {:induction false} SubsetCount(s: set<Id>, t: set<Id>)
    requires s <= t
    ensures |s| <= |t|
  {
    assert |t - s| + |s| == |t|;
  }

  /** rb_ary_decrement_share; the count never falls below one. */
  function Decremented(c: RArray): RArray
  {
    if c.capa > 1 then c.(capa := c.capa - 1) else c
  }

  /** A sharer stops sharing. */
  lemma Leave(h: Objects, mem: Memory, a: Id, r: Id, c: RArray, mem': Memory)
    requires Inv(h, mem) && a in h && h[a].mode == Shared(r)
    requires Alone(h, mem', a, c) && Untouched(h, mem, mem', a)
    ensures r in h && a != r
    ensures Inv(h[r := Decremented(h[r])][a := c], mem') && Kept(h, mem, h[r := Decremented(h[r])][a := c], mem', a)
  {
    hide ArrayOk, Alone, Kept, Apart, Untouched;
    WindowFacts(h, mem, a);
    var n := h[r := Decremented(h[r])][a := c];
    forall b | b in n ensures ArrayOk(n, mem', b) { LeaveOk(h, mem, a, r, c, mem', b); }
    AloneUnused(h, mem', a, c);
    OnlyOneChanges(h, mem, n, mem', a);
  }

  lemma WindowFacts(h: Objects, mem: Memory, a: Id)
    requires Inv(h, mem) && a in h && h[a].mode.Shared?
    ensures WindowOk(h, a, h[a].mode.root) && RoomFitsRoot(h, mem, h[a].mode.root) && a != h[a].mode.root
  {
    assert ArrayOk(h, mem, a) && ArrayOk(h, mem, h[a].mode.root);
  }

  ghost predicate RoomFitsRoot(h: Objects, mem: Memory, r: Id)
    requires r in h
  {
    h[r].off == 0 && h[r].frozen && h[r].buf in mem && h[r].len == |mem[h[r].buf]| && 1 <= h[r].capa
  }

  lemma AloneUnused(h: Objects, mem: Memory, a: Id, c: RArray)
    requires Alone(h, mem, a, c)
    ensures c.mode == Heap ==> Unused(h, a, c.buf)
  {
  }

  lemma LeaveOk(h: Objects, mem: Memory, a: Id, r: Id, c: RArray, mem': Memory, b: Id)
    requires Inv(h, mem) && a in h && h[a].mode == Shared(r) && r in h && a != r && b in h
    requires Alone(h, mem', a, c) && Untouched(h, mem, mem', a)
    ensures ArrayOk(h[r := Decremented(h[r])][a := c], mem', b)
  {
    hide Apart;
    var n := h[r := Decremented(h[r])][a := c];
    if b != a {
      assert ArrayOk(h, mem, b);
      assert Sharers(n, b) == Sharers(h, b) - {a};
      SubsetCount(Sharers(n, b), Sharers(h, b));
      if b == r { OneCount(Sharers(h, r), a); }
    }
  }

  /** An array that shared nothing, or a new one, becomes a window onto a root. */
  lemma Join(h: Objects, mem: Memory, a: Id, r: Id, c: RArray, mem': Memory)
    requires Inv(h, mem) && Untouched(h, mem, mem', a)
    requires r in h && a != r && h[r].mode == Heap && h[r].rootFlag
    requires a in h ==> !h[a].mode.Shared? && !h[a].rootFlag
    requires c.mode == Shared(r) && c.visible && !c.rootFlag && |c.slots| == RARRAY_EMBED_LEN_MAX
    requires c.buf == h[r].buf && c.off + c.len <= h[r].len
    ensures Inv(h[r := h[r].(capa := h[r].capa + 1)][a := c], mem')
    ensures Kept(h, mem, h[r := h[r].(capa := h[r].capa + 1)][a := c], mem', a)
  {
    hide ArrayOk, Kept, Apart, Untouched;
    var n := h[r := h[r].(capa := h[r].capa + 1)][a := c];
    forall b | b in n ensures ArrayOk(n, mem', b) { JoinOk(h, mem, a, r, c, mem', b); }
    OnlyOneChanges(h, mem, n, mem', a);
  }

  lemma JoinOk(h: Objects, mem: Memory, a: Id, r: Id, c: RArray, mem': Memory, b: Id)
    requires Inv(h, mem) && Untouched(h, mem, mem', a)
    requires r in h && a != r && h[r].mode == Heap && h[r].rootFlag
    requires a in h ==> !h[a].mode.Shared? && !h[a].rootFlag
    requires c.mode == Shared(r) && c.visible && !c.rootFlag && |c.slots| == RARRAY_EMBED_LEN_MAX
    requires c.buf == h[r].buf && c.off + c.len <= h[r].len && (b in h || b == a)
    ensures ArrayOk(h[r := h[r].(capa := h[r].capa + 1)][a := c], mem', b)
  {
    hide Apart;
    var n := h[r := h[r].(capa := h[r].capa + 1)][a := c];
    if b == a { return; }
    assert ArrayOk(h, mem, b);
    if b == r {
      assert Sharers(n, r) == Sharers(h, r) + {a};
    } else {
      assert Sharers(n, b) <= Sharers(h, b);
      SubsetCount(Sharers(n, b), Sharers(h, b));
    }
  }

  /** A sharer moves its window inside the root. */
  lemma MoveWindow(h: Objects, mem: Memory, a: Id, off: nat, len: nat)
    requires Inv(h, mem) && a in h && h[a].mode.Shared?
    requires h[a].mode.root in h && off + len <= h[h[a].mode.root].len
    ensures Inv(h[a := h[a].(off := off, len := len)], mem) && Kept(h, mem, h[a := h[a].(off := off, len := len)], mem, a)
  {
    assert ArrayOk(h, mem, a);
    var n := h[a := h[a].(off := off, len := len)];
    forall b | b in n ensures ArrayOk(n, mem, b) {
      assert ArrayOk(h, mem, b);
      assert Sharers(n, b) == Sharers(h, b);
    }
    forall b, d | b in n && d in n ensures Apart(n, b, d) {
      assert Apart(h, b, d);
    }
  }

  /** The root that ary_make_shared puts behind an array with this header, whose buffer has size elements. */
  function HiddenRoot(c: RArray, slots: seq<Value>, size: nat): RArray
  {
    RArray(Heap, true, true, false, size, slots, c.buf, 0, 1)
  }

  /** The buffer of an array moves to a new hidden root, of which the array becomes the only sharer. */
  lemma Hide(h: Objects, mem: Memory, a: Id, r: Id, slots: seq<Value>)
    requires Inv(h, mem) && a in h && r !in h && h[a].mode == Heap && !h[a].rootFlag && |slots| == RARRAY_EMBED_LEN_MAX
    ensures h[a].buf in mem
    ensures var n := h[r := HiddenRoot(h[a], slots, |mem[h[a].buf]|)][a := h[a].(mode := Shared(r))];
            Inv(n, mem) && Kept(h, mem, n, mem, r)
  {
    hide Kept, Apart;
    assert ArrayOk(h, mem, a);
    var n := h[r := HiddenRoot(h[a], slots, |mem[h[a].buf]|)][a := h[a].(mode := Shared(r))];
    forall b | b in n ensures ArrayOk(n, mem, b) { HideOk(h, mem, a, r, slots, b); }
    HideApart(h, mem, a, r, n);
  }

  lemma HideOk(h: Objects, mem: Memory, a: Id, r: Id, slots: seq<Value>, b: Id)
    requires Inv(h, mem) && a in h && r !in h && h[a].mode == Heap && !h[a].rootFlag && |slots| == RARRAY_EMBED_LEN_MAX
    requires h[a].buf in mem && (b in h || b == r)
    ensures ArrayOk(h[r := HiddenRoot(h[a], slots, |mem[h[a].buf]|)][a := h[a].(mode := Shared(r))], mem, b)
  {
    hide Apart;
    assert ArrayOk(h, mem, a);
    var n := h[r := HiddenRoot(h[a], slots, |mem[h[a].buf]|)][a := h[a].(mode := Shared(r))];
    if b == r {
      forall d | d in h ensures h[d].mode != Shared(r) { assert ArrayOk(h, mem, d); }
      assert Sharers(n, r) == {a};
    } else {
      assert ArrayOk(h, mem, b);
      assert Sharers(n, b) <= Sharers(h, b);
      SubsetCount(Sharers(n, b), Sharers(h, b));
    }
  }

  lemma HideApart(h: Objects, mem: Memory, a: Id, r: Id, n: Objects)
    requires Inv(h, mem) && a in h && r !in h && h[a].mode == Heap && h[a].off == 0
    requires n.Keys == h.Keys + {r} && n[r].mode == Heap && n[r].buf == h[a].buf && n[a] == h[a].(mode := Shared(r))
    requires forall b | b in h && b != a :: n[b] == h[b]
    ensures forall b, d | b in n && d in n :: Apart(n, b, d)
    ensures Kept(h, mem, n, mem, r)
  {
    forall b, d | b in n && d in n ensures Apart(n, b, d) {
      if b != r && d != r { assert Apart(h, b, d); }
      if b != r { assert Apart(h, a, b); }
      if d != r { assert Apart(h, a, d); }
    }
  }

  /** A frozen array becomes a root itself. */
  lemma BecomeRoot(h: Objects, mem: Memory, a: Id)
    requires Inv(h, mem) && a in h && h[a].mode == Heap && !h[a].rootFlag && h[a].frozen && h[a].len == h[a].capa
    ensures var n := h[a := h[a].(rootFlag := true, capa := 1)];
            Inv(n, mem) && (forall b | b in h :: SameView(h, mem, n, mem, b))
  {
    assert ArrayOk(h, mem, a);
    var n := h[a := h[a].(rootFlag := true, capa := 1)];
    forall b | b in n ensures ArrayOk(n, mem, b) {
      assert ArrayOk(h, mem, b);
      assert Sharers(n, b) == Sharers(h, b);
      if b == a {
        forall d | d in h ensures h[d].mode != Shared(a) { assert ArrayOk(h, mem, d); }
        assert Sharers(n, a) == {};
      }
    }
    forall b, d | b in n && d in n ensures Apart(n, b, d) {
      assert Apart(h, b, d);
    }
  }

  /** The only sharer takes the buffer over from its root. */
  lemma Steal(h: Objects, mem: Memory, a: Id, r: Id)
    requires Inv(h, mem) && Writable(h, a) && h[a].mode == Shared(r)
    ensures r in h && a != r && !h[r].visible
    ensures var n := h[r := h[r].(mode := Embed, len := 0)][a := h[a].(mode := Heap, off := 0, capa := h[r].len)];
            Inv(n, mem) && Kept(h, mem, n, mem, a)
  {
    assert ArrayOk(h, mem, a) && ArrayOk(h, mem, r);
    OneCount(Sharers(h, r), a);
    var n := h[r := h[r].(mode := Embed, len := 0)][a := h[a].(mode := Heap, off := 0, capa := h[r].len)];
    forall b | b in n ensures ArrayOk(n, mem, b) {
      assert ArrayOk(h, mem, b);
      if b != a && h[b].mode == Shared(r) { PairCount(Sharers(h, r), a, b); }
      if b != r { assert Sharers(n, b) == Sharers(h, b); }
    }
    forall b, d | b in n && d in n ensures Apart(n, b, d) {
      assert Apart(h, b, d) && Apart(h, r, b) && Apart(h, r, d);
    }
  }

  /** Writing to elements nobody else sees. */
  lemma WriteBuffer(h: Objects, mem: Memory, a: Id, s: seq<Value>)
    requires Inv(h, mem) && Writable(h, a) && h[a].mode != Embed
    requires h[a].buf in mem && |s| == |mem[h[a].buf]|
    ensures Inv(h, mem[h[a].buf := s]) && Kept(h, mem, h, mem[h[a].buf := s], a)
  {
    var n := mem[h[a].buf := s];
    forall b | b in h ensures ArrayOk(h, n, b) {
      assert ArrayOk(h, mem, b);
    }
    forall b | b in h && h[b].visible && b != a ensures SameView(h, mem, h, n, b) {
      if h[b].mode != Embed { SoleUser(h, mem, a, b); }
    }
  }

  lemma Freeze(h: Objects, mem: Memory, a: Id)
    requires Inv(h, mem) && a in h
    ensures var n := h[a := h[a].(frozen := true)];
            Inv(n, mem) && Kept(h, mem, n, mem, a) && Items(n, mem, a) == Items(h, mem, a)
  {
    var n := h[a := h[a].(frozen := true)];
    forall b | b in n ensures ArrayOk(n, mem, b) {
      assert ArrayOk(h, mem, b);
      assert Sharers(n, b) == Sharers(h, b);
    }
    forall b, d | b in n && d in n ensures Apart(n, b, d) {
      assert Apart(h, b, d);
    }
  }

  /** A dead array that nobody shares from is swept, and its buffer freed if it owns one.  Its root is not told,
      so the count there becomes an over-estimate. */
  lemma Sweep(h: Objects, mem: Memory, a: Id, mem': Memory)
    requires Inv(h, mem) && a in h && Sharers(h, a) == {} && Untouched(h, mem, mem', a)
    ensures Inv(h - {a}, mem') && Kept(h, mem, h - {a}, mem', a)
  {
    var n := h - {a};
    forall b | b in n ensures ArrayOk(n, mem', b) {
      assert ArrayOk(h, mem, b);
      if h[b].mode.Shared? { assert b in Sharers(h, h[b].mode.root); }
      assert Sharers(n, b) <= Sharers(h, b);
      SubsetCount(Sharers(n, b), Sharers(h, b));
    }
    forall b, d | b in n && d in n ensures Apart(n, b, d) {
      assert Apart(h, b, d);
    }
  }

  /** Nothing that the program sees has changed. */
  ghost predicate Unseen(h: Objects, mem: Memory, h': Objects, mem': Memory)
  {
    forall b | b in h && h[b].visible :: SameView(h, mem, h', mem', b)
  }

  /** What one step keeps and the next one keeps, both keep. */
  lemma KeptTwice(h: Objects, mem: Memory, h1: Objects, mem1: Memory, h2: Objects, mem2: Memory, a: Id)
    requires Kept(h, mem, h1, mem1, a) && Kept(h1, mem1, h2, mem2, a)
    ensures Kept(h, mem, h2, mem2, a)
  {
    forall b | b in h && h[b].visible && b != a ensures SameView(h, mem, h2, mem2, b) {
      assert SameView(h, mem, h1, mem1, b);
      assert SameView(h1, mem1, h2, mem2, b);
    }
  }

  lemma UnseenKept(h: Objects, mem: Memory, h1: Objects, mem1: Memory, h2: Objects, mem2: Memory, a: Id)
    requires Unseen(h, mem, h1, mem1) && Kept(h1, mem1, h2, mem2, a)
    ensures Kept(h, mem, h2, mem2, a)
  {
    KeptTwice(h, mem, h1, mem1, h2, mem2, a);
  }

  lemma UnseenTwice(h: Objects, mem: Memory, h1: Objects, mem1: Memory, h2: Objects, mem2: Memory)
    requires Unseen(h, mem, h1, mem1) && Unseen(h1, mem1, h2, mem2)
    ensures Unseen(h, mem, h2, mem2)
  {
    forall b | b in h && h[b].visible ensures SameView(h, mem, h2, mem2, b) {
      assert SameView(h, mem, h1, mem1, b);
      assert SameView(h1, mem1, h2, mem2, b);
    }
  }

  /** A buffer that is not allocated is not used. */
  lemma FreshUnused(h: Objects, mem: Memory, a: Id, p: Ptr)
    requires Inv(h, mem) && p !in mem
    ensures Unused(h, a, p)
  {
    forall b | b in h && b != a ensures h[b].mode == Embed || h[b].buf != p { RoomFits(h, mem, b); }
  }

  /** The buffer of an array that shares nothing may be freed. */
  lemma OwnUnused(h: Objects, mem: Memory, a: Id)
    requires Inv(h, mem) && a in h && h[a].mode == Heap && !h[a].rootFlag
    ensures Unused(h, a, h[a].buf)
  {
    forall b | b in h && b != a && h[b].mode != Embed ensures h[b].buf != h[a].buf {
      assert ArrayOk(h, mem, b) && Apart(h, a, b);
      if h[b].mode.Shared? { assert Apart(h, a, h[b].mode.root); }
    }
  }

  /** An array that is neither a sharer nor a root. */
  lemma AloneNow(h: Objects, mem: Memory, a: Id)
    requires Inv(h, mem) && a in h && h[a].visible && !h[a].rootFlag && !h[a].mode.Shared?
    ensures Alone(h, mem, a, h[a])
  {
    assert ArrayOk(h, mem, a);
    if h[a].mode == Heap { OwnUnused(h, mem, a); }
  }

  /** An array of the program that is not frozen is not a root. */
  lemma NotRoot(h: Objects, mem: Memory, a: Id)
    requires Inv(h, mem) && a in h && h[a].visible && !h[a].frozen
    ensures !h[a].rootFlag
  {
    assert ArrayOk(h, mem, a);
  }

  /** All that an array has room for. */
  ghost function Raw(h: Objects, mem: Memory, a: Id): seq<Value>
    requires a in h
  {
    var c := h[a];
    if c.mode == Embed then c.slots
    else if c.buf in mem && 0 <= c.off <= c.off + Room(h, a) <= |mem[c.buf]| then mem[c.buf][c.off..c.off + Room(h, a)]
    else []
  }

  lemma RawItems(h: Objects, mem: Memory, a: Id)
    requires Inv(h, mem) && a in h && h[a].visible && !h[a].rootFlag
    ensures |Raw(h, mem, a)| == Room(h, a) && h[a].len <= Room(h, a)
    ensures Items(h, mem, a) == Raw(h, mem, a)[..h[a].len] && |Items(h, mem, a)| == h[a].len
    ensures h[a].mode == Heap ==> h[a].buf in mem && h[a].off == 0 && h[a].capa == |mem[h[a].buf]|
  {
    assert ArrayOk(h, mem, a);
    if h[a].mode.Shared? { assert ArrayOk(h, mem, h[a].mode.root); }
  }
}
