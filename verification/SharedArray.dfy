/** Copy-on-write arrays (array.c): every operation changes its receiver as the plain sequence operation would,
    and changes no other array of the program, whatever buffers they share. */
module SharedArray {
  import opened Wrappers
  import opened SharingInvariant

  const ARY_DEFAULT_SIZE: nat := 16

  /** What freshly allocated memory holds: nothing is known of it. */
  const UNINITIALIZED: Value

  datatype Outcome<T> = Done(value: T) | FrozenError | IndexError | ArgumentError

  function Over(s: seq<Value>, beg: nat, vals: seq<Value>): seq<Value>
    requires beg + |vals| <= |s|
  {
    s[..beg] + vals + s[beg + |vals|..]
  }

  function Nils(n: nat): (s: seq<Value>)
    ensures |s| == n && forall k | 0 <= k < n :: s[k] == Nil
  {
    seq(n, _ => Nil)
  }

  /** t is s with val at i: all other elements of s stay where they are, and any gap behind them is nil. */
  ghost predicate Stored(s: seq<Value>, i: nat, val: Value, t: seq<Value>)
  {
    && |t| == (if i < |s| then |s| else i + 1) && t[i] == val
    && (forall k | 0 <= k < |s| && k != i :: t[k] == s[k])
    && (forall k | |s| <= k < i :: t[k] == Nil)
  }

  lemma StoredIs(s: seq<Value>, i: nat, val: Value)
    ensures Stored(s, i, val, if i < |s| then s[i := val] else s + Nils(i - |s|) + [val])
  {
  }

  class ObjectSpace {
    var heap: Objects
    var memory: Memory
    var nextId: Id
    var nextPtr: Ptr

    ghost predicate Valid()
      reads this
    {
      && Inv(heap, memory)
      && (forall a | a in heap :: a < nextId)
      && (forall p | p in memory :: p < nextPtr)
    }

    constructor ()
      ensures Valid() && heap == map[] && memory == map[]
    {
      heap, memory, nextId, nextPtr := map[], map[], 0, 0;
    }

    /** a is an array of the program. */
    predicate Live(a: Id)
      reads this
    {
      a in heap && heap[a].visible
    }

    ghost function View(a: Id): seq<Value>
      requires a in heap
      reads this
    {
      Items(heap, memory, a)
    }

    /** ary_heap_alloc */
    method HeapAlloc(n: nat) returns (p: Ptr)
      requires Valid()
      modifies this`memory, this`nextPtr
      ensures Valid() && p !in old(memory) && p in memory && |memory[p]| == n && memory == old(memory)[p := memory[p]]
      ensures Unseen(heap, old(memory), heap, memory)
    {
      p := nextPtr;
      memory, nextPtr := memory[p := seq(n, _ => UNINITIALIZED)], nextPtr + 1;
      AllocKeeps(heap, old(memory), p, memory[p]);
    }

    /** ary_memcpy0, MEMMOVE and rb_mem_clear: write vals from position beg on. */
    method Write(ary: Id, beg: nat, vals: seq<Value>)
      requires Valid() && Writable(heap, ary) && !heap[ary].rootFlag && beg + |vals| <= Room(heap, ary)
      modifies this`heap, this`memory
      ensures Valid() && Writable(heap, ary) && Kept(old(heap), old(memory), heap, memory, ary)
      ensures heap == old(heap)[ary := old(heap)[ary].(slots := heap[ary].slots)]
      ensures |old(Raw(heap, memory, ary))| == Room(heap, ary)
      ensures Raw(heap, memory, ary) == Over(old(Raw(heap, memory, ary)), beg, vals)
    {
      hide Inv;
      RawItems(heap, memory, ary);
      RoomFits(heap, memory, ary);
      var c := heap[ary];
      if c.mode == Embed {
        AloneNow(heap, memory, ary);
        var d := c.(slots := Over(c.slots, beg, vals));
        heap := heap[ary := d];
        SetAlone(old(heap), memory, ary, d, memory);
      } else {
        var s := Over(memory[c.buf], c.off + beg, vals);
        memory := memory[c.buf := s];
        OverSlice(old(memory)[c.buf], c.off, Room(heap, ary), beg, vals);
        WriteBuffer(heap, old(memory), ary, s);
      }
    }

    /** ARY_SET_LEN */
    method SetLen(ary: Id, n: nat)
      requires Valid() && Live(ary) && !heap[ary].rootFlag && n <= Room(heap, ary)
      modifies this`heap
      ensures Valid() && Kept(old(heap), memory, heap, memory, ary)
      ensures heap == old(heap)[ary := old(heap)[ary].(len := n)]
      ensures |old(Raw(heap, memory, ary))| == old(Room(heap, ary)) && View(ary) == old(Raw(heap, memory, ary))[..n]
      ensures Room(heap, ary) == old(Room(heap, ary)) && Raw(heap, memory, ary) == old(Raw(heap, memory, ary))
    {
      hide Inv;
      RawItems(heap, memory, ary);
      var c := heap[ary];
      heap := heap[ary := c.(len := n)];
      if c.mode.Shared? {
        WindowFacts(old(heap), memory, ary);
        MoveWindow(old(heap), memory, ary, c.off, n);
      } else {
        AloneNow(old(heap), memory, ary);
        SetAlone(old(heap), memory, ary, heap[ary], memory);
      }
      RawItems(heap, memory, ary);
    }

    /** ary_resize_capa */
    method ResizeCapa(ary: Id, capacity: nat)
      requires Valid() && Live(ary) && !heap[ary].frozen && !heap[ary].mode.Shared? && heap[ary].len <= capacity
      modifies this
      ensures Valid() && Unseen(old(heap), old(memory), heap, memory) && Live(ary) && heap[ary].len == old(heap[ary].len)
      ensures if capacity > RARRAY_EMBED_LEN_MAX then heap[ary].mode == Heap && heap[ary].capa == capacity
              else heap[ary].mode == Embed
    {
      hide Inv;
      NotRoot(heap, memory, ary);
      RawItems(heap, memory, ary);
      AloneNow(heap, memory, ary);
      if capacity > RARRAY_EMBED_LEN_MAX {
        ToHeap(ary, capacity);
      } else if heap[ary].mode != Embed {
        ToEmbed(ary);
      }
    }

    /** The elements move to a new buffer, and the old one is freed. */
    method ToHeap(ary: Id, capacity: nat)
      requires Valid() && Live(ary) && !heap[ary].rootFlag && !heap[ary].mode.Shared? && heap[ary].len <= capacity
      modifies this`heap, this`memory, this`nextPtr
      ensures Valid() && Unseen(old(heap), old(memory), heap, memory)
      ensures heap == old(heap)[ary := heap[ary]]
      ensures heap[ary] == old(heap[ary]).(mode := Heap, buf := heap[ary].buf, off := 0, capa := capacity)
    {
      hide Inv;
      var c := heap[ary];
      var items := Items(heap, memory, ary);
      RawItems(heap, memory, ary);
      RoomFits(heap, memory, ary);
      if c.mode == Heap { OwnUnused(heap, memory, ary); }
      var p := HeapAlloc(capacity);
      FreshUnused(heap, old(memory), ary, p);
      memory := memory[p := Over(memory[p], 0, items)];
      if c.mode == Heap { memory := memory - {c.buf}; }
      heap := heap[ary := c.(mode := Heap, buf := p, off := 0, capa := capacity)];
      SetAlone(old(heap), old(memory), ary, heap[ary], memory);
    }

    /** The elements move into the object, and the buffer is freed. */
    method ToEmbed(ary: Id)
      requires Valid() && Live(ary) && !heap[ary].rootFlag && heap[ary].mode == Heap
      requires heap[ary].len <= RARRAY_EMBED_LEN_MAX
      modifies this`heap, this`memory
      ensures Valid() && Unseen(old(heap), old(memory), heap, memory)
      ensures heap == old(heap)[ary := heap[ary]] && heap[ary].mode == Embed && heap[ary].len == old(heap[ary].len)
      ensures heap[ary].visible
    {
      hide Inv;
      var c := heap[ary];
      var items := Items(heap, memory, ary);
      RawItems(heap, memory, ary);
      RoomFits(heap, memory, ary);
      OwnUnused(heap, memory, ary);
      memory := memory - {c.buf};
      heap := heap[ary := c.(mode := Embed, slots := Over(c.slots, 0, items))];
      SetAlone(old(heap), old(memory), ary, heap[ary], memory);
    }

    /** ary_double_capa */
    method DoubleCapa(ary: Id, min: nat)
      requires Valid() && Live(ary) && !heap[ary].frozen && !heap[ary].mode.Shared?
      requires heap[ary].len <= min + ARY_DEFAULT_SIZE
      modifies this
      ensures Valid() && Unseen(old(heap), old(memory), heap, memory) && Live(ary) && heap[ary].len == old(heap[ary].len)
      ensures heap[ary].mode == Heap && min + ARY_DEFAULT_SIZE <= heap[ary].capa
    {
      hide Inv;
      var room := Capa(heap[ary]) / 2;
      if room < ARY_DEFAULT_SIZE { room := ARY_DEFAULT_SIZE; }
      ResizeCapa(ary, room + min);
    }

    /** rb_ary_cancel_sharing */
    method CancelSharing(ary: Id)
      requires Valid() && Live(ary) && !heap[ary].frozen
      modifies this
      ensures Valid() && Unseen(old(heap), old(memory), heap, memory) && Live(ary)
      ensures !heap[ary].mode.Shared? && heap[ary].len == old(heap[ary].len)
    {
      hide Inv;
      var c := heap[ary];
      if !c.mode.Shared? { return; }
      WindowFacts(heap, memory, ary);
      var root := heap[c.mode.root];
      if c.len <= RARRAY_EMBED_LEN_MAX {
        LeaveIntoEmbed(ary, Items(heap, memory, ary));
      } else if root.capa == 1 && c.len > root.len / 2 {
        StealBuffer(ary);
      } else {
        LeaveByCopy(ary);
      }
    }

    /** A sharer stops sharing and keeps vals inside the object. */
    method LeaveIntoEmbed(ary: Id, vals: seq<Value>)
      requires Valid() && Live(ary) && heap[ary].mode.Shared? && |vals| <= RARRAY_EMBED_LEN_MAX
      modifies this`heap
      ensures Valid() && Kept(old(heap), memory, heap, memory, ary) && heap.Keys == old(heap.Keys)
      ensures Live(ary) && heap[ary].mode == Embed && View(ary) == vals && heap[ary].len == |vals|
      ensures heap[ary].frozen == old(heap[ary].frozen) && !heap[ary].rootFlag
    {
      hide Inv;
      RoomFits(heap, memory, ary);
      WindowFacts(heap, memory, ary);
      var c := heap[ary];
      var r := c.mode.root;
      var d := c.(mode := Embed, slots := Over(c.slots, 0, vals), len := |vals|);
      heap := heap[r := Decremented(heap[r])][ary := d];
      Leave(old(heap), memory, ary, r, d, memory);
    }

    /** A sharer stops sharing and copies its elements. */
    method LeaveByCopy(ary: Id)
      requires Valid() && Live(ary) && heap[ary].mode.Shared?
      modifies this`heap, this`memory, this`nextPtr
      ensures Valid() && Unseen(old(heap), old(memory), heap, memory)
      ensures Live(ary) && heap[ary].mode == Heap && heap[ary].len == old(heap[ary].len)
    {
      hide Inv;
      WindowFacts(heap, memory, ary);
      RoomFits(heap, memory, ary);
      var c := heap[ary];
      var r := c.mode.root;
      var items := Items(heap, memory, ary);
      var p := HeapAlloc(c.len);
      FreshUnused(heap, old(memory), ary, p);
      memory := memory[p := items];
      var d := c.(mode := Heap, capa := c.len, buf := p, off := 0);
      heap := heap[r := Decremented(heap[r])][ary := d];
      Leave(old(heap), old(memory), ary, r, d, memory);
    }

    /** The only sharer takes the buffer over and moves its elements to the front; the root is left empty. */
    method StealBuffer(ary: Id)
      requires Valid() && Writable(heap, ary) && heap[ary].mode.Shared?
      modifies this`heap, this`memory
      ensures Valid() && Unseen(old(heap), old(memory), heap, memory)
      ensures Live(ary) && heap[ary].mode == Heap && heap[ary].len == old(heap[ary].len)
    {
      hide Inv;
      WindowFacts(heap, memory, ary);
      RoomFits(heap, memory, ary);
      var c := heap[ary];
      var r := c.mode.root;
      var items := Items(heap, memory, ary);
      Steal(heap, memory, ary, r);
      heap := heap[r := heap[r].(mode := Embed, len := 0)][ary := c.(mode := Heap, off := 0, capa := heap[r].len)];
      ghost var h, m := heap, memory;
      heap := heap[r := Decremented(heap[r])];
      assert heap == h;
      RawItems(heap, memory, ary);
      Write(ary, 0, items);
      RawItems(heap, memory, ary);
      KeptTwice(old(heap), old(memory), h, m, heap, memory, ary);
    }

    /** Only ary has changed, and it now has these elements. */
    twostate predicate Becomes(ary: Id, items: seq<Value>)
      reads this
    {
      && Valid() && Kept(old(heap), old(memory), heap, memory, ary) && old(Live(ary)) && Live(ary)
      && heap[ary].frozen == old(heap)[ary].frozen && View(ary) == items
    }

    /** ary_ensure_room_for_push; false if ary is frozen. */
    method EnsureRoomForPush(ary: Id, add: nat) returns (ok: bool)
      requires Valid() && Live(ary)
      modifies this
      ensures ok == !old(heap[ary].frozen) && (!ok ==> unchanged(this))
      ensures ok ==> Valid() && Unseen(old(heap), old(memory), heap, memory)
      ensures ok ==> Writable(heap, ary) && heap[ary].len == old(heap[ary].len) && heap[ary].len + add <= Room(heap, ary)
    {
      hide Inv, Items;
      var c := heap[ary];
      var newLen := c.len + add;
      if c.frozen { ok := false; return; }
      ok := true;
      NotRoot(heap, memory, ary);
      if c.mode.Shared? {
        WindowFacts(heap, memory, ary);
        var root := heap[c.mode.root];
        if newLen > RARRAY_EMBED_LEN_MAX && root.capa == 1 {
          if c.off + newLen > root.len {
            CopyForPush(ary, newLen, true);
          }
          return;
        }
      }
      CopyForPush(ary, newLen, false);
    }

    /** Stop sharing, and get room for newLen elements; with some to spare if that is the point. */
    method CopyForPush(ary: Id, newLen: nat, spare: bool)
      requires Valid() && Live(ary) && !heap[ary].frozen && heap[ary].len <= newLen
      modifies this
      ensures Valid() && Unseen(old(heap), old(memory), heap, memory)
      ensures Writable(heap, ary) && heap[ary].len == old(heap[ary].len) && newLen <= Room(heap, ary)
    {
      hide Inv, Items;
      CancelSharing(ary);
      NotRoot(heap, memory, ary);
      ghost var h, m := heap, memory;
      var capa := Capa(heap[ary]);
      if newLen > (if spare then capa - capa / 64 else capa) {
        DoubleCapa(ary, newLen);
        UnseenTwice(old(heap), old(memory), h, m, heap, memory);
      }
    }

    /** rb_ary_cat */
    method Cat(ary: Id, vals: seq<Value>) returns (o: Outcome<Id>)
      requires Valid() && Live(ary)
      modifies this
      ensures o == if old(heap[ary].frozen) then FrozenError else Done(ary)
      ensures if o.Done? then Becomes(ary, old(View(ary)) + vals) else unchanged(this)
    {
      hide Inv, Items, Raw;
      var len := heap[ary].len;
      var ok := EnsureRoomForPush(ary, |vals|);
      if !ok { return FrozenError; }
      ghost var h, m := heap, memory;
      NotRoot(heap, memory, ary);
      RawItems(heap, memory, ary);
      Write(ary, len, vals);
      ghost var h1, m1 := heap, memory;
      SetLen(ary, len + |vals|);
      KeptTwice(h, m, h1, m1, heap, memory, ary);
      UnseenKept(old(heap), old(memory), h, m, heap, memory, ary);
      o := Done(ary);
    }

    /** rb_ary_push */
    method Push(ary: Id, item: Value) returns (o: Outcome<Id>)
      requires Valid() && Live(ary)
      modifies this
      ensures o == if old(heap[ary].frozen) then FrozenError else Done(ary)
      ensures if o.Done? then Becomes(ary, old(View(ary)) + [item]) else unchanged(this)
    {
      o := Cat(ary, [item]);
    }

    /** rb_ary_pop */
    method Pop(ary: Id) returns (o: Outcome<Value>)
      requires Valid() && Live(ary)
      modifies this
      ensures old(heap[ary].frozen) ==> o == FrozenError && unchanged(this)
      ensures !old(heap[ary].frozen) && old(View(ary)) == [] ==> o == Done(Nil) && unchanged(this)
      ensures !old(heap[ary].frozen) && old(View(ary)) != [] ==>
                var s := old(View(ary)); o == Done(s[|s| - 1]) && Becomes(ary, s[..|s| - 1])
    {
      hide Inv, Items, Raw;
      if heap[ary].frozen { return FrozenError; }
      NotRoot(heap, memory, ary);
      RawItems(heap, memory, ary);
      var n := heap[ary].len;
      if n == 0 { return Done(Nil); }
      if heap[ary].mode == Heap && n * 3 < heap[ary].capa && heap[ary].capa > ARY_DEFAULT_SIZE {
        ResizeCapa(ary, n * 2);
      }
      ghost var h, m := heap, memory;
      NotRoot(heap, memory, ary);
      RawItems(heap, memory, ary);
      SetLen(ary, n - 1);
      UnseenKept(old(heap), old(memory), h, m, heap, memory, ary);
      o := Done(Aref(ary, n - 1));
    }

    /** RARRAY_AREF, which does not look at the length */
    function Aref(ary: Id, i: nat): (v: Value)
      requires Valid() && Live(ary) && !heap[ary].rootFlag && i < Room(heap, ary)
      reads this
      ensures |Raw(heap, memory, ary)| == Room(heap, ary) && v == Raw(heap, memory, ary)[i]
    {
      RawItems(heap, memory, ary);
      RoomFits(heap, memory, ary);
      var c := heap[ary];
      if c.mode == Embed then c.slots[i] else memory[c.buf][c.off + i]
    }

    /** NEWOBJ_OF: an empty embedded array. */
    method NewObject() returns (id: Id)
      requires Valid()
      modifies this`heap, this`nextId
      ensures Valid() && id !in old(heap) && heap == old(heap)[id := EmptyArray()]
      ensures Unseen(old(heap), memory, heap, memory)
    {
      hide Inv;
      id := nextId;
      heap, nextId := heap[id := EmptyArray()], nextId + 1;
      SetAlone(old(heap), memory, id, EmptyArray(), memory);
    }

    /** rb_ary_s_create: Array[...] */
    method New(vals: seq<Value>) returns (ary: Id)
      requires Valid()
      modifies this
      ensures Valid() && ary !in old(heap) && Unseen(old(heap), old(memory), heap, memory)
      ensures Live(ary) && !heap[ary].frozen && View(ary) == vals
      ensures if |vals| <= RARRAY_EMBED_LEN_MAX then heap[ary].mode == Embed else heap[ary].mode == Heap && heap[ary].capa == |vals|
    {
      hide Inv, Items, Raw;
      ary := NewWithRoom(|vals|);
      ghost var h, m := heap, memory;
      NotRoot(heap, memory, ary);
      if |vals| > 0 {
        Write(ary, 0, vals);
        ghost var h1, m1 := heap, memory;
        SetLen(ary, |vals|);
        KeptTwice(h, m, h1, m1, heap, memory, ary);
        NewUnseen(old(heap), old(memory), h, m, heap, memory, ary);
      }
    }

    /** ary_new */
    method NewWithRoom(capa: nat) returns (ary: Id)
      requires Valid()
      modifies this
      ensures Valid() && ary !in old(heap) && Unseen(old(heap), old(memory), heap, memory)
      ensures Writable(heap, ary) && View(ary) == [] && heap[ary].len == 0 && capa <= Room(heap, ary)
      ensures if capa <= RARRAY_EMBED_LEN_MAX then heap[ary].mode == Embed else heap[ary].mode == Heap && heap[ary].capa == capa
    {
      hide Inv, Items, Raw;
      ary := NewObject();
      ghost var h, m := heap, memory;
      EmptyItems(h, m, ary);
      if capa > RARRAY_EMBED_LEN_MAX {
        ToHeap(ary, capa);
        UnseenTwice(old(heap), old(memory), h, m, heap, memory);
      }
      ItemsLen(heap, memory, ary);
    }

    /** ary_make_shared: the root through which ary can be shared. */
    method MakeShared(ary: Id) returns (root: Id)
      requires Valid() && Live(ary) && heap[ary].mode != Embed
      modifies this
      ensures Valid() && Unseen(old(heap), old(memory), heap, memory) && Live(ary)
      ensures heap[ary].len == old(heap[ary].len) && heap[ary].frozen == old(heap[ary].frozen)
      ensures heap[ary].mode != Embed && heap[ary].off == old(heap[ary].off)
      ensures root in heap && heap[root].mode == Heap && heap[root].rootFlag && heap[root].buf == heap[ary].buf
      ensures heap[ary].off + heap[ary].len <= heap[root].len
      ensures root == ary || heap[ary].mode == Shared(root)
      ensures root != ary ==> !heap[ary].rootFlag
      ensures old(nextId) <= nextId
      ensures root !in old(heap) ==> !heap[root].visible
      ensures !old(heap[ary].frozen) && old(heap[ary].mode) == Heap ==>
                heap[ary].mode == Shared(root) && heap[root].capa == 1 && heap[root].len == old(heap[ary].capa)
    {
      hide Inv, Items, Raw;
      var c := heap[ary];
      if c.mode.Shared? {
        WindowFacts(heap, memory, ary);
        return c.mode.root;
      }
      RootFacts(heap, memory, ary);
      if c.rootFlag { return ary; }
      if c.frozen {
        MakeFrozenRoot(ary);
        return ary;
      }
      root := MakeHiddenRoot(ary);
    }

    /** A frozen array is shrunk to its length and becomes a root. */
    method MakeFrozenRoot(ary: Id)
      requires Valid() && Live(ary) && heap[ary].mode == Heap && heap[ary].frozen && !heap[ary].rootFlag
      modifies this`heap, this`memory, this`nextPtr
      ensures Valid() && Unseen(old(heap), old(memory), heap, memory) && heap.Keys == old(heap.Keys)
      ensures heap[ary] == old(heap[ary]).(rootFlag := true, capa := 1, buf := heap[ary].buf)
    {
      hide Inv, Items, Raw;
      RawItems(heap, memory, ary);
      if heap[ary].capa > heap[ary].len {
        ToHeap(ary, heap[ary].len);
      }
      ghost var h, m := heap, memory;
      heap := heap[ary := heap[ary].(rootFlag := true, capa := 1)];
      BecomeRoot(h, m, ary);
      UnseenTwice(old(heap), old(memory), h, m, heap, memory);
    }

    /** The buffer goes to a new root without a class. */
    method MakeHiddenRoot(ary: Id) returns (root: Id)
      requires Valid() && Live(ary) && heap[ary].mode == Heap && !heap[ary].frozen && !heap[ary].rootFlag
      modifies this
      ensures Valid() && Unseen(old(heap), old(memory), heap, memory) && root !in old(heap) && old(nextId) <= nextId
      ensures heap.Keys == old(heap.Keys) + {root} && heap[ary] == old(heap[ary]).(mode := Shared(root), slots := heap[ary].slots)
      ensures heap[root].mode == Heap && heap[root].rootFlag && !heap[root].visible && heap[root].capa == 1
      ensures heap[root].buf == heap[ary].buf && heap[root].len == old(heap[ary].capa) && heap[ary].len <= heap[root].len
      ensures heap[ary].off == 0
    {
      hide Inv, Items, Raw;
      RawItems(heap, memory, ary);
      var c := heap[ary];
      root := nextId;
      ClearTail(ary);
      ghost var h, m := heap, memory;
      Hide(h, m, ary, root, EmptyArray().slots);
      RawItems(heap, memory, ary);
      heap := heap[root := HiddenRoot(heap[ary], EmptyArray().slots, c.capa)][ary := heap[ary].(mode := Shared(root))];
      nextId := nextId + 1;
      KeptUnseen(h, m, heap, memory, root);
      UnseenTwice(old(heap), old(memory), h, m, heap, memory);
    }

    /** ary_mem_clear of what lies beyond the elements */
    method ClearTail(ary: Id)
      requires Valid() && Live(ary) && heap[ary].mode == Heap && !heap[ary].frozen && !heap[ary].rootFlag
      modifies this`heap, this`memory
      ensures Valid() && Unseen(old(heap), old(memory), heap, memory)
      ensures heap == old(heap)[ary := old(heap)[ary].(slots := heap[ary].slots)]
    {
      hide Inv, Items, Raw;
      RawItems(heap, memory, ary);
      var c := heap[ary];
      Write(ary, c.len, Nils(c.capa - c.len));
      RawItems(heap, memory, ary);
    }

    /** ary_make_partial: a new array with len elements of ary from offset on. */
    method MakePartial(ary: Id, offset: nat, len: nat) returns (result: Id)
      requires Valid() && Live(ary) && offset + len <= heap[ary].len
      modifies this
      ensures Valid() && Unseen(old(heap), old(memory), heap, memory) && result !in old(heap)
      ensures offset + len <= |old(View(ary))| == old(heap[ary].len)
      ensures Live(result) && !heap[result].frozen && View(result) == old(View(ary))[offset..offset + len]
      ensures heap[ary].len == old(heap[ary].len)
    {
      hide Inv, Items, Raw;
      ItemsLen(heap, memory, ary);
      if len <= RARRAY_EMBED_LEN_MAX {
        var vals := Items(heap, memory, ary)[offset..offset + len];
        result := New(vals);
        UnseenLen(old(heap), old(memory), heap, memory, ary);
        return;
      }
      BigNotEmbed(heap, memory, ary);
      var root := MakeShared(ary);
      ghost var h, m := heap, memory;
      UnseenLen(old(heap), old(memory), h, m, ary);
      result := ShareFrom(ary, root, offset, len);
      UnseenTwice(old(heap), old(memory), h, m, heap, memory);
    }

    /** A new window onto the root of ary. */
    method ShareFrom(ary: Id, root: Id, offset: nat, len: nat) returns (result: Id)
      requires Valid() && Live(ary) && heap[ary].mode != Embed && offset + len <= heap[ary].len
      requires root in heap && heap[root].mode == Heap && heap[root].rootFlag && heap[root].buf == heap[ary].buf
      requires heap[ary].off + heap[ary].len <= heap[root].len
      modifies this`heap, this`nextId
      ensures Valid() && Unseen(old(heap), memory, heap, memory) && result == old(nextId)
      ensures Live(result) && !heap[result].frozen
      ensures offset + len <= |old(View(ary))| && View(result) == old(View(ary))[offset..offset + len]
      ensures heap[ary].len == old(heap[ary].len)
    {
      hide Inv, Raw;
      RoomFits(heap, memory, ary);
      result := nextId;
      var c := heap[ary];
      var d := EmptyArray().(mode := Shared(root), len := len, buf := c.buf, off := c.off + offset);
      Join(heap, memory, result, root, d, memory);
      heap := heap[root := heap[root].(capa := heap[root].capa + 1)][result := d];
      nextId := nextId + 1;
      RoomFits(heap, memory, result);
      SliceSlice(memory[c.buf], c.off, c.len, offset, len);
    }

    /** rb_ary_pop_m with an argument: the last n elements are removed and returned as a new array. */
    method PopN(ary: Id, n: int) returns (o: Outcome<Id>)
      requires Valid() && Live(ary)
      modifies this
      ensures old(heap[ary].frozen) ==> o == FrozenError && unchanged(this)
      ensures !old(heap[ary].frozen) && n < 0 ==> o == ArgumentError && unchanged(this)
      ensures !old(heap[ary].frozen) && n >= 0 ==>
                var s := old(View(ary)); var k := if n < |s| then |s| - n else 0;
                && o.Done? && o.value !in old(heap) && Live(o.value) && !heap[o.value].frozen && View(o.value) == s[k..] && Becomes(ary, s[..k])
    {
      hide Inv, Items, Raw;
      if heap[ary].frozen { return FrozenError; }
      if n < 0 { return ArgumentError; }
      ItemsLen(heap, memory, ary);
      var len := heap[ary].len;
      var k := if n < len then len - n else 0;
      var result := MakePartial(ary, k, len - k);
      ghost var h, m := heap, memory;
      UnseenLen(old(heap), old(memory), h, m, ary);
      NotRoot(heap, memory, ary);
      RawItems(heap, memory, ary);
      SetLen(ary, k);
      UnseenKept(old(heap), old(memory), h, m, heap, memory, ary);
      assert SameView(h, m, heap, memory, result);
      o := Done(result);
    }

    /** ARY_INCREASE_PTR and ARY_INCREASE_LEN on a sharer: the window moves inside the root. */
    method SetWindow(ary: Id, off: nat, len: nat)
      requires Valid() && Live(ary) && heap[ary].mode.Shared? && heap[ary].mode.root in heap
      requires off + len <= heap[heap[ary].mode.root].len
      modifies this`heap
      ensures Valid() && Kept(old(heap), memory, heap, memory, ary) && Live(ary)
      ensures heap == old(heap)[ary := old(heap)[ary].(off := off, len := len)]
      ensures heap[ary].buf in memory && off + len <= |memory[heap[ary].buf]|
      ensures View(ary) == memory[heap[ary].buf][off..off + len]
    {
      hide Inv;
      MoveWindow(heap, memory, ary, off, len);
      heap := heap[ary := heap[ary].(off := off, len := len)];
      RoomFits(heap, memory, ary);
    }

    /** The first n elements of a sharer go out of its window. */
    method DropShared(ary: Id, n: nat)
      requires Valid() && Live(ary) && heap[ary].mode.Shared? && n <= heap[ary].len
      modifies this`heap
      ensures n <= |old(View(ary))| && Becomes(ary, old(View(ary))[n..])
    {
      hide Inv, Raw;
      WindowFacts(heap, memory, ary);
      RoomFits(heap, memory, ary);
      ItemsLen(heap, memory, ary);
      var c := heap[ary];
      SetWindow(ary, c.off + n, c.len - n);
      SliceSlice(memory[c.buf], c.off, c.len, n, c.len - n);
    }

    /** behead_shared: what leaves the window is cleared if nobody else sees it. */
    method BeheadShared(ary: Id, n: nat)
      requires Valid() && Live(ary) && !heap[ary].frozen && heap[ary].mode.Shared? && n <= heap[ary].len
      modifies this`heap, this`memory
      ensures n <= |old(View(ary))| && Becomes(ary, old(View(ary))[n..])
    {
      hide Inv, Items, Raw;
      WindowFacts(heap, memory, ary);
      RawItems(heap, memory, ary);
      if heap[heap[ary].mode.root].capa == 1 {
        Write(ary, 0, Nils(n));
        RawItems(heap, memory, ary);
      }
      ghost var h, m := heap, memory;
      DropShared(ary, n);
      KeptTwice(old(heap), old(memory), h, m, heap, memory, ary);
    }

    /** The elements from n on move to the front. */
    method SlideDown(ary: Id, n: nat)
      requires Valid() && Live(ary) && !heap[ary].frozen && !heap[ary].mode.Shared? && n <= heap[ary].len
      modifies this`heap, this`memory
      ensures n <= |old(View(ary))| && Becomes(ary, old(View(ary))[n..])
    {
      hide Inv, Items, Raw;
      NotRoot(heap, memory, ary);
      RawItems(heap, memory, ary);
      var len := heap[ary].len;
      Write(ary, 0, Items(heap, memory, ary)[n..]);
      ghost var h, m := heap, memory;
      RawItems(heap, memory, ary);
      SetLen(ary, len - n);
      KeptTwice(old(heap), old(memory), h, m, heap, memory, ary);
    }

    /** rb_ary_behead */
    method Behead(ary: Id, n: nat) returns (o: Outcome<Id>)
      requires Valid() && Live(ary) && n <= heap[ary].len
      modifies this
      ensures o == if n > 0 && old(heap[ary].frozen) then FrozenError else Done(ary)
      ensures if o.Done? then n <= |old(View(ary))| && Becomes(ary, old(View(ary))[n..]) else unchanged(this)
    {
      hide Inv, Items, Raw;
      ItemsLen(heap, memory, ary);
      o := Done(ary);
      if n == 0 {
        assert Items(heap, memory, ary)[0..] == Items(heap, memory, ary);
        return;
      }
      if heap[ary].frozen { return FrozenError; }
      if heap[ary].mode.Shared? {
        BeheadShared(ary, n);
      } else if heap[ary].len >= ARY_DEFAULT_SIZE {
        BigNotEmbed(heap, memory, ary);
        NotRoot(heap, memory, ary);
        var _ := MakeShared(ary);
        ghost var h, m := heap, memory;
        UnseenLen(old(heap), old(memory), h, m, ary);
        BeheadShared(ary, n);
        UnseenKept(old(heap), old(memory), h, m, heap, memory, ary);
      } else {
        SlideDown(ary, n);
      }
    }

    /** rb_ary_shift */
    method Shift(ary: Id) returns (o: Outcome<Value>)
      requires Valid() && Live(ary)
      modifies this
      ensures old(heap[ary].frozen) ==> o == FrozenError && unchanged(this)
      ensures !old(heap[ary].frozen) && old(View(ary)) == [] ==> o == Done(Nil) && unchanged(this)
      ensures !old(heap[ary].frozen) && old(View(ary)) != [] ==>
                var s := old(View(ary)); o == Done(s[0]) && Becomes(ary, s[1..])
    {
      hide Inv, Items, Raw;
      if heap[ary].frozen { return FrozenError; }
      NotRoot(heap, memory, ary);
      RawItems(heap, memory, ary);
      var len := heap[ary].len;
      if len == 0 { return Done(Nil); }
      var top := Aref(ary, 0);
      o := Done(top);
      if !heap[ary].mode.Shared? {
        if len < ARY_DEFAULT_SIZE {
          SlideDown(ary, 1);
          return;
        }
        ShiftFirst(ary);
      } else {
        BeheadShared(ary, 1);
      }
    }

    /** A long array that shares nothing drops its first element by becoming a sharer of its own buffer. */
    method ShiftFirst(ary: Id)
      requires Valid() && Live(ary) && !heap[ary].frozen && !heap[ary].mode.Shared? && heap[ary].len >= ARY_DEFAULT_SIZE
      modifies this
      ensures 1 <= |old(View(ary))| && Becomes(ary, old(View(ary))[1..])
    {
      hide Inv, Items, Raw;
      NotRoot(heap, memory, ary);
      BigNotEmbed(heap, memory, ary);
      RawItems(heap, memory, ary);
      Write(ary, 0, [Nil]);
      ghost var h, m := heap, memory;
      RawItems(heap, memory, ary);
      var _ := MakeShared(ary);
      ghost var h1, m1 := heap, memory;
      UnseenLen(h, m, h1, m1, ary);
      DropShared(ary, 1);
      UnseenKept(h, m, h1, m1, heap, memory, ary);
      KeptTwice(old(heap), old(memory), h, m, heap, memory, ary);
    }

    /** rb_ary_shift_m with an argument: the first n elements are removed and returned as a new array. */
    method ShiftN(ary: Id, n: int) returns (o: Outcome<Id>)
      requires Valid() && Live(ary)
      modifies this
      ensures old(heap[ary].frozen) ==> o == FrozenError && unchanged(this)
      ensures !old(heap[ary].frozen) && n < 0 ==> o == ArgumentError && unchanged(this)
      ensures !old(heap[ary].frozen) && n >= 0 ==>
                var s := old(View(ary)); var k := if n < |s| then n else |s|;
                && o.Done? && o.value !in old(heap) && Live(o.value) && !heap[o.value].frozen && View(o.value) == s[..k] && Becomes(ary, s[k..])
    {
      hide Inv, Items, Raw;
      if heap[ary].frozen { return FrozenError; }
      if n < 0 { return ArgumentError; }
      ItemsLen(heap, memory, ary);
      var k := if n < heap[ary].len then n else heap[ary].len;
      var result := MakePartial(ary, 0, k);
      ghost var h, m := heap, memory;
      UnseenLen(old(heap), old(memory), h, m, ary);
      var _ := Behead(ary, k);
      UnseenKept(old(heap), old(memory), h, m, heap, memory, ary);
      assert SameView(h, m, heap, memory, result);
      o := Done(result);
    }

    /** There is room for argc elements before those that ary had. */
    twostate predicate Opened(ary: Id, argc: nat)
      reads this
    {
      && Valid() && Kept(old(heap), old(memory), heap, memory, ary) && old(Live(ary)) && Writable(heap, ary)
      && heap[ary].len == old(heap[ary].len) && argc + heap[ary].len <= Room(heap, ary)
      && |Raw(heap, memory, ary)| == Room(heap, ary)
      && Raw(heap, memory, ary)[argc..argc + heap[ary].len] == old(View(ary))
    }

    /** make_room_for_unshift: in the buffer of a root that nobody else uses, the pointer goes back by argc, after
        the elements have been moved towards the end if there is not enough room before them. */
    method MakeRoomForUnshift(ary: Id, argc: nat)
      requires Valid() && Writable(heap, ary) && heap[ary].mode.Shared?
      requires heap[ary].len + argc <= heap[heap[ary].mode.root].len
      modifies this`heap, this`memory
      ensures Opened(ary, argc)
    {
      hide Inv, Items, Raw;
      var c := heap[ary];
      var head := MoveElements(ary, argc);
      ghost var h, m := heap, memory;
      WindowFacts(heap, memory, ary);
      SetWindow(ary, head - argc, c.len);
      KeptTwice(old(heap), old(memory), h, m, heap, memory, ary);
      RawItems(heap, memory, ary);
      RawSlice(heap, memory, ary, argc, c.len);
    }

    /** Have argc places free before the elements, which begin at head in the buffer. */
    method MoveElements(ary: Id, argc: nat) returns (head: nat)
      requires Valid() && Writable(heap, ary) && heap[ary].mode.Shared?
      requires heap[ary].len + argc <= heap[heap[ary].mode.root].len
      modifies this`heap, this`memory
      ensures Valid() && Kept(old(heap), old(memory), heap, memory, ary) && Writable(heap, ary)
      ensures heap == old(heap)[ary := old(heap)[ary].(slots := heap[ary].slots)]
      ensures argc <= head && head + heap[ary].len <= heap[heap[ary].mode.root].len
      ensures heap[ary].buf in memory && head + heap[ary].len <= |memory[heap[ary].buf]|
      ensures memory[heap[ary].buf][head..head + heap[ary].len] == old(View(ary))
    {
      hide Inv, Items, Raw;
      WindowFacts(heap, memory, ary);
      RawItems(heap, memory, ary);
      var c := heap[ary];
      head := c.off;
      if head < argc {
        var room := heap[c.mode.root].len - c.len - argc;
        room := room - room / 16;
        head := argc + room;
        Write(ary, head - c.off, Items(heap, memory, ary));
        RawSlice(heap, memory, ary, head - c.off, c.len);
      } else {
        RawSlice(heap, memory, ary, 0, c.len);
      }
    }

    /** ary_modify_for_unshift */
    method ModifyForUnshift(ary: Id, argc: nat)
      requires Valid() && Live(ary) && !heap[ary].frozen
      modifies this
      ensures Opened(ary, argc)
    {
      hide Inv, Items, Raw;
      var newLen := heap[ary].len + argc;
      GetRoom(ary, newLen);
      ghost var h, m := heap, memory;
      UnseenLen(old(heap), old(memory), h, m, ary);
      NotRoot(heap, memory, ary);
      RawItems(heap, memory, ary);
      if newLen > ARY_DEFAULT_SIZE * 4 {
        var _ := MakeShared(ary);
        ghost var h1, m1 := heap, memory;
        UnseenLen(h, m, h1, m1, ary);
        UnseenTwice(old(heap), old(memory), h, m, h1, m1);
        MakeRoomForUnshift(ary, argc);
        UnseenKept(old(heap), old(memory), h1, m1, heap, memory, ary);
      } else {
        Write(ary, argc, Items(heap, memory, ary));
        UnseenKept(old(heap), old(memory), h, m, heap, memory, ary);
        RawItems(heap, memory, ary);
      }
    }

    /** Stop sharing, and get room for more than newLen elements. */
    method GetRoom(ary: Id, newLen: nat)
      requires Valid() && Live(ary) && !heap[ary].frozen && heap[ary].len <= newLen
      modifies this
      ensures Valid() && Unseen(old(heap), old(memory), heap, memory) && Writable(heap, ary)
      ensures !heap[ary].mode.Shared? && newLen <= Room(heap, ary)
      ensures newLen > RARRAY_EMBED_LEN_MAX ==> heap[ary].mode == Heap
    {
      hide Inv, Items, Raw;
      CancelSharing(ary);
      NotRoot(heap, memory, ary);
      ghost var h, m := heap, memory;
      var capa := Capa(heap[ary]);
      if capa - capa / 64 <= newLen {
        DoubleCapa(ary, newLen);
        UnseenTwice(old(heap), old(memory), h, m, heap, memory);
      }
    }

    /** ary_ensure_room_for_unshift; false if ary is frozen. */
    method EnsureRoomForUnshift(ary: Id, argc: nat) returns (ok: bool)
      requires Valid() && Live(ary)
      modifies this
      ensures ok == !old(heap[ary].frozen)
      ensures if ok then Opened(ary, argc) else unchanged(this)
    {
      hide Inv, Items, Raw;
      var c := heap[ary];
      if c.frozen { return false; }
      ok := true;
      if !c.mode.Shared? {
        ModifyForUnshift(ary, argc);
        return;
      }
      WindowFacts(heap, memory, ary);
      var root := heap[c.mode.root];
      if root.capa != 1 || c.len + argc > root.len {
        ModifyForUnshift(ary, argc);
      } else {
        MakeRoomForUnshift(ary, argc);
      }
    }

    /** rb_ary_unshift_m */
    method Unshift(ary: Id, vals: seq<Value>) returns (o: Outcome<Id>)
      requires Valid() && Live(ary)
      modifies this
      ensures o == if old(heap[ary].frozen) then FrozenError else Done(ary)
      ensures if o.Done? then Becomes(ary, vals + old(View(ary))) else unchanged(this)
    {
      hide Inv, Items, Raw;
      var len := heap[ary].len;
      if |vals| == 0 {
        if heap[ary].frozen { return FrozenError; }
        assert vals + Items(heap, memory, ary) == Items(heap, memory, ary);
        return Done(ary);
      }
      var ok := EnsureRoomForUnshift(ary, |vals|);
      if !ok { return FrozenError; }
      ghost var h, m := heap, memory;
      NotRoot(heap, memory, ary);
      Write(ary, 0, vals);
      ghost var h1, m1 := heap, memory;
      SetLen(ary, len + |vals|);
      KeptTwice(h, m, h1, m1, heap, memory, ary);
      KeptTwice(old(heap), old(memory), h, m, heap, memory, ary);
      ItemsLen(old(heap), old(memory), ary);
      Prepended(Raw(h, m, ary), vals, old(Items(heap, memory, ary)));
      o := Done(ary);
    }

    /** rb_ary_store; the gap beyond the end is filled with nil. */
    method Store(ary: Id, index: int, val: Value) returns (o: Outcome<Id>)
      requires Valid() && Live(ary)
      modifies this
      ensures var len := |old(View(ary))|;
              o == if index < -len then IndexError else if old(heap[ary].frozen) then FrozenError else Done(ary)
      ensures if o.Done? then
                var s := old(View(ary)); var i := if index < 0 then index + |s| else index;
                Becomes(ary, if i < |s| then s[i := val] else s + Nils(i - |s|) + [val])
              else unchanged(this)
      ensures o.Done? ==>
                var s := old(View(ary)); var i := if index < 0 then index + |s| else index;
                Stored(s, i, val, View(ary))
    {
      hide Inv, Items, Raw;
      ItemsLen(heap, memory, ary);
      var len := heap[ary].len;
      var i := index;
      if index < 0 {
        i := index + len;
        if i < 0 { return IndexError; }
      }
      if heap[ary].frozen { return FrozenError; }
      ReadyForStore(ary, i);
      ghost var h, m := heap, memory;
      UnseenLen(old(heap), old(memory), h, m, ary);
      FillAndStore(ary, i, val);
      UnseenKept(old(heap), old(memory), h, m, heap, memory, ary);
      o := Done(ary);
    }

    method ReadyForStore(ary: Id, i: nat)
      requires Valid() && Live(ary) && !heap[ary].frozen
      modifies this
      ensures Valid() && Unseen(old(heap), old(memory), heap, memory) && Writable(heap, ary) && i < Room(heap, ary)
    {
      hide Inv, Items, Raw;
      CancelSharing(ary);
      ghost var h, m := heap, memory;
      NotRoot(heap, memory, ary);
      RawItems(heap, memory, ary);
      if i >= Capa(heap[ary]) {
        DoubleCapa(ary, i);
        UnseenTwice(old(heap), old(memory), h, m, heap, memory);
      }
    }

    method FillAndStore(ary: Id, i: nat, val: Value)
      requires Valid() && Writable(heap, ary) && i < Room(heap, ary)
      modifies this`heap, this`memory
      ensures var s := old(View(ary)); Becomes(ary, if i < |s| then s[i := val] else s + Nils(i - |s|) + [val])
      ensures Stored(old(View(ary)), i, val, View(ary))
    {
      hide Inv, Items, Raw, Stored;
      StoredIs(View(ary), i, val);
      NotRoot(heap, memory, ary);
      RawItems(heap, memory, ary);
      var len := heap[ary].len;
      if i > len { Write(ary, len, Nils(i - len + 1)); }
      ghost var h, m := heap, memory;
      ghost var raw := Raw(heap, memory, ary);
      RawItems(heap, memory, ary);
      if i >= len { SetLen(ary, i + 1); }
      ghost var h1, m1 := heap, memory;
      RawItems(heap, memory, ary);
      Write(ary, i, [val]);
      RawItems(heap, memory, ary);
      KeptTwice(h, m, h1, m1, heap, memory, ary);
      KeptTwice(old(heap), old(memory), h, m, heap, memory, ary);
    }

    /** rb_ary_subseq: nil if the start is out of range; the length is cut at the end. */
    method Subseq(ary: Id, beg: int, len: int) returns (o: Option<Id>)
      requires Valid() && Live(ary)
      modifies this
      ensures var s := old(View(ary));
              if 0 <= beg <= |s| && 0 <= len then
                var end := if beg + len <= |s| then beg + len else |s|;
                && Valid() && Unseen(old(heap), old(memory), heap, memory)
                && o.Some? && o.value !in old(heap) && Live(o.value) && !heap[o.value].frozen && View(o.value) == s[beg..end]
              else o == None && unchanged(this)
    {
      hide Inv, Items, Raw;
      ItemsLen(heap, memory, ary);
      var alen := heap[ary].len;
      if beg > alen || beg < 0 || len < 0 { return None; }
      var n := if alen < len || alen < beg + len then alen - beg else len;
      var result: Id;
      if n == 0 {
        result := New([]);
      } else {
        result := MakePartial(ary, beg, n);
      }
      o := Some(result);
    }

    /** ary_heap_free or rb_ary_unshare: whatever held the elements of ary is given up, and vals go into the object. */
    method Discard(ary: Id, vals: seq<Value>)
      requires Valid() && Live(ary) && !heap[ary].frozen && |vals| <= RARRAY_EMBED_LEN_MAX
      modifies this`heap, this`memory
      ensures Becomes(ary, vals) && heap[ary].mode == Embed && !heap[ary].rootFlag && heap.Keys == old(heap.Keys)
      ensures Untouched(heap, old(memory), memory, ary)
      ensures forall b | b in heap && b != ary :: heap[b] == old(heap)[b].(capa := heap[b].capa)
    {
      hide Inv, Raw;
      var c := heap[ary];
      NotRoot(heap, memory, ary);
      RoomFits(heap, memory, ary);
      if c.mode.Shared? {
        WindowFacts(heap, memory, ary);
        var d := c.(mode := Embed, slots := Over(c.slots, 0, vals), len := |vals|);
        heap := heap[c.mode.root := Decremented(heap[c.mode.root])][ary := d];
        Leave(old(heap), memory, ary, c.mode.root, d, memory);
      } else {
        AloneNow(heap, memory, ary);
        if c.mode == Heap { memory := memory - {c.buf}; }
        heap := heap[ary := c.(mode := Embed, slots := Over(c.slots, 0, vals), len := |vals|)];
        SetAlone(old(heap), old(memory), ary, heap[ary], memory);
      }
    }

    /** rb_ary_replace */
    method Replace(copy: Id, orig: Id) returns (o: Outcome<Id>)
      requires Valid() && Live(copy) && Live(orig)
      modifies this
      ensures o == if old(heap[copy].frozen) then FrozenError else Done(copy)
      ensures if o.Done? then Becomes(copy, old(View(orig))) else unchanged(this)
    {
      hide Inv, Items, Raw;
      if heap[copy].frozen { return FrozenError; }
      o := Done(copy);
      if copy == orig { return; }
      ItemsLen(heap, memory, orig);
      if heap[orig].len <= RARRAY_EMBED_LEN_MAX {
        Discard(copy, Items(heap, memory, orig));
      } else {
        BigNotEmbed(heap, memory, orig);
        var root := MakeShared(orig);
        ghost var h, m := heap, memory;
        UnseenLen(old(heap), old(memory), h, m, orig);
        assert SameView(old(heap), old(memory), h, m, copy);
        ShareInto(copy, orig, root);
        UnseenKept(old(heap), old(memory), h, m, heap, memory, copy);
      }
    }

    /** copy gives up its elements and becomes a window onto the root of orig, at the same place. */
    method ShareInto(copy: Id, orig: Id, root: Id)
      requires Valid() && Live(copy) && Live(orig) && !heap[copy].frozen && copy != orig && heap[orig].mode != Embed
      requires root in heap && heap[root].mode == Heap && heap[root].rootFlag && heap[root].buf == heap[orig].buf
      requires heap[orig].off + heap[orig].len <= heap[root].len
      modifies this
      ensures Becomes(copy, old(View(orig)))
    {
      hide Inv, Items, Raw;
      NotRoot(heap, memory, copy);
      Discard(copy, []);
      ghost var h, m := heap, memory;
      assert SameView(old(heap), old(memory), h, m, orig);
      RoomFits(heap, memory, copy);
      var c := heap[orig];
      var d := heap[copy].(mode := Shared(root), buf := c.buf, off := c.off, len := c.len);
      Join(heap, memory, copy, root, d, memory);
      heap := heap[root := heap[root].(capa := heap[root].capa + 1)][copy := d];
      KeptTwice(old(heap), old(memory), h, m, heap, memory, copy);
      SameWindow(h, heap, memory, orig, copy);
    }

    /** rb_ary_clear */
    method Clear(ary: Id) returns (o: Outcome<Id>)
      requires Valid() && Live(ary)
      modifies this
      ensures o == if old(heap[ary].frozen) then FrozenError else Done(ary)
      ensures if o.Done? then Becomes(ary, []) else unchanged(this)
    {
      hide Inv, Items, Raw;
      if heap[ary].frozen { return FrozenError; }
      o := Done(ary);
      if heap[ary].mode.Shared? {
        LeaveIntoEmbed(ary, []);
        return;
      }
      NotRoot(heap, memory, ary);
      RawItems(heap, memory, ary);
      SetLen(ary, 0);
      ghost var h, m := heap, memory;
      if ARY_DEFAULT_SIZE * 2 < Capa(heap[ary]) {
        ResizeCapa(ary, ARY_DEFAULT_SIZE * 2);
        UnseenLen(h, m, heap, memory, ary);
        assert SameView(h, m, heap, memory, ary);
        UnseenKept(h, m, heap, memory, heap, memory, ary);
        KeptTwice(old(heap), old(memory), h, m, heap, memory, ary);
      }
    }

    /** rb_ary_freeze */
    method FreezeArray(ary: Id)
      requires Valid() && Live(ary)
      modifies this`heap
      ensures Valid() && Kept(old(heap), memory, heap, memory, ary) && Live(ary) && heap[ary].frozen
      ensures View(ary) == old(View(ary))
    {
      hide Inv, Items, Raw;
      Freeze(heap, memory, ary);
      heap := heap[ary := heap[ary].(frozen := true)];
    }

    /** rb_ary_free of an array that the program no longer reaches; a root lives as long as its sharers. */
    method Collect(ary: Id)
      requires Valid() && ary in heap && Sharers(heap, ary) == {}
      modifies this`heap, this`memory
      ensures Valid() && Kept(old(heap), old(memory), heap, memory, ary) && heap == old(heap) - {ary}
    {
      hide Inv, Items, Raw;
      var c := heap[ary];
      if c.mode == Heap {
        CollectUnused(heap, memory, ary);
        memory := memory - {c.buf};
      }
      heap := heap - {ary};
      Sweep(old(heap), old(memory), ary, memory);
    }
  }

  lemma CollectUnused(h: Objects, mem: Memory, a: Id)
    requires Inv(h, mem) && a in h && h[a].mode == Heap && Sharers(h, a) == {}
    ensures Unused(h, a, h[a].buf)
  {
    forall b | b in h && b != a && h[b].mode != Embed ensures h[b].buf != h[a].buf {
      assert ArrayOk(h, mem, b) && Apart(h, a, b);
      if h[b].mode.Shared? {
        assert Apart(h, a, h[b].mode.root);
        assert b in Sharers(h, h[b].mode.root);
      }
    }
  }

  lemma SameWindow(h: Objects, h': Objects, mem: Memory, a: Id, b: Id)
    requires a in h && b in h' && h[a].mode != Embed && h'[b].mode != Embed
    requires h[a].buf == h'[b].buf && h[a].off == h'[b].off && h[a].len == h'[b].len
    ensures Items(h', mem, b) == Items(h, mem, a)
  {
  }

  lemma Prepended(raw: seq<Value>, vals: seq<Value>, items: seq<Value>)
    requires |vals| + |items| <= |raw| && raw[|vals|..|vals| + |items|] == items
    ensures Over(raw, 0, vals)[..|vals| + |items|] == vals + items
  {
    var s := Over(raw, 0, vals);
    assert forall i | |vals| <= i < |vals| + |items| :: s[i] == raw[i] == items[i - |vals|];
  }

  /** A part of the room of a sharer is a part of the buffer. */
  lemma RawSlice(h: Objects, mem: Memory, a: Id, o: nat, n: nat)
    requires Inv(h, mem) && a in h && h[a].mode.Shared? && o + n <= Room(h, a)
    ensures h[a].buf in mem && h[a].off + o + n <= |mem[h[a].buf]| && |Raw(h, mem, a)| == Room(h, a)
    ensures Raw(h, mem, a)[o..o + n] == mem[h[a].buf][h[a].off + o..h[a].off + o + n]
  {
    WindowFacts(h, mem, a);
    SliceSlice(mem[h[a].buf], h[a].off, Room(h, a), o, n);
  }

  function EmptyArray(): RArray
  {
    RArray(Embed, false, false, true, 0, [Nil, Nil, Nil], 0, 0, 0)
  }

  lemma SliceSlice(s: seq<Value>, off: nat, n: nat, o: nat, k: nat)
    requires off + n <= |s| && o + k <= n
    ensures s[off..off + n][o..o + k] == s[off + o..off + o + k]
  {
    var t, u := s[off..off + n][o..o + k], s[off + o..off + o + k];
    assert forall i | 0 <= i < k :: t[i] == u[i];
  }

  lemma EmptyItems(h: Objects, mem: Memory, a: Id)
    requires a in h && h[a] == EmptyArray()
    ensures Items(h, mem, a) == []
  {
  }

  lemma ItemsLen(h: Objects, mem: Memory, a: Id)
    requires Inv(h, mem) && a in h
    ensures |Items(h, mem, a)| == h[a].len
  {
    RoomFits(h, mem, a);
  }

  lemma BigNotEmbed(h: Objects, mem: Memory, a: Id)
    requires Inv(h, mem) && a in h && h[a].len > RARRAY_EMBED_LEN_MAX
    ensures h[a].mode != Embed
  {
    RoomFits(h, mem, a);
  }

  lemma UnseenLen(h: Objects, mem: Memory, h': Objects, mem': Memory, a: Id)
    requires Inv(h, mem) && Inv(h', mem') && Unseen(h, mem, h', mem') && a in h && h[a].visible
    ensures a in h' && h'[a].visible && h'[a].len == h[a].len && Items(h', mem', a) == Items(h, mem, a)
  {
    assert SameView(h, mem, h', mem', a);
    ItemsLen(h, mem, a);
    ItemsLen(h', mem', a);
  }

  lemma RootFacts(h: Objects, mem: Memory, a: Id)
    requires Inv(h, mem) && a in h && h[a].mode == Heap
    ensures h[a].off == 0 && (h[a].rootFlag ==> h[a].frozen)
  {
    assert ArrayOk(h, mem, a);
  }

  /** Changing an array that was not there before changes nothing that was seen. */
  lemma NewUnseen(h: Objects, mem: Memory, h1: Objects, mem1: Memory, h2: Objects, mem2: Memory, a: Id)
    requires Unseen(h, mem, h1, mem1) && a !in h && Kept(h1, mem1, h2, mem2, a)
    ensures Unseen(h, mem, h2, mem2)
  {
    KeptTwice(h, mem, h1, mem1, h2, mem2, a);
  }

  lemma KeptUnseen(h: Objects, mem: Memory, h': Objects, mem': Memory, a: Id)
    requires a !in h && Kept(h, mem, h', mem', a)
    ensures Unseen(h, mem, h', mem')
  {
  }

  /** ARY_CAPA */
  function Capa(c: RArray): nat
  {
    if c.mode == Embed then RARRAY_EMBED_LEN_MAX else if c.rootFlag then c.len else c.capa
  }

  lemma OverSlice(s: seq<Value>, off: nat, room: nat, beg: nat, vals: seq<Value>)
    requires off + room <= |s| && beg + |vals| <= room
    ensures Over(s, off + beg, vals)[off..off + room] == Over(s[off..off + room], beg, vals)
  {
  }

  lemma AllocKeeps(h: Objects, mem: Memory, p: Ptr, s: seq<Value>)
    requires Inv(h, mem) && p !in mem
    ensures Inv(h, mem[p := s]) && Unseen(h, mem, h, mem[p := s])
  {
    forall a | a in h ensures ArrayOk(h, mem[p := s], a) { assert ArrayOk(h, mem, a); }
    forall a | a in h && h[a].visible ensures SameView(h, mem, h, mem[p := s], a) { RoomFits(h, mem, a); }
  }
}
