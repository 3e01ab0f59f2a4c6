/** Programs over arrays: copy-on-write refines independent sequences. */
module ArrayRuns {
  import opened Wrappers
  import opened SharingInvariant
  import opened SharedArray

  /** A variable of a program: an array of its own, or one that has been dropped. */
  datatype Variable = Dropped | Holds(items: seq<Value>, frozen: bool)

  datatype Command =
    | Create(vals: seq<Value>)
    | Append(x: nat, vals: seq<Value>)
    | PopLast(x: nat)
    | PopMany(x: nat, n: int)
    | ShiftOne(x: nat)
    | ShiftMany(x: nat, n: int)
    | Prepend(x: nat, vals: seq<Value>)
    | Assign(x: nat, index: int, val: Value)
    | Slice(x: nat, beg: int, len: int)
    | Overwrite(x: nat, y: nat)
    | Empty(x: nat)
    | FreezeIt(x: nat)
    | Drop(x: nat)

  /** What a command answers. */
  datatype Answer = Nothing | Element(v: Value) | Fresh | Raised(e: Error)

  datatype Error = Frozen | Index | Argument

  function Held(vars: seq<Variable>, x: nat): (held: bool)
  {
    x < |vars| && vars[x].Holds?
  }

  /** What a command does to variables that are plain sequences. */
  function Plain(vars: seq<Variable>, c: Command): (seq<Variable>, Answer)
  {
    match c
    case Create(vals) => (vars + [Holds(vals, false)], Fresh)
    case Append(x, vals) => Change(vars, x, s => s + vals)
    case PopLast(x) =>
      if !Held(vars, x) then (vars, Nothing)
      else if vars[x].frozen then (vars, Raised(Frozen))
      else
        var s := vars[x].items;
        if s == [] then (vars, Element(Nil)) else (vars[x := Holds(s[..|s| - 1], false)], Element(s[|s| - 1]))
    case PopMany(x, n) =>
      if !Held(vars, x) then (vars, Nothing)
      else if vars[x].frozen then (vars, Raised(Frozen))
      else if n < 0 then (vars, Raised(Argument))
      else
        var s := vars[x].items; var k := if n < |s| then |s| - n else 0;
        (vars[x := Holds(s[..k], false)] + [Holds(s[k..], false)], Fresh)
    case ShiftOne(x) =>
      if !Held(vars, x) then (vars, Nothing)
      else if vars[x].frozen then (vars, Raised(Frozen))
      else
        var s := vars[x].items;
        if s == [] then (vars, Element(Nil)) else (vars[x := Holds(s[1..], false)], Element(s[0]))
    case ShiftMany(x, n) =>
      if !Held(vars, x) then (vars, Nothing)
      else if vars[x].frozen then (vars, Raised(Frozen))
      else if n < 0 then (vars, Raised(Argument))
      else
        var s := vars[x].items; var k := if n < |s| then n else |s|;
        (vars[x := Holds(s[k..], false)] + [Holds(s[..k], false)], Fresh)
    case Prepend(x, vals) => Change(vars, x, s => vals + s)
    case Assign(x, index, val) =>
      if Held(vars, x) && index < -|vars[x].items| then (vars, Raised(Index))
      else
        Change(vars, x, s =>
          var i := if index < 0 then index + |s| else index;
          if 0 <= i < |s| then s[i := val] else if |s| <= i then s + Nils(i - |s|) + [val] else s)
    case Slice(x, beg, len) =>
      if !Held(vars, x) then (vars, Nothing)
      else
        var s := vars[x].items;
        if 0 <= beg <= |s| && 0 <= len then
          (vars + [Holds(s[beg..if beg + len <= |s| then beg + len else |s|], false)], Fresh)
        else (vars, Element(Nil))
    case Overwrite(x, y) => if Held(vars, y) then Change(vars, x, s => vars[y].items) else (vars, Nothing)
    case Empty(x) => Change(vars, x, s => [])
    case FreezeIt(x) => if Held(vars, x) then (vars[x := Holds(vars[x].items, true)], Nothing) else (vars, Nothing)
    case Drop(x) => if Held(vars, x) then (vars[x := Dropped], Nothing) else (vars, Nothing)
  }

  /** An assignment that raises nothing leaves the element in its place, all others in theirs, and nil in any gap. */
  lemma Assigned(vars: seq<Variable>, x: nat, index: int, val: Value)
    requires Held(vars, x) && !vars[x].frozen && -|vars[x].items| <= index
    ensures var s := vars[x].items; var i := if index < 0 then index + |s| else index;
            var after := Plain(vars, Assign(x, index, val)).0;
            Held(after, x) && Stored(s, i, val, after[x].items)
  {
  }

  /** Does the command work on variable y? */
  predicate WorksOn(c: Command, y: nat)
  {
    !c.Create? && !c.Slice? && c.x == y
  }

  /** The lists are independent: a command leaves all variables alone but the one it works on, and may add new ones. */
  lemma OnlyThat(vars: seq<Variable>, c: Command, y: nat)
    requires y < |vars| && !WorksOn(c, y)
    ensures y < |Plain(vars, c).0| && Plain(vars, c).0[y] == vars[y]
  {
  }

  /** What is frozen stays as it is until it is dropped. */
  lemma FrozenForever(vars: seq<Variable>, c: Command, y: nat)
    requires Held(vars, y) && vars[y].frozen && c != Drop(y)
    ensures y < |Plain(vars, c).0| && Plain(vars, c).0[y] == vars[y]
  {
  }

  /** A command that would change a frozen array raises the error for that, unless its index or source is wrong. */
  lemma FrozenRaises(vars: seq<Variable>, c: Command, y: nat)
    requires Held(vars, y) && vars[y].frozen && WorksOn(c, y) && !c.FreezeIt? && !c.Drop?
    requires c.Assign? ==> -|vars[y].items| <= c.index
    requires c.Overwrite? ==> Held(vars, c.y)
    ensures Plain(vars, c) == (vars, Raised(Frozen))
  {
  }

  /** Apply f to the sequence in x, unless it is frozen. */
  function Change(vars: seq<Variable>, x: nat, f: seq<Value> -> seq<Value>): (seq<Variable>, Answer)
  {
    if !Held(vars, x) then (vars, Nothing)
    else if vars[x].frozen then (vars, Raised(Frozen))
    else (vars[x := Holds(f(vars[x].items), false)], Nothing)
  }

  /** The variables and answers after a script. */
  function PlainRun(script: seq<Command>, n: nat): (seq<Variable>, seq<Answer>)
    requires n <= |script|
  {
    if n == 0 then ([], [])
    else
      var (vars, answers) := PlainRun(script, n - 1);
      var (vars', a) := Plain(vars, script[n - 1]);
      (vars', answers + [a])
  }

  /** Variable x of the program is the array ids[x] of the object space. */
  ghost predicate Agree(h: Objects, mem: Memory, ids: seq<Option<Id>>, vars: seq<Variable>)
  {
    && |ids| == |vars|
    && (forall i | 0 <= i < |ids| :: AgreeAt(h, mem, ids[i], vars[i]))
    && (forall i, j | 0 <= i < j < |ids| :: ids[i].Some? && ids[j].Some? ==> ids[i] != ids[j])
  }

  ghost predicate AgreeAt(h: Objects, mem: Memory, id: Option<Id>, v: Variable)
  {
    match id
    case None => v.Dropped?
    case Some(a) => v.Holds? && a in h && h[a].visible && Items(h, mem, a) == v.items && h[a].frozen == v.frozen
  }

  /** Only the array of x changed. */
  lemma AgreeChanged(h: Objects, mem: Memory, h': Objects, mem': Memory,
                     ids: seq<Option<Id>>, vars: seq<Variable>, x: nat, v: Variable)
    requires Agree(h, mem, ids, vars) && x < |ids| && ids[x].Some? && Kept(h, mem, h', mem', ids[x].value)
    requires AgreeAt(h', mem', ids[x], v)
    ensures Agree(h', mem', ids, vars[x := v])
  {
    hide Items;
    var w := vars[x := v];
    forall i | 0 <= i < |ids| ensures AgreeAt(h', mem', ids[i], w[i]) {
      assert AgreeAt(h, mem, ids[i], vars[i]);
      if i != x && ids[i].Some? {
        assert SameView(h, mem, h', mem', ids[i].value);
      }
    }
  }

  /** Nothing was seen to change, and a new array came into being. */
  lemma AgreeNew(h: Objects, mem: Memory, h': Objects, mem': Memory,
                 ids: seq<Option<Id>>, vars: seq<Variable>, a: Id, v: Variable)
    requires Agree(h, mem, ids, vars) && Unseen(h, mem, h', mem') && a !in h && AgreeAt(h', mem', Some(a), v)
    ensures Agree(h', mem', ids + [Some(a)], vars + [v])
  {
    hide Items;
    var w, ws := ids + [Some(a)], vars + [v];
    forall i | 0 <= i < |w| ensures AgreeAt(h', mem', w[i], ws[i]) && (i < |ids| ==> ids[i] != Some(a)) {
      if i < |ids| {
        assert AgreeAt(h, mem, ids[i], vars[i]);
        if ids[i].Some? { assert SameView(h, mem, h', mem', ids[i].value); }
      }
    }
  }

  /** The array of x changed, and a new array came into being. */
  lemma AgreeBoth(h: Objects, mem: Memory, h': Objects, mem': Memory,
                  ids: seq<Option<Id>>, vars: seq<Variable>, x: nat, v: Variable, a: Id, u: Variable)
    requires Agree(h, mem, ids, vars) && x < |ids| && ids[x].Some? && Kept(h, mem, h', mem', ids[x].value)
    requires AgreeAt(h', mem', ids[x], v) && a !in h && AgreeAt(h', mem', Some(a), u)
    ensures Agree(h', mem', ids + [Some(a)], vars[x := v] + [u])
  {
    hide Items;
    AgreeChanged(h, mem, h', mem', ids, vars, x, v);
    var w, ws := ids + [Some(a)], vars[x := v] + [u];
    forall i | 0 <= i < |w| ensures AgreeAt(h', mem', w[i], ws[i]) && (i < |ids| ==> ids[i] != Some(a)) {
      if i < |ids| {
        assert AgreeAt(h', mem', ids[i], vars[x := v][i]);
        assert AgreeAt(h, mem, ids[i], vars[i]);
      }
    }
  }

  /** The array of x was dropped. */
  lemma AgreeDropped(h: Objects, mem: Memory, h': Objects, mem': Memory, ids: seq<Option<Id>>, vars: seq<Variable>, x: nat)
    requires Agree(h, mem, ids, vars) && x < |ids| && ids[x].Some? && Kept(h, mem, h', mem', ids[x].value)
    ensures Agree(h', mem', ids[x := None], vars[x := Dropped])
  {
    hide Items;
    var w, ws := ids[x := None], vars[x := Dropped];
    forall i | 0 <= i < |ids| ensures AgreeAt(h', mem', w[i], ws[i]) {
      assert AgreeAt(h, mem, ids[i], vars[i]);
      if i != x && ids[i].Some? {
        assert SameView(h, mem, h', mem', ids[i].value);
      }
    }
  }

  function Answered(o: Outcome<Id>, done: Answer): Answer
  {
    match o
    case Done(_) => done
    case FrozenError => Raised(Frozen)
    case IndexError => Raised(Index)
    case ArgumentError => Raised(Argument)
  }

  /** Every run of a program on copy-on-write arrays gives the answers, and leaves the contents, that it would if
      each variable held a sequence of its own. */
  method Run(script: seq<Command>) returns (space: ObjectSpace, ids: seq<Option<Id>>, answers: seq<Answer>)
    ensures fresh(space) && space.Valid()
    ensures var (vars, expected) := PlainRun(script, |script|);
            Agree(space.heap, space.memory, ids, vars) && answers == expected
  {
    hide Inv, Plain, Agree;
    space := new ObjectSpace();
    ids, answers := [], [];
    ghost var vars: seq<Variable> := [];
    AgreeEmpty();
    for n := 0 to |script|
      invariant fresh(space) && space.Valid()
      invariant PlainRun(script, n) == (vars, answers)
      invariant Agree(space.heap, space.memory, ids, vars)
    {
      var answer;
      ids, answer := Step(space, ids, script[n], vars);
      vars := Plain(vars, script[n]).0;
      answers := answers + [answer];
    }
  }

  lemma AgreeEmpty()
    ensures Agree(map[], map[], [], [])
  {
  }

  predicate Bound(ids: seq<Option<Id>>, x: nat)
  {
    x < |ids| && ids[x].Some?
  }

  /** One command. */
  method Step(space: ObjectSpace, ids: seq<Option<Id>>, c: Command, ghost vars: seq<Variable>)
    returns (ids': seq<Option<Id>>, answer: Answer)
    requires space.Valid() && Agree(space.heap, space.memory, ids, vars)
    modifies space
    ensures space.Valid()
    ensures Agree(space.heap, space.memory, ids', Plain(vars, c).0) && answer == Plain(vars, c).1
  {
    hide Inv, Items, Plain, Agree;
    if c.Create? || c.Slice? {
      ids', answer := StepMake(space, ids, c, vars);
    } else if c.PopLast? || c.ShiftOne? {
      ids' := ids;
      answer := StepTake(space, ids, c, vars);
    } else if c.PopMany? || c.ShiftMany? {
      ids', answer := StepSplit(space, ids, c, vars);
    } else if c.FreezeIt? || c.Drop? {
      answer := Nothing;
      ids' := StepOther(space, ids, c, vars);
    } else {
      ids' := ids;
      answer := StepChange(space, ids, c, vars);
    }
  }

  method StepMake(space: ObjectSpace, ids: seq<Option<Id>>, c: Command, ghost vars: seq<Variable>)
    returns (ids': seq<Option<Id>>, answer: Answer)
    requires space.Valid() && Agree(space.heap, space.memory, ids, vars) && (c.Create? || c.Slice?)
    modifies space
    ensures space.Valid()
    ensures Agree(space.heap, space.memory, ids', Plain(vars, c).0) && answer == Plain(vars, c).1
  {
    hide Inv, Items;
    ids', answer := ids, Nothing;
    match c
    case Create(vals) =>
      var a := space.New(vals);
      AgreeNew(old(space.heap), old(space.memory), space.heap, space.memory, ids, vars, a, Holds(vals, false));
      ids', answer := ids + [Some(a)], Fresh;
    case Slice(x, beg, len) =>
      if Bound(ids, x) {
        assert AgreeAt(space.heap, space.memory, ids[x], vars[x]);
        var o := space.Subseq(ids[x].value, beg, len);
        if o.Some? {
          AgreeNew(old(space.heap), old(space.memory), space.heap, space.memory, ids, vars, o.value,
            Holds(space.View(o.value), false));
          ids', answer := ids + [o], Fresh;
        } else {
          answer := Element(Nil);
        }
      }
  }

  method StepTake(space: ObjectSpace, ids: seq<Option<Id>>, c: Command, ghost vars: seq<Variable>) returns (answer: Answer)
    requires space.Valid() && Agree(space.heap, space.memory, ids, vars) && (c.PopLast? || c.ShiftOne?)
    modifies space
    ensures space.Valid()
    ensures Agree(space.heap, space.memory, ids, Plain(vars, c).0) && answer == Plain(vars, c).1
  {
    hide Inv, Items;
    if !Bound(ids, c.x) { return Nothing; }
    var a := ids[c.x].value;
    assert AgreeAt(space.heap, space.memory, ids[c.x], vars[c.x]);
    var o;
    if c.PopLast? {
      o := space.Pop(a);
    } else {
      o := space.Shift(a);
    }
    if o == FrozenError { return Raised(Frozen); }
    answer := Element(o.value);
    if vars[c.x].items != [] {
      AgreeChanged(old(space.heap), old(space.memory), space.heap, space.memory, ids, vars, c.x, Holds(space.View(a), false));
    }
  }

  method StepSplit(space: ObjectSpace, ids: seq<Option<Id>>, c: Command, ghost vars: seq<Variable>)
    returns (ids': seq<Option<Id>>, answer: Answer)
    requires space.Valid() && Agree(space.heap, space.memory, ids, vars) && (c.PopMany? || c.ShiftMany?)
    modifies space
    ensures space.Valid()
    ensures Agree(space.heap, space.memory, ids', Plain(vars, c).0) && answer == Plain(vars, c).1
  {
    hide Inv, Items;
    ids', answer := ids, Nothing;
    if !Bound(ids, c.x) { return; }
    var a := ids[c.x].value;
    assert AgreeAt(space.heap, space.memory, ids[c.x], vars[c.x]);
    var o;
    if c.PopMany? {
      o := space.PopN(a, c.n);
    } else {
      o := space.ShiftN(a, c.n);
    }
    answer := Answered(o, Fresh);
    if o.Done? {
      ids' := ids + [Some(o.value)];
      AgreeBoth(old(space.heap), old(space.memory), space.heap, space.memory, ids, vars, c.x,
        Holds(space.View(a), false), o.value, Holds(space.View(o.value), false));
    }
  }

  method StepOther(space: ObjectSpace, ids: seq<Option<Id>>, c: Command, ghost vars: seq<Variable>)
    returns (ids': seq<Option<Id>>)
    requires space.Valid() && Agree(space.heap, space.memory, ids, vars) && (c.FreezeIt? || c.Drop?)
    modifies space
    ensures space.Valid()
    ensures Agree(space.heap, space.memory, ids', Plain(vars, c).0) && Nothing == Plain(vars, c).1
  {
    hide Inv, Items;
    ids' := ids;
    if !Bound(ids, c.x) { return; }
    var a := ids[c.x].value;
    assert AgreeAt(space.heap, space.memory, ids[c.x], vars[c.x]);
    if c.FreezeIt? {
      space.FreezeArray(a);
      AgreeChanged(old(space.heap), old(space.memory), space.heap, space.memory, ids, vars, c.x, Holds(space.View(a), true));
    } else {
      ids' := ids[c.x := None];
      if Sharers(space.heap, a) == {} { space.Collect(a); }
      AgreeDropped(old(space.heap), old(space.memory), space.heap, space.memory, ids, vars, c.x);
    }
  }

  method StepChange(space: ObjectSpace, ids: seq<Option<Id>>, c: Command, ghost vars: seq<Variable>) returns (answer: Answer)
    requires space.Valid() && Agree(space.heap, space.memory, ids, vars)
    requires c.Append? || c.Prepend? || c.Assign? || c.Overwrite? || c.Empty?
    modifies space
    ensures space.Valid()
    ensures Agree(space.heap, space.memory, ids, Plain(vars, c).0) && answer == Plain(vars, c).1
  {
    hide Inv, Items;
    if !Bound(ids, c.x) { return Nothing; }
    var a := ids[c.x].value;
    assert AgreeAt(space.heap, space.memory, ids[c.x], vars[c.x]);
    var o;
    match c {
      case Append(_, vals) => o := space.Cat(a, vals);
      case Prepend(_, vals) => o := space.Unshift(a, vals);
      case Assign(_, index, val) => o := space.Store(a, index, val);
      case Overwrite(_, y) =>
        if !Bound(ids, y) { return Nothing; }
        assert AgreeAt(space.heap, space.memory, ids[y], vars[y]);
        o := space.Replace(a, ids[y].value);
      case Empty(_) => o := space.Clear(a);
    }
    answer := Answered(o, Nothing);
    if o.Done? {
      AgreeChanged(old(space.heap), old(space.memory), space.heap, space.memory, ids, vars, c.x, Holds(space.View(a), false));
    }
  }
}
