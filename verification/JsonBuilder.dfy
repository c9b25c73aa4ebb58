/** The semantic actions: a machine with a current pointer, a stack of raw pointers into growing
    vectors and one name register, and the trees it builds. */
module JsonBuilder {
  import opened Bytes
  import opened JsonValue

  // ---------------------------------------------------------------- pointers into a value

  /** A `Value_type*` into the value under construction. `path` are the element positions from the root,
      and `sizes` the size each vector on the way had when the pointer was taken. Vectors only grow, by
      `push_back`, so a size that has changed since means that the vector may have moved its elements. */
  datatype Pointer = Pointer(path: seq<nat>, sizes: seq<nat>)

  const ROOT: Pointer := Pointer([], [])

  predicate IsContainer(v: Value) {
    v.Arr? || v.Obj?
  }

  function Count(v: Value): nat {
    match v
    case Arr(es) => |es|
    case Obj(ms) => |ms|
    case _ => 0
  }

  function Child(v: Value, i: nat): Value
    requires i < Count(v)
  {
    if v.Arr? then v.elems[i] else v.members[i].value
  }

  /** The pointer may still be used: no vector it points into has grown since it was taken. */
  predicate Live(v: Value, path: seq<nat>, sizes: seq<nat>) {
    && |path| == |sizes|
    && (path == [] || (sizes[0] == Count(v) && path[0] < Count(v) && Live(Child(v, path[0]), path[1..], sizes[1..])))
  }

  predicate LivePointer(v: Value, p: Pointer) {
    Live(v, p.path, p.sizes)
  }

  /** `*p`. */
  function Get(v: Value, path: seq<nat>, sizes: seq<nat>): Value
    requires Live(v, path, sizes)
  {
    if path == [] then v else Get(Child(v, path[0]), path[1..], sizes[1..])
  }

  function Target(v: Value, p: Pointer): Value
    requires LivePointer(v, p)
  {
    Get(v, p.path, p.sizes)
  }

  /** `push_back` on one container; an object member takes the name. */
  function Pushed(v: Value, name: seq<byte>, child: Value): (r: Value)
    requires IsContainer(v)
    ensures Count(r) == Count(v) + 1 && Child(r, Count(v)) == child
    ensures forall i :: 0 <= i < Count(v) ==> Child(r, i) == Child(v, i)
    ensures r.Arr? == v.Arr? && r.Obj? == v.Obj?
  {
    if v.Arr? then Arr(v.elems + [child]) else Obj(v.members + [Member(name, child)])
  }

  function ReplaceChild(v: Value, i: nat, child: Value): (r: Value)
    requires i < Count(v)
    ensures Count(r) == Count(v) && Child(r, i) == child
    ensures forall j :: 0 <= j < Count(v) && j != i ==> Child(r, j) == Child(v, j)
    ensures r.Arr? == v.Arr? && r.Obj? == v.Obj?
  {
    if v.Arr? then Arr(v.elems[i := child]) else Obj(v.members[i := Member(v.members[i].name, child)])
  }

  /** The whole value after `*p = x`. */
  function SetAt(v: Value, path: seq<nat>, sizes: seq<nat>, x: Value): Value
    requires Live(v, path, sizes)
  {
    if path == [] then x
    else ReplaceChild(v, path[0], SetAt(Child(v, path[0]), path[1..], sizes[1..], x))
  }

  /** The whole value after a `push_back` on the container `*p`. */
  function PushAt(v: Value, p: Pointer, name: seq<byte>, child: Value): Value
    requires LivePointer(v, p) && IsContainer(Target(v, p))
  {
    SetAt(v, p.path, p.sizes, Pushed(Target(v, p), name, child))
  }

  // ---------------------------------------------------------------- the machine

  datatype Action =
    | BeginObj | EndObj | BeginArray | EndArray
    | NewName(name: seq<byte>)
    | NewStr(s: seq<byte>)
    | NewTrue | NewFalse | NewNull
    | NewInt(i: int64) | NewUint64(u: uint64) | NewReal(r: real)

  datatype Builder = Builder(value: Value, current: Option<Pointer>, stack: seq<Pointer>, name: seq<byte>)

  function Start(value: Value): Builder {
    Builder(value, None, [], [])
  }

  /** The value a scalar action hands to `add_to_current`, or the empty container of a begin. */
  function Payload(a: Action): Option<Value> {
    match a
    case BeginObj => Some(Obj([]))
    case BeginArray => Some(Arr([]))
    case NewStr(s) => Some(Str(s))
    case NewTrue => Some(Bool(true))
    case NewFalse => Some(Bool(false))
    case NewNull => Some(Null)
    case NewInt(i) => Some(Int(i, false))
    case NewUint64(u) => Some(FromUint64(u))
    case NewReal(r) => Some(Real(r))
    case _ => None
  }

  /** `&vector.back()` after a push behind `p`. */
  function BackOf(v: Value, p: Pointer): Pointer
    requires LivePointer(v, p)
  {
    var n := Count(Target(v, p));
    Pointer(p.path + [n], p.sizes + [n + 1])
  }

  /** `add_to_current`: the new state and the pointer it returns. None is undefined behaviour or a failed assert. */
  function AddToCurrent(b: Builder, value: Value): Option<(Builder, Pointer)> {
    match b.current
    case None => Some((b.(value := value, current := Some(ROOT)), ROOT))
    case Some(p) =>
      if LivePointer(b.value, p) && IsContainer(Target(b.value, p)) then
        Some((b.(value := PushAt(b.value, p, b.name, value)), BackOf(b.value, p)))
      else None
  }

  /** One action. None means that the program would fail an assert, pop an empty stack or follow a
      pointer whose element may have moved. */
  function Step(b: Builder, a: Action): Option<Builder> {
    match a
    case NewName(name) =>
      if b.current.Some? && LivePointer(b.value, b.current.value) && Target(b.value, b.current.value).Obj?
      then Some(b.(name := name))
      else None
    case EndObj => EndCompound(b)
    case EndArray => EndCompound(b)
    case BeginObj => BeginCompound(b, Obj([]))
    case BeginArray => BeginCompound(b, Arr([]))
    case _ =>
      match AddToCurrent(b, Payload(a).value)
      case None => None
      case Some(r) => Some(r.0)
  }

  function BeginCompound(b: Builder, empty: Value): Option<Builder> {
    if b.current.None? then Some(AddToCurrent(b, empty).value.0)
    else
      match AddToCurrent(b.(stack := b.stack + [b.current.value]), empty)
      case None => None
      case Some(r) => Some(r.0.(current := Some(r.1)))
  }

  function EndCompound(b: Builder): Option<Builder> {
    if b.current == Some(ROOT) then Some(b)
    else if b.stack == [] then None
    else Some(b.(current := Some(b.stack[|b.stack| - 1]), stack := b.stack[..|b.stack| - 1]))
  }

  function Run(b: Builder, log: seq<Action>): Option<Builder>
    decreases log
  {
    if log == [] then Some(b)
    else
      match Step(b, log[0])
      case None => None
      case Some(b') => Run(b', log[1..])
  }

  lemma {:induction false} RunAppend(b: Builder, x: seq<Action>, y: seq<Action>)
    ensures Run(b, x + y) == match Run(b, x) case None => None case Some(b') => Run(b', y)
    decreases x
  {
    if x == [] {
      assert x + y == y;
    } else {
      assert (x + y)[1..] == x[1..] + y;
      match Step(b, x[0])
      case None =>
      case Some(b') => RunAppend(b', x[1..], y);
    }
  }

  /** A prefix of a run that is defined is defined. */
  lemma RunPrefix(b: Builder, x: seq<Action>, y: seq<Action>)
    requires x <= y && Run(b, y).Some?
    ensures Run(b, x).Some?
  {
    assert y == x + y[|x|..];
    RunAppend(b, x, y[|x|..]);
  }

  // ---------------------------------------------------------------- the pointer-stack invariant

  /** The last-child chain of depth `k`, as a pointer taken now. */
  predicate IsLastChain(v: Value, path: seq<nat>, sizes: seq<nat>) {
    && |path| == |sizes|
    && (path == [] ||
        (Count(v) > 0 && path[0] == Count(v) - 1 && sizes[0] == Count(v)
         && IsLastChain(Child(v, path[0]), path[1..], sizes[1..])))
  }

  function Prefix(p: Pointer, k: nat): Pointer
    requires k <= |p.path| && |p.path| == |p.sizes|
  {
    Pointer(p.path[..k], p.sizes[..k])
  }

  /** The stack followed by the current pointer is the chain of last children from the root: entry `k` is the
      pointer to the last child at depth `k`, taken at the sizes the vectors have now. Before the first value
      there is neither stack nor current pointer. */
  predicate Inv(b: Builder) {
    match b.current
    case None => b.stack == []
    case Some(p) =>
      && IsLastChain(b.value, p.path, p.sizes)
      && |b.stack| == |p.path|
      && (forall k :: 0 <= k < |b.stack| ==> b.stack[k] == Prefix(p, k))
  }

  /** What the source asserts of the state before an action; an end needs a started value. */
  predicate Asserted(b: Builder, a: Action) {
    match b.current
    case None => Payload(a).Some?
    case Some(p) =>
      && LivePointer(b.value, p)
      && (a.NewName? ==> Target(b.value, p).Obj?)
      && (Payload(a).Some? ==> IsContainer(Target(b.value, p)))
  }

  lemma {:induction false} ChainPrefix(v: Value, path: seq<nat>, sizes: seq<nat>, k: nat)
    requires IsLastChain(v, path, sizes) && k <= |path|
    ensures IsLastChain(v, path[..k], sizes[..k]) && Live(v, path[..k], sizes[..k])
    ensures k < |path| ==> IsContainer(Get(v, path[..k], sizes[..k]))
    decreases k
  {
    if k == 0 {
      assert path[..k] == [] && sizes[..k] == [];
    } else {
      ChainPrefix(Child(v, path[0]), path[1..], sizes[1..], k - 1);
      assert path[..k][1..] == path[1..][..k - 1] && sizes[..k][1..] == sizes[1..][..k - 1];
    }
  }

  lemma ChainIsLive(v: Value, path: seq<nat>, sizes: seq<nat>)
    requires IsLastChain(v, path, sizes)
    ensures Live(v, path, sizes)
  {
    ChainPrefix(v, path, sizes, |path|);
    assert path[..|path|] == path && sizes[..|path|] == sizes;
  }

  /** No held pointer dangles: none of the vectors it points into has grown since it was taken, and all but
      the current one point at open containers. The current pointer is the root exactly when the stack is empty. */
  lemma HeldPointersAreLive(b: Builder)
    requires Inv(b) && b.current.Some?
    ensures LivePointer(b.value, b.current.value)
    ensures forall k :: 0 <= k < |b.stack| ==>
              LivePointer(b.value, b.stack[k]) && IsContainer(Target(b.value, b.stack[k]))
    ensures b.current == Some(ROOT) <==> b.stack == []
  {
    var p := b.current.value;
    ChainIsLive(b.value, p.path, p.sizes);
    forall k | 0 <= k < |b.stack|
      ensures LivePointer(b.value, b.stack[k]) && IsContainer(Target(b.value, b.stack[k]))
    {
      ChainPrefix(b.value, p.path, p.sizes, k);
    }
  }

  /** Writing behind a live pointer leaves the vectors on the way as they are. */
  lemma {:induction false} SetKeeps(v: Value, path: seq<nat>, sizes: seq<nat>, x: Value)
    requires Live(v, path, sizes)
    ensures var w := SetAt(v, path, sizes, x);
            && Live(w, path, sizes) && Get(w, path, sizes) == x
            && (IsLastChain(v, path, sizes) ==> IsLastChain(w, path, sizes))
    decreases path
  {
    if path != [] {
      SetKeeps(Child(v, path[0]), path[1..], sizes[1..], x);
    }
  }

  /** One step down from the end of a path. */
  lemma {:induction false} StepDown(v: Value, path: seq<nat>, sizes: seq<nat>)
    requires Live(v, path, sizes) && Count(Get(v, path, sizes)) > 0
    ensures var c := Get(v, path, sizes);
            var n := Count(c);
            && Live(v, path + [n - 1], sizes + [n])
            && Get(v, path + [n - 1], sizes + [n]) == Child(c, n - 1)
            && (IsLastChain(v, path, sizes) ==> IsLastChain(v, path + [n - 1], sizes + [n]))
    decreases path
  {
    var n := Count(Get(v, path, sizes));
    if path == [] {
      assert (path + [n - 1])[1..] == [] && (sizes + [n])[1..] == [];
    } else {
      StepDown(Child(v, path[0]), path[1..], sizes[1..]);
      assert (path + [n - 1])[1..] == path[1..] + [n - 1] && (sizes + [n])[1..] == sizes[1..] + [n];
    }
  }

  /** A push behind the current pointer: the chain stays, and the new element prolongs it. */
  lemma PushExtendsChain(v: Value, p: Pointer, name: seq<byte>, child: Value)
    requires IsLastChain(v, p.path, p.sizes) && LivePointer(v, p) && IsContainer(Target(v, p))
    ensures var w := PushAt(v, p, name, child);
            && IsLastChain(w, p.path, p.sizes) && LivePointer(w, p)
            && Target(w, p) == Pushed(Target(v, p), name, child)
            && IsLastChain(w, BackOf(v, p).path, BackOf(v, p).sizes) && LivePointer(w, BackOf(v, p))
            && Target(w, BackOf(v, p)) == child
  {
    SetKeeps(v, p.path, p.sizes, Pushed(Target(v, p), name, child));
    StepDown(PushAt(v, p, name, child), p.path, p.sizes);
  }

  /** A push leaves the pointers where they are. */
  lemma AddKeepsInv(b: Builder, value: Value)
    requires Inv(b) && b.current.Some?
    ensures var p, r := b.current.value, AddToCurrent(b, value);
            && (r.Some? <==> LivePointer(b.value, p) && IsContainer(Target(b.value, p)))
            && (r.Some? ==> Inv(r.value.0) && r.value.1 == BackOf(b.value, p)
                            && r.value.0 == b.(value := PushAt(b.value, p, b.name, value)))
  {
    HeldPointersAreLive(b);
    if IsContainer(Target(b.value, b.current.value)) {
      PushExtendsChain(b.value, b.current.value, b.name, value);
    }
  }

  /** Opening prolongs the chain by the element pushed. */
  lemma BeginKeepsInv(b: Builder, empty: Value)
    requires Inv(b) && b.current.Some?
    ensures var p, r := b.current.value, BeginCompound(b, empty);
            && (r.Some? <==> LivePointer(b.value, p) && IsContainer(Target(b.value, p)))
            && (r.Some? ==> Inv(r.value))
  {
    HeldPointersAreLive(b);
    var p := b.current.value;
    if IsContainer(Target(b.value, p)) {
      PushExtendsChain(b.value, p, b.name, empty);
      var q := BackOf(b.value, p);
      hide IsLastChain, Live, Get, PushAt, SetAt;
      forall k | 0 <= k <= |b.stack| ensures (b.stack + [p])[k] == Prefix(q, k) {
        assert q.path[..k] == p.path[..k] && q.sizes[..k] == p.sizes[..k];
        assert k == |b.stack| ==> p.path[..k] == p.path && p.sizes[..k] == p.sizes;
      }
    }
  }

  /** Closing goes back to the container around, the stack never being popped empty. */
  lemma EndKeepsInv(b: Builder)
    requires Inv(b) && b.current.Some?
    ensures EndCompound(b).Some? && Inv(EndCompound(b).value)
  {
    var p := b.current.value;
    if p != ROOT {
      var k := |p.path| - 1;
      ChainPrefix(b.value, p.path, p.sizes, k);
      var q := Prefix(p, k);
      assert forall j :: 0 <= j < k ==> Prefix(q, j) == Prefix(p, j);
    }
  }

  /** The invariant is kept, and it leaves only one way to go wrong: a state the source asserts against.
      So the stack is never popped empty and no pointer is followed after its vector has grown. */
  lemma StepKeepsInv(b: Builder, a: Action)
    requires Inv(b)
    ensures Step(b, a).Some? <==> Asserted(b, a)
    ensures Step(b, a).Some? ==> Inv(Step(b, a).value)
  {
    if b.current.Some? {
      HeldPointersAreLive(b);
      EndKeepsInv(b);
      if Payload(a).Some? {
        AddKeepsInv(b, Payload(a).value);
        BeginKeepsInv(b, Payload(a).value);
      }
      hide EndCompound, BeginCompound, AddToCurrent, IsLastChain, Live, Get;
    }
  }

  /** Every reachable state, whatever actions led to it. */
  lemma {:induction false} RunKeepsInv(b: Builder, log: seq<Action>)
    requires Inv(b) && Run(b, log).Some?
    ensures Inv(Run(b, log).value)
    decreases log
  {
    if log != [] {
      StepKeepsInv(b, log[0]);
      RunKeepsInv(Step(b, log[0]).value, log[1..]);
    }
  }

  // ---------------------------------------------------------------- the trees it builds

  /** The actions that a tree stands for. */
  function Events(v: Value): (log: seq<Action>)
    ensures log != []
    decreases v
  {
    match v
    case Null => [NewNull]
    case Bool(b) => [if b then NewTrue else NewFalse]
    case Int(i, u) => [if u then NewUint64(ToUint64(i)) else NewInt(i)]
    case Real(r) => [NewReal(r)]
    case Str(s) => [NewStr(s)]
    case Arr(es) => [BeginArray] + ElemEvents(es) + [EndArray]
    case Obj(ms) => [BeginObj] + MemberEvents(ms) + [EndObj]
  }

  function ElemEvents(es: seq<Value>): seq<Action>
    decreases es
  {
    if es == [] then [] else Events(es[0]) + ElemEvents(es[1..])
  }

  function PairEvents(m: Member): seq<Action>
    decreases m
  {
    [NewName(m.name)] + Events(m.value)
  }

  function MemberEvents(ms: seq<Member>): seq<Action>
    decreases ms
  {
    if ms == [] then [] else PairEvents(ms[0]) + MemberEvents(ms[1..])
  }

  lemma {:induction false} SetSame(v: Value, path: seq<nat>, sizes: seq<nat>)
    requires Live(v, path, sizes)
    ensures SetAt(v, path, sizes, Get(v, path, sizes)) == v
    decreases path
  {
    if path != [] {
      SetSame(Child(v, path[0]), path[1..], sizes[1..]);
    }
  }

  lemma {:induction false} SetTwice(v: Value, path: seq<nat>, sizes: seq<nat>, x: Value, y: Value)
    requires Live(v, path, sizes) && Live(SetAt(v, path, sizes, x), path, sizes)
    ensures SetAt(SetAt(v, path, sizes, x), path, sizes, y) == SetAt(v, path, sizes, y)
    decreases path
  {
    if path != [] {
      SetTwice(Child(v, path[0]), path[1..], sizes[1..], x, y);
    }
  }

  /** Writing to the last element is writing its container with another last element. */
  lemma {:induction false} SetLast(v: Value, path: seq<nat>, sizes: seq<nat>, x: Value)
    requires Live(v, path, sizes) && Count(Get(v, path, sizes)) > 0
    requires Live(v, path + [Count(Get(v, path, sizes)) - 1], sizes + [Count(Get(v, path, sizes))])
    ensures var c := Get(v, path, sizes);
            var n := Count(c);
            SetAt(v, path + [n - 1], sizes + [n], x) == SetAt(v, path, sizes, ReplaceChild(c, n - 1, x))
    decreases path
  {
    var n := Count(Get(v, path, sizes));
    if path == [] {
      assert (path + [n - 1])[1..] == [] && (sizes + [n])[1..] == [];
    } else {
      assert (path + [n - 1])[1..] == path[1..] + [n - 1] && (sizes + [n])[1..] == sizes[1..] + [n];
      SetLast(Child(v, path[0]), path[1..], sizes[1..], x);
    }
  }

  /** A state whose current pointer is an open array or object. */
  predicate Open(b: Builder) {
    && Inv(b) && b.current.Some? && LivePointer(b.value, b.current.value)
    && IsContainer(Target(b.value, b.current.value))
  }

  function Current(b: Builder): Value
    requires Open(b)
  {
    Target(b.value, b.current.value)
  }

  /** `b'` is `b` with the open container replaced, back at the same place. */
  predicate Rewrites(b: Builder, b': Builder, container: Value)
    requires Open(b)
  {
    && b'.value == SetAt(b.value, b.current.value.path, b.current.value.sizes, container)
    && b'.current == b.current && b'.stack == b.stack
  }

  lemma RewriteStaysOpen(b: Builder, b': Builder, container: Value)
    requires Open(b) && IsContainer(container) && Rewrites(b, b', container)
    ensures Open(b') && Current(b') == container
  {
    SetKeeps(b.value, b.current.value.path, b.current.value.sizes, container);
  }

  lemma RewriteTwice(b: Builder, b': Builder, b'': Builder, x: Value, y: Value)
    requires Open(b) && IsContainer(x) && Rewrites(b, b', x) && Open(b') && Rewrites(b', b'', y)
    ensures Rewrites(b, b'', y)
  {
    SetTwice(b.value, b.current.value.path, b.current.value.sizes, x, y);
  }

  lemma RunTwo(b: Builder, b': Builder, x: seq<Action>, y: seq<Action>)
    requires Run(b, x) == Some(b')
    ensures Run(b, x + y) == Run(b', y)
  {
    RunAppend(b, x, y);
  }

  lemma RunOne(b: Builder, a: Action)
    ensures Run(b, [a]) == Step(b, a)
  {
    if Step(b, a).Some? {
      assert Run(Step(b, a).value, [a][1..]) == Step(b, a);
    }
  }

  /** Opening a container inside the current one. */
  lemma BeginInside(b: Builder, a: Action) returns (b': Builder)
    requires Open(b) && (a.BeginObj? || a.BeginArray?)
    ensures Step(b, a) == Some(b') && Open(b') && Current(b') == Payload(a).value
    ensures b'.value == PushAt(b.value, b.current.value, b.name, Payload(a).value)
    ensures b'.current == Some(BackOf(b.value, b.current.value))
    ensures b'.stack == b.stack + [b.current.value]
  {
    StepKeepsInv(b, a);
    b' := Step(b, a).value;
    PushExtendsChain(b.value, b.current.value, b.name, Payload(a).value);
  }

  /** Closing it again: what was built inside is now the last element of the container around it. */
  lemma EndInside(b: Builder, inner: Builder, last: Builder, empty: Value, full: Value, a: Action) returns (b': Builder)
    requires Open(b) && Open(inner) && Open(last) && (a.EndObj? || a.EndArray?)
    requires inner.value == PushAt(b.value, b.current.value, b.name, empty)
    requires inner.current == Some(BackOf(b.value, b.current.value))
    requires inner.stack == b.stack + [b.current.value]
    requires Rewrites(inner, last, full)
    ensures Step(last, a) == Some(b')
    ensures Rewrites(b, b', Pushed(Current(b), b.name, full))
  {
    hide IsLastChain, SetAt, Get, Live;
    var p := b.current.value;
    b' := last.(current := Some(p), stack := b.stack);
    assert last.current.value != ROOT;
    PushThenSet(b.value, p, b.name, empty, full);
  }

  /** Replacing the element just pushed is pushing the replacement. */
  lemma PushThenSet(v: Value, p: Pointer, name: seq<byte>, empty: Value, full: Value)
    requires IsLastChain(v, p.path, p.sizes) && LivePointer(v, p) && IsContainer(Target(v, p))
    ensures var w, q := PushAt(v, p, name, empty), BackOf(v, p);
            LivePointer(w, q) && SetAt(w, q.path, q.sizes, full) == PushAt(v, p, name, full)
  {
    var c := Target(v, p);
    PushExtendsChain(v, p, name, empty);
    hide IsLastChain, SetAt, Get, Live;
    SetLast(PushAt(v, p, name, empty), p.path, p.sizes, full);
    assert ReplaceChild(Pushed(c, name, empty), Count(c), full) == Pushed(c, name, full);
    SetTwice(v, p.path, p.sizes, Pushed(c, name, empty), Pushed(c, name, full));
  }

  /** A scalar has one action, which adds it. */
  lemma BuildsScalar(b: Builder, v: Value) returns (b': Builder)
    requires !v.Arr? && !v.Obj?
    ensures Step(b, Events(v)[0]) == Run(b, Events(v)) && Payload(Events(v)[0]) == Some(v)
    ensures Open(b) ==> Run(b, Events(v)) == Some(b') && Rewrites(b, b', Pushed(Current(b), b.name, v))
    ensures b.current.None? ==> Run(b, Events(v)) == Some(b') && b' == b.(value := v, current := Some(ROOT))
  {
    hide SetAt, Get, Live, IsLastChain, Inv;
    RunOne(b, Events(v)[0]);
    if v.Int? {
      CastOfStored(v);
    }
    b' := if b.current.None? || Open(b) then Step(b, Events(v)[0]).value else b;
  }

  predicate IsEnclosing(begin: Action, end: Action) {
    (begin == BeginArray && end == EndArray) || (begin == BeginObj && end == EndObj)
  }

  /** A run from an opening action to its closing one. */
  lemma RunsEnclosed(b: Builder, inner: Builder, last: Builder, b': Builder,
                     begin: Action, inside: seq<Action>, end: Action)
    requires Step(b, begin) == Some(inner) && Run(inner, inside) == Some(last) && Step(last, end) == Some(b')
    ensures Run(b, [begin] + inside + [end]) == Some(b')
  {
    hide Run, Step;
    RunOne(b, begin);
    RunTwo(b, inner, [begin], inside);
    RunTwo(b, last, [begin] + inside, [end]);
    RunOne(last, end);
  }

  /** The container around, once what is inside has been built. */
  lemma BuildsEnclosed(b: Builder, inner: Builder, last: Builder, v: Value, begin: Action, inside: seq<Action>,
                       end: Action) returns (b': Builder)
    requires Open(b) && Open(inner) && IsContainer(v) && IsEnclosing(begin, end)
    requires Step(b, begin) == Some(inner)
    requires inner.value == PushAt(b.value, b.current.value, b.name, Payload(begin).value)
    requires inner.current == Some(BackOf(b.value, b.current.value))
    requires inner.stack == b.stack + [b.current.value]
    requires Run(inner, inside) == Some(last) && Rewrites(inner, last, v)
    ensures Run(b, [begin] + inside + [end]) == Some(b')
    ensures Rewrites(b, b', Pushed(Current(b), b.name, v))
  {
    hide SetAt, Get, Live, IsLastChain, Inv, Open, Rewrites, Step, Run;
    RewriteStaysOpen(inner, last, v);
    b' := EndInside(b, inner, last, Payload(begin).value, v, end);
    RunsEnclosed(b, inner, last, b', begin, inside, end);
  }

  /** Inside an open container, the actions of a tree append that tree under the register's name, and put
      the machine back where it was. The register may have been overwritten by then: it was used when the
      child was opened. */
  lemma {:induction false} Builds(b: Builder, v: Value) returns (b': Builder)
    requires Open(b)
    ensures Run(b, Events(v)) == Some(b')
    ensures Rewrites(b, b', Pushed(Current(b), b.name, v))
    decreases v, 0
  {
    hide SetAt, Get, Live, IsLastChain, Inv, Rewrites, Step, Run, Open;
    match v {
      case Arr(es) =>
        var inner := BeginInside(b, BeginArray);
        var last := BuildsElems(inner, es);
        assert [] + es == es;
        b' := BuildsEnclosed(b, inner, last, v, BeginArray, ElemEvents(es), EndArray);
      case Obj(ms) =>
        var inner := BeginInside(b, BeginObj);
        var last := BuildsMembers(inner, ms);
        assert [] + ms == ms;
        b' := BuildsEnclosed(b, inner, last, v, BeginObj, MemberEvents(ms), EndObj);
      case _ => b' := BuildsScalar(b, v);
    }
  }

  lemma CastOfStored(v: Value)
    requires v.Int?
    ensures v.isUint64 ==> FromUint64(ToUint64(v.stored)) == v
  {
    CastsAreInverse(ToUint64(v.stored), v.stored);
  }

  lemma {:induction false} BuildsElems(b: Builder, es: seq<Value>) returns (b': Builder)
    requires Open(b) && Current(b).Arr?
    ensures Run(b, ElemEvents(es)) == Some(b')
    ensures Rewrites(b, b', Arr(Current(b).elems + es))
    decreases es
  {
    hide SetAt, Get, Live, IsLastChain, Step, Inv;
    if es == [] {
      b' := b;
      SetSame(b.value, b.current.value.path, b.current.value.sizes);
      assert Current(b).elems + es == Current(b).elems;
    } else {
      var one := Pushed(Current(b), b.name, es[0]);
      var b1 := Builds(b, es[0]);
      RewriteStaysOpen(b, b1, one);
      b' := BuildsElems(b1, es[1..]);
      RunTwo(b, b1, Events(es[0]), ElemEvents(es[1..]));
      assert one.elems + es[1..] == Current(b).elems + es;
      RewriteTwice(b, b1, b', one, Arr(Current(b).elems + es));
    }
  }

  /** The register is set where a name may come. */
  lemma Names(b: Builder, name: seq<byte>)
    requires Open(b) && Current(b).Obj?
    ensures var named := b.(name := name);
            Run(b, [NewName(name)]) == Some(named) && Open(named) && Current(named) == Current(b)
  {
    RunOne(b, NewName(name));
  }

  lemma {:induction false} BuildsMembers(b: Builder, ms: seq<Member>) returns (b': Builder)
    requires Open(b) && Current(b).Obj?
    ensures Run(b, MemberEvents(ms)) == Some(b')
    ensures Rewrites(b, b', Obj(Current(b).members + ms))
    decreases ms
  {
    hide SetAt, Get, Live, IsLastChain, Step, Inv;
    if ms == [] {
      b' := b;
      SetSame(b.value, b.current.value.path, b.current.value.sizes);
      assert Current(b).members + ms == Current(b).members;
    } else {
      var named := b.(name := ms[0].name);
      var one := Pushed(Current(b), ms[0].name, ms[0].value);
      Names(b, ms[0].name);
      var b1 := Builds(named, ms[0].value);
      RunTwo(b, named, [NewName(ms[0].name)], Events(ms[0].value));
      RewriteStaysOpen(b, b1, one);
      b' := BuildsMembers(b1, ms[1..]);
      RunTwo(b, b1, PairEvents(ms[0]), MemberEvents(ms[1..]));
      assert one.members + ms[1..] == Current(b).members + ms;
      RewriteTwice(b, b1, b', one, Obj(Current(b).members + ms));
    }
  }

  lemma BeginsTree(before: Value, begin: Action) returns (inner: Builder)
    requires begin == BeginArray || begin == BeginObj
    ensures Step(Start(before), begin) == Some(inner) && Open(inner) && Current(inner) == Payload(begin).value
    ensures inner.value == Current(inner) && inner.current == Some(ROOT) && inner.stack == []
  {
    inner := Step(Start(before), begin).value;
  }

  /** The root itself is rewritten. */
  lemma EndsTree(inner: Builder, last: Builder, v: Value, end: Action)
    requires Open(inner) && inner.current == Some(ROOT) && inner.stack == [] && Rewrites(inner, last, v)
    requires end == EndArray || end == EndObj
    ensures Step(last, end) == Some(last) && last.value == v && last.current == Some(ROOT) && last.stack == []
  {
  }

  /** From the start, the actions of a tree build exactly that tree, with an empty stack and the current
      pointer on the root. */
  lemma {:induction false} BuildsTree(before: Value, v: Value) returns (b': Builder)
    ensures Run(Start(before), Events(v)) == Some(b')
    ensures b'.value == v && b'.current == Some(ROOT) && b'.stack == []
  {
    hide Step, Run, Open, Rewrites, Inv;
    var b := Start(before);
    match v {
      case Arr(es) =>
        var inner := BeginsTree(before, BeginArray);
        b' := BuildsElems(inner, es);
        assert [] + es == es;
        EndsTree(inner, b', v, EndArray);
        RunsEnclosed(b, inner, b', b', BeginArray, ElemEvents(es), EndArray);
      case Obj(ms) =>
        var inner := BeginsTree(before, BeginObj);
        b' := BuildsMembers(inner, ms);
        assert [] + ms == ms;
        EndsTree(inner, b', v, EndObj);
        RunsEnclosed(b, inner, b', b', BeginObj, MemberEvents(ms), EndObj);
      case _ => b' := BuildsScalar(b, v);
    }
  }
}
