/** JSON values with vector objects: what a `Value` holds, how it compares, and its uint64 flag. */
module JsonValue {
  import opened Bytes

  const TWO63: int := 0x8000_0000_0000_0000
  const TWO64: int := 0x1_0000_0000_0000_0000

  type int64 = x: int | -0x8000_0000_0000_0000 <= x < 0x8000_0000_0000_0000
  type uint64 = x: int | 0 <= x < 0x1_0000_0000_0000_0000

  /** `Int` keeps what the variant keeps: a signed 64-bit pattern and, beside it, the uint64 flag. */
  datatype Value =
    | Null
    | Bool(b: bool)
    | Int(stored: int64, isUint64: bool)
    | Real(r: real)
    | Str(s: seq<byte>)
    | Arr(elems: seq<Value>)
    | Obj(members: seq<Member>)

  datatype Member = Member(name: seq<byte>, value: Value)

  /** `static_cast<int64_t>` of a uint64. */
  function ToInt64(u: uint64): int64 {
    if u < TWO63 then u else u - TWO64
  }

  /** `static_cast<uint64_t>` of an int64. */
  function ToUint64(i: int64): uint64 {
    if i < 0 then i + TWO64 else i
  }

  lemma CastsAreInverse(u: uint64, i: int64)
    ensures ToUint64(ToInt64(u)) == u
    ensures ToInt64(ToUint64(i)) == i
  {
  }

  function FromUint64(u: uint64): Value {
    Int(ToInt64(u), true)
  }

  /** `get_uint64`; None is the type error. */
  function GetUint64(v: Value): Option<uint64> {
    if v.Int? then Some(ToUint64(v.stored)) else None
  }

  /** `get_real`; the flag decides how an integer is widened. */
  function GetReal(v: Value): Option<real> {
    match v
    case Int(i, u) => Some(if u then ToUint64(i) as real else i as real)
    case Real(r) => Some(r)
    case _ => None
  }

  /** `operator==`: same type and same variant contents; the uint64 flag is not compared. */
  predicate Eq(a: Value, b: Value)
    decreases a
  {
    match a
    case Null => b.Null?
    case Bool(x) => b.Bool? && x == b.b
    case Int(x, _) => b.Int? && x == b.stored
    case Real(x) => b.Real? && x == b.r
    case Str(x) => b.Str? && x == b.s
    case Arr(xs) =>
      && b.Arr? && |xs| == |b.elems|
      && (forall i :: 0 <= i < |xs| ==> Eq(xs[i], b.elems[i]))
    case Obj(ms) =>
      && b.Obj? && |ms| == |b.members|
      && (forall i :: 0 <= i < |ms| ==> ms[i].name == b.members[i].name && Eq(ms[i].value, b.members[i].value))
  }

  /** The value with every uint64 flag cleared. */
  function Unflagged(v: Value): (u: Value)
    ensures (u.Arr? <==> v.Arr?) && (v.Arr? ==> |u.elems| == |v.elems|)
    ensures (u.Obj? <==> v.Obj?) && (v.Obj? ==> |u.members| == |v.members|)
    decreases v
  {
    match v
    case Int(i, _) => Int(i, false)
    case Arr(es) => Arr(seq(|es|, i requires 0 <= i < |es| => Unflagged(es[i])))
    case Obj(ms) => Obj(seq(|ms|, i requires 0 <= i < |ms| => Member(ms[i].name, Unflagged(ms[i].value))))
    case _ => v
  }

  /** Values are equal exactly when they are the same but for their flags; so equality is an equivalence. */
  lemma {:induction false} EqIffSameButFlags(a: Value, b: Value)
    ensures Eq(a, b) <==> Unflagged(a) == Unflagged(b)
    decreases a
  {
    match a {
      case Arr(xs) =>
        if b.Arr? && |xs| == |b.elems| {
          forall i | 0 <= i < |xs| ensures Eq(xs[i], b.elems[i]) <==> Unflagged(xs[i]) == Unflagged(b.elems[i]) {
            EqIffSameButFlags(xs[i], b.elems[i]);
          }
          SameElems(xs, b.elems);
        }
      case Obj(ms) =>
        if b.Obj? && |ms| == |b.members| {
          forall i | 0 <= i < |ms|
            ensures Eq(ms[i].value, b.members[i].value) <==> Unflagged(ms[i].value) == Unflagged(b.members[i].value)
          {
            EqIffSameButFlags(ms[i].value, b.members[i].value);
          }
          SameMembers(ms, b.members);
        }
      case _ =>
    }
  }

  lemma SameElems(xs: seq<Value>, ys: seq<Value>)
    requires |xs| == |ys|
    ensures Unflagged(Arr(xs)) == Unflagged(Arr(ys)) <==>
            (forall i :: 0 <= i < |xs| ==> Unflagged(xs[i]) == Unflagged(ys[i]))
  {
    var us, vs := Unflagged(Arr(xs)).elems, Unflagged(Arr(ys)).elems;
    assert forall i :: 0 <= i < |xs| ==> us[i] == Unflagged(xs[i]) && vs[i] == Unflagged(ys[i]);
    if forall i :: 0 <= i < |xs| ==> Unflagged(xs[i]) == Unflagged(ys[i]) {
      assert us == vs;
    }
  }

  lemma SameMembers(ms: seq<Member>, ns: seq<Member>)
    requires |ms| == |ns|
    ensures Unflagged(Obj(ms)) == Unflagged(Obj(ns)) <==>
            (forall i :: 0 <= i < |ms| ==>
               ms[i].name == ns[i].name && Unflagged(ms[i].value) == Unflagged(ns[i].value))
  {
    var us, vs := Unflagged(Obj(ms)).members, Unflagged(Obj(ns)).members;
    assert forall i :: 0 <= i < |ms| ==> us[i] == Member(ms[i].name, Unflagged(ms[i].value));
    assert forall i :: 0 <= i < |ns| ==> vs[i] == Member(ns[i].name, Unflagged(ns[i].value));
    if forall i :: 0 <= i < |ms| ==> ms[i].name == ns[i].name && Unflagged(ms[i].value) == Unflagged(ns[i].value) {
      assert us == vs;
    }
  }
}
