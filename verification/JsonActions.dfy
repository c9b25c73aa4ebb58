/** The object whose methods the parser calls as it goes. */
module JsonActions {
  import opened Bytes
  import opened JsonValue
  import opened JsonBuilder

  class SemanticActions {
    var value: Value
    var current: Option<Pointer>
    var stack: seq<Pointer>
    var name: seq<byte>

    function State(): Builder
      reads this
    {
      Builder(value, current, stack, name)
    }

    constructor (value: Value)
      ensures State() == Start(value)
    {
      this.value := value;
      current := None;
      stack := [];
      name := [];
    }

    method AddFirst(v: Value) returns (p: Pointer)
      requires current == None
      modifies this`value, this`current
      ensures p == ROOT && State() == old(State()).(value := v, current := Some(ROOT))
    {
      value := v;
      current := Some(ROOT);
      p := ROOT;
    }

    /** Returns the address of the element just added. */
    method AddToCurrent(v: Value) returns (p: Pointer)
      requires JsonBuilder.AddToCurrent(State(), v).Some?
      modifies this`value, this`current
      ensures old(JsonBuilder.AddToCurrent(State(), v)) == Some((State(), p))
    {
      if current == None {
        p := AddFirst(v);
      } else {
        var at := current.value;
        p := BackOf(value, at);
        value := PushAt(value, at, name, v);
      }
    }

    method BeginCompound(empty: Value)
      requires IsContainer(empty) && JsonBuilder.BeginCompound(State(), empty).Some?
      modifies this
      ensures old(JsonBuilder.BeginCompound(State(), empty)) == Some(State())
    {
      if current == None {
        var _ := AddFirst(empty);
      } else {
        stack := stack + [current.value];
        var p := AddToCurrent(empty);
        current := Some(p);
      }
    }

    method EndCompound()
      requires JsonBuilder.EndCompound(State()).Some?
      modifies this`current, this`stack
      ensures old(JsonBuilder.EndCompound(State())) == Some(State())
    {
      if current != Some(ROOT) {
        current := Some(stack[|stack| - 1]);
        stack := stack[..|stack| - 1];
      }
    }

    method SetName(name: seq<byte>)
      modifies this`name
      ensures State() == old(State()).(name := name)
    {
      this.name := name;
    }

    method Fire(a: Action)
      requires Step(State(), a).Some?
      modifies this
      ensures old(Step(State(), a)) == Some(State())
    {
      match a
      case BeginObj => BeginCompound(Obj([]));
      case BeginArray => BeginCompound(Arr([]));
      case EndObj => EndCompound();
      case EndArray => EndCompound();
      case NewName(n) => SetName(n);
      case _ =>
        var _ := AddToCurrent(Payload(a).value);
    }

    /** Actions do not influence the parse, so firing them in order is firing them as the parse goes. */
    method FireAll(log: seq<Action>)
      requires Run(State(), log).Some?
      modifies this
      ensures old(Run(State(), log)) == Some(State())
    {
      ghost var start := State();
      var i := 0;
      while i < |log|
        invariant 0 <= i <= |log|
        invariant Run(State(), log[i..]) == Run(start, log)
      {
        assert log[i..][1..] == log[i + 1..];
        Fire(log[i]);
        i := i + 1;
      }
    }
  }
}
