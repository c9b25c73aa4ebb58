/** The task list of a worker: registering, looking up, and one pass over the tasks. */
module Schedule {
  import opened Bytes

  datatype Kind = BlockGenesis | BlockOrTrans

  /** `height` is -1 until it is known; `status` is set by a call on a copy and never written back. */
  datatype Task = Task(kind: Kind, command: int, sequence: int, height: int, status: int)

  const NO_HEIGHT: int := -1

  /** What `getblockcount` answers; an error reads as 0, being text that does not begin with digits. */
  datatype CountReply = Count(n: nat) | RpcError

  function ReadCount(r: CountReply): nat {
    match r
    case Count(n) => n
    case RpcError => 0
  }

  // ---------------------------------------------------------------- one task

  /** The height a follower task is after: its own, or else the one it was registered with. */
  function Wanted(t: Task): int {
    if t.height != NO_HEIGHT then t.height else t.command
  }

  /** The block a follower call processes when the tip is `tip`; None when it has to wait. */
  function FollowerTarget(t: Task, tip: int): Option<int> {
    if Wanted(t) <= 0 then Some(tip) else if Wanted(t) > tip then None else Some(Wanted(t))
  }

  /** The copy after the call. */
  function FollowerDone(t: Task, tip: int): Task {
    match FollowerTarget(t, tip)
    case None => t.(status := 0)
    case Some(h) => t.(height := h, status := 1)
  }

  /** How far a genesis call goes. */
  function GenesisTop(t: Task, tip: int): int {
    if t.command <= 0 then tip else t.command
  }

  function GenesisDone(t: Task, tip: int): Task {
    t.(height := GenesisTop(t, tip))
  }

  /** What the pass writes back to the list: on success the next height. */
  function WriteBack(listed: Task, copy: Task): Task {
    listed.(height := if copy.status == 1 then copy.height + 1 else copy.height)
  }

  function Heights(n: int): (hs: seq<int>)
    ensures |hs| == if n < 0 then 0 else n
    ensures forall i :: 0 <= i < |hs| ==> hs[i] == i
  {
    if n < 0 then [] else seq(n, i => i)
  }

  /** The copy after `call`, and the heights it processed. */
  function Called(t: Task, reply: CountReply): Task {
    if t.kind == BlockGenesis then GenesisDone(t, ReadCount(reply)) else FollowerDone(t, ReadCount(reply))
  }

  function Processed(t: Task, reply: CountReply): seq<int> {
    if t.kind == BlockGenesis then Heights(GenesisTop(t, ReadCount(reply)) + 1)
    else
      match FollowerTarget(t, ReadCount(reply))
      case None => []
      case Some(h) => [h]
  }

  /** The heights one pass over the list processes. */
  function PassProcessed(tasks: seq<Task>, replies: seq<CountReply>): seq<int>
    requires |replies| == |tasks|
  {
    if tasks == [] then []
    else
      var n := |tasks| - 1;
      PassProcessed(tasks[..n], replies[..n]) + Processed(tasks[n], replies[n])
  }

  /** `CFidTask::call` for the genesis pass: every height from 0 to the top, in order. */
  method CallGenesis(t: Task, reply: CountReply) returns (copy: Task, processed: seq<int>)
    ensures copy == GenesisDone(t, ReadCount(reply))
    ensures processed == Heights(GenesisTop(t, ReadCount(reply)) + 1)
  {
    var height := t.command;
    if height <= 0 {
      height := ReadCount(reply);
    }
    copy := t.(height := height);
    processed := [];
    var i := 0;
    while i <= height
      invariant 0 <= i && (i <= height + 1 || i == 0)
      invariant processed == Heights(i)
    {
      processed := processed + [i];
      i := i + 1;
    }
  }

  /** `CFidTask::call` for the follower. */
  method CallFollower(t: Task, reply: CountReply) returns (copy: Task, processed: Option<int>)
    ensures copy == FollowerDone(t, ReadCount(reply))
    ensures processed == FollowerTarget(t, ReadCount(reply))
  {
    copy := t;
    var height := if t.height != NO_HEIGHT then t.height else t.command;
    var tip := ReadCount(reply);
    if height <= 0 {
      height := tip;
    } else if height > tip {
      return copy.(status := 0), None;
    }
    copy := copy.(height := height);
    processed := Some(height);
    copy := copy.(status := 1);
  }

  // ---------------------------------------------------------------- the list

  /** The process-wide sequence counter. */
  class Counter {
    var next: int

    constructor ()
      ensures next == 1
    {
      next := 1;
    }
  }

  const NO_TASK: Task := Task(BlockGenesis, 0, -1, NO_HEIGHT, 0)

  /** `getTask`: the first task with the number, or whatever the loop saw last. */
  function FindTask(tasks: seq<Task>, sequence: int, seen: Task): Task {
    if tasks == [] then seen
    else if tasks[0].sequence == sequence then tasks[0]
    else FindTask(tasks[1..], sequence, tasks[0])
  }

  /** Numbers are handed out once, by the counter. */
  predicate Numbered(tasks: seq<Task>, next: int) {
    && (forall i :: 0 <= i < |tasks| ==> tasks[i].sequence < next)
    && (forall i, j :: 0 <= i < j < |tasks| ==> tasks[i].sequence != tasks[j].sequence)
  }

  /** A registered task is found under its number wherever it stands in the list. */
  lemma {:induction false} FindsRegistered(tasks: seq<Task>, next: int, i: nat, seen: Task)
    requires Numbered(tasks, next) && i < |tasks|
    ensures FindTask(tasks, tasks[i].sequence, seen) == tasks[i]
  {
    if i > 0 {
      assert tasks[0].sequence != tasks[i].sequence;
      assert tasks[1..][i - 1] == tasks[i];
      FindsRegistered(tasks[1..], next, i - 1, tasks[0]);
    }
  }

  class TaskSchedule {
    var tasks: seq<Task>
    const counter: Counter

    constructor (counter: Counter)
      ensures tasks == [] && this.counter == counter
    {
      tasks := [];
      this.counter := counter;
    }

    method RegisterTask(kind: Kind, command: int) returns (sequence: int)
      requires Numbered(tasks, counter.next)
      modifies this, counter
      ensures sequence == old(counter.next) && counter.next == sequence + 1
      ensures tasks == old(tasks) + [Task(kind, command, sequence, NO_HEIGHT, 0)]
      ensures Numbered(tasks, counter.next)
      ensures FindTask(tasks, sequence, NO_TASK) == Task(kind, command, sequence, NO_HEIGHT, 0)
    {
      sequence := counter.next;
      counter.next := counter.next + 1;
      tasks := tasks + [Task(kind, command, sequence, NO_HEIGHT, 0)];
      FindsRegistered(tasks, counter.next, |tasks| - 1, NO_TASK);
    }

    method GetTask(sequence: int) returns (t: Task)
      ensures t == FindTask(tasks, sequence, NO_TASK)
    {
      t := NO_TASK;
      var i := 0;
      while i < |tasks|
        invariant 0 <= i <= |tasks|
        invariant FindTask(tasks[i..], sequence, t) == FindTask(tasks, sequence, NO_TASK)
      {
        assert tasks[i..][0] == tasks[i] && tasks[i..][1..] == tasks[i + 1..];
        t := tasks[i];
        if t.sequence == sequence {
          return tasks[i];
        }
        i := i + 1;
      }
    }

    /** One pass of `work`: every task is called on a copy, and only its height is written back. */
    method WorkPass(replies: seq<CountReply>) returns (processed: seq<int>)
      requires |replies| == |tasks|
      modifies this
      ensures |tasks| == |old(tasks)|
      ensures forall i :: 0 <= i < |tasks| ==> tasks[i] == WriteBack(old(tasks)[i], Called(old(tasks)[i], replies[i]))
      ensures processed == PassProcessed(old(tasks), replies)
    {
      processed := [];
      var i := 0;
      while i < |tasks|
        invariant 0 <= i <= |tasks| == |old(tasks)|
        invariant forall k :: i <= k < |tasks| ==> tasks[k] == old(tasks)[k]
        invariant forall k :: 0 <= k < i ==> tasks[k] == WriteBack(old(tasks)[k], Called(old(tasks)[k], replies[k]))
        invariant processed == PassProcessed(old(tasks)[..i], replies[..i])
      {
        var copy, heights := Call(tasks[i], replies[i]);
        if copy.status == 1 {
          tasks := tasks[i := tasks[i].(height := copy.height + 1)];
        } else {
          tasks := tasks[i := tasks[i].(height := copy.height)];
        }
        assert old(tasks)[..i + 1][..i] == old(tasks)[..i] && replies[..i + 1][..i] == replies[..i];
        processed := processed + heights;
        i := i + 1;
      }
      assert old(tasks)[..i] == old(tasks) && replies[..i] == replies;
    }

    static method Call(t: Task, reply: CountReply) returns (copy: Task, processed: seq<int>)
      ensures copy == Called(t, reply) && processed == Processed(t, reply)
    {
      if t.kind == BlockGenesis {
        copy, processed := CallGenesis(t, reply);
      } else {
        var one;
        copy, one := CallFollower(t, reply);
        processed := if one.Some? then [one.value] else [];
      }
    }
  }
}
