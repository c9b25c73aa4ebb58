/** The main thread and the two workers, step by step and in any order, from the start of the program. */
module Following {
  import opened Bytes
  import opened Schedule

  /** One block fetched and handed to the database: its height, the tip read before, and whether the fetch
      gave a block that can be stored. */
  datatype Entry = Entry(height: int, tip: int, stored: bool)

  datatype MainPc =
    | Polling                    // waiting for the genesis task's height
    | Registering                // about to register and start the follower
    | Watching                   // looking at the follower's height now and then

  datatype GenesisPc =
    | NotRun                     // the database was not empty
    | Counting                   // about to ask for the block count
    | Looping(next: int, top: int)
    | Finishing(copy: Task)      // call returned, height not yet written back
    | Finished

  datatype FollowerPc =
    | Off
    | Top                        // about to copy the task
    | Calling(copy: Task)        // about to ask for the block count
    | Fetching(copy: Task, target: int, tip: int)
    | Returning(copy: Task)      // call returned, height not yet written back

  datatype System = System(main: MainPc, height: int, genesisTask: Task, genesis: GenesisPc,
                           followerTask: Option<Task>, follower: FollowerPc, log: seq<Entry>)

  datatype Event =
    | Poll | Register | Watch
    | GenesisCount(reply: CountReply) | GenesisBlock(stored: bool) | GenesisReturn
    | FollowerCopy | FollowerCount(reply: CountReply) | FollowerBlock(stored: bool) | FollowerReturn

  /** `main` up to the point where the threads run, on a database with `rows` blocks: an empty one starts the
      genesis pass, otherwise the height to go on from is the row count plus one. */
  function Initial(rows: nat): System {
    var task := Task(BlockGenesis, 0, 1, NO_HEIGHT, 0);
    if rows > 0 then System(Registering, rows + 1, task, NotRun, None, Off, [])
    else System(Polling, 0, task, Counting, None, Off, [])
  }

  /** One step of one thread; None when the thread is not at that point. */
  function Next(s: System, e: Event): Option<System> {
    match e
    case Poll =>
      if s.main != Polling then None
      else if s.genesisTask.height == NO_HEIGHT then Some(s)
      else Some(s.(main := Registering, height := s.genesisTask.height + 1))
    case Register =>
      if s.main != Registering then None
      else
        var sequence := if s.genesis.NotRun? then 1 else 2;
        Some(s.(main := Watching, follower := Top,
                followerTask := Some(Task(BlockOrTrans, s.height, sequence, NO_HEIGHT, 0))))
    case Watch =>
      if s.main != Watching || s.followerTask.None? then None
      else if s.followerTask.value.height == NO_HEIGHT then Some(s)
      else Some(s.(height := s.followerTask.value.height))
    case GenesisCount(reply) =>
      if s.genesis != Counting then None
      else Some(s.(genesis := Looping(0, GenesisTop(s.genesisTask, ReadCount(reply)))))
    case GenesisBlock(stored) =>
      if !s.genesis.Looping? || s.genesis.next > s.genesis.top then None
      else Some(s.(log := s.log + [Entry(s.genesis.next, s.genesis.top, stored)],
                   genesis := Looping(s.genesis.next + 1, s.genesis.top)))
    case GenesisReturn =>
      if s.genesis.Looping? && s.genesis.next > s.genesis.top then
        Some(s.(genesis := Finishing(s.genesisTask.(height := s.genesis.top))))
      else if s.genesis.Finishing? then
        Some(s.(genesis := Finished, genesisTask := WriteBack(s.genesisTask, s.genesis.copy)))
      else None
    case FollowerCopy =>
      if s.follower != Top || s.followerTask.None? then None
      else Some(s.(follower := Calling(s.followerTask.value)))
    case FollowerCount(reply) =>
      if !s.follower.Calling? then None
      else
        var copy, tip := s.follower.copy, ReadCount(reply);
        var target := FollowerTarget(copy, tip);
        if target.None? then Some(s.(follower := Returning(FollowerDone(copy, tip))))
        else Some(s.(follower := Fetching(copy, target.value, tip)))
    case FollowerBlock(stored) =>
      if !s.follower.Fetching? then None
      else
        var f := s.follower;
        Some(s.(log := s.log + [Entry(f.target, f.tip, stored)], follower := Returning(FollowerDone(f.copy, f.tip))))
    case FollowerReturn =>
      if !s.follower.Returning? || s.followerTask.None? then None
      else Some(s.(follower := Top, followerTask := Some(WriteBack(s.followerTask.value, s.follower.copy))))
  }

  function Exec(s: System, es: seq<Event>): Option<System>
    decreases es
  {
    if es == [] then Some(s)
    else
      match Next(s, es[0])
      case None => None
      case Some(s') => Exec(s', es[1..])
  }

  ghost predicate Reachable(rows: nat, s: System) {
    exists es :: Exec(Initial(rows), es) == Some(s)
  }

  // ---------------------------------------------------------------- what every step keeps

  /** The first height this run processes. */
  function First(rows: nat): int {
    if rows == 0 then 0 else rows + 1
  }

  /** The height that comes next. */
  function NextHeight(rows: nat, s: System): int {
    First(rows) + |s.log|
  }

  /** No gap and no repeat, and never beyond the tip that was read. */
  predicate Contiguous(rows: nat, log: seq<Entry>) {
    forall k :: 0 <= k < |log| ==> log[k].height == First(rows) + k <= log[k].tip
  }

  predicate GenesisInv(rows: nat, s: System) {
    && s.genesisTask.command == 0 && s.genesisTask.status == 0
    && match s.genesis
       case NotRun => rows > 0
       case Counting => rows == 0 && s.log == [] && s.genesisTask.height == NO_HEIGHT
       case Looping(next, top) =>
         rows == 0 && 0 <= top && 0 <= next <= top + 1 && |s.log| == next && s.genesisTask.height == NO_HEIGHT
       case Finishing(copy) =>
         rows == 0 && copy == s.genesisTask.(height := |s.log| - 1) && |s.log| > 0 && s.genesisTask.height == NO_HEIGHT
       case Finished => rows == 0 && s.genesisTask.height >= 0
  }

  predicate MainInv(rows: nat, s: System) {
    match s.main
    case Polling =>
      && rows == 0 && s.followerTask.None? && s.follower.Off?
      && (s.genesis.Finished? ==> |s.log| == s.genesisTask.height + 1)
    case Registering => s.height == NextHeight(rows, s) && s.height > 0 && s.followerTask.None? && s.follower.Off?
                        && (s.genesis.NotRun? || s.genesis.Finished?)
    case Watching => s.followerTask.Some? && !s.follower.Off? && (s.genesis.NotRun? || s.genesis.Finished?)
  }

  /** Whatever the follower is about to do, it is about the next height. */
  predicate FollowerInv(rows: nat, s: System) {
    s.followerTask.Some? ==>
      var t := s.followerTask.value;
      && t.kind == BlockOrTrans && t.status == 0
      && match s.follower
         case Off => false
         case Top => Wanted(t) == NextHeight(rows, s) > 0
         case Calling(copy) => copy == t && Wanted(t) == NextHeight(rows, s) > 0
         case Fetching(copy, target, tip) => copy == t && 0 < Wanted(t) == target == NextHeight(rows, s) <= tip
         case Returning(copy) =>
           if copy.status == 1 then 0 < copy.height == NextHeight(rows, s) - 1
           else copy == t && Wanted(t) == NextHeight(rows, s) > 0
  }

  predicate Inv(rows: nat, s: System) {
    Contiguous(rows, s.log) && GenesisInv(rows, s) && MainInv(rows, s) && FollowerInv(rows, s)
  }

  lemma StepKeepsContiguous(rows: nat, s: System, e: Event)
    requires Inv(rows, s) && Next(s, e).Some?
    ensures Contiguous(rows, Next(s, e).value.log)
  {
  }

  lemma StepKeepsGenesis(rows: nat, s: System, e: Event)
    requires Inv(rows, s) && Next(s, e).Some?
    ensures GenesisInv(rows, Next(s, e).value)
  {
    hide FollowerInv, Contiguous, FollowerTarget, FollowerDone;
  }

  lemma StepKeepsMain(rows: nat, s: System, e: Event)
    requires Inv(rows, s) && Next(s, e).Some?
    ensures MainInv(rows, Next(s, e).value)
  {
    hide FollowerInv, Contiguous, FollowerTarget, FollowerDone;
  }

  lemma StepKeepsFollower(rows: nat, s: System, e: Event)
    requires Inv(rows, s) && Next(s, e).Some?
    ensures FollowerInv(rows, Next(s, e).value)
  {
    hide Contiguous;
  }

  lemma StepKeepsInv(rows: nat, s: System, e: Event)
    requires Inv(rows, s) && Next(s, e).Some?
    ensures Inv(rows, Next(s, e).value)
  {
    StepKeepsContiguous(rows, s, e);
    StepKeepsGenesis(rows, s, e);
    StepKeepsMain(rows, s, e);
    StepKeepsFollower(rows, s, e);
    hide Contiguous, GenesisInv, MainInv, FollowerInv, Next;
  }

  lemma {:induction false} RunKeepsInv(rows: nat, s: System, es: seq<Event>)
    requires Inv(rows, s) && Exec(s, es).Some?
    ensures Inv(rows, Exec(s, es).value)
    decreases es
  {
    if es != [] {
      StepKeepsInv(rows, s, es[0]);
      RunKeepsInv(rows, Next(s, es[0]).value, es[1..]);
    }
  }

  lemma ReachableIsInv(rows: nat, s: System)
    requires Reachable(rows, s)
    ensures Inv(rows, s)
  {
    var es :| Exec(Initial(rows), es) == Some(s);
    assert Inv(rows, Initial(rows));
    RunKeepsInv(rows, Initial(rows), es);
  }

  // ---------------------------------------------------------------- what that means

  /** On every interleaving the heights processed are consecutive from the first one, each at most the tip read
      just before; error replies only make the follower wait. */
  lemma ProcessedInOrder(rows: nat, s: System, k: nat)
    requires Reachable(rows, s) && k < |s.log|
    ensures s.log[k].height == First(rows) + k <= s.log[k].tip
  {
    ReachableIsInv(rows, s);
  }

  /** When the follower is registered, the genesis pass is over and has processed every height below the one
      handed over. */
  lemma HandoverIsComplete(s: System, s': System)
    requires Reachable(0, s) && Next(s, Register) == Some(s')
    ensures s.genesis == Finished
    ensures s'.followerTask.value.command == |s.log|
    ensures forall h :: 0 <= h < s'.followerTask.value.command ==> s.log[h].height == h
  {
    ReachableIsInv(0, s);
  }

  /** Heights stored before (0 up to the row count) and processed since, without a gap. */
  predicate NoGap(rows: nat, log: seq<Entry>) {
    forall k :: 0 <= k < |log| ==> log[k].height == rows + k
  }

  /** That holds exactly of a start on an empty database. A restart goes on from the row count plus one, so the
      block whose height is the row count is never processed. */
  lemma NoGapIffFresh(rows: nat, s: System)
    requires Reachable(rows, s)
    ensures s.log != [] ==> (NoGap(rows, s.log) <==> rows == 0)
    ensures rows > 0 ==> forall k :: 0 <= k < |s.log| ==> s.log[k].height != rows
  {
    ReachableIsInv(rows, s);
    assert s.log != [] ==> s.log[0].height == First(rows) + 0;
  }

  /** A block of that height has been stored. */
  predicate Stored(log: seq<Entry>, h: int) {
    exists k :: 0 <= k < |log| && log[k].height == h && log[k].stored
  }

  lemma StepExtendsLog(s: System, e: Event)
    requires Next(s, e).Some?
    ensures var l := Next(s, e).value.log;
            && s.log <= l && |l| <= |s.log| + 1
            && ((exists k :: |s.log| <= k < |l| && !l[k].stored) <==> Fails(e))
  {
    var l := Next(s, e).value.log;
    if Fails(e) {
      assert !l[|s.log|].stored;
    }
  }

  /** A fetch without a block that can be stored. */
  predicate Fails(e: Event) {
    e == GenesisBlock(false) || e == FollowerBlock(false)
  }

  /** A run only appends, and what it appends is stored unless a fetch of the run fails. */
  lemma {:induction false} RunExtendsLog(s: System, es: seq<Event>)
    requires Exec(s, es).Some?
    ensures var l := Exec(s, es).value.log;
            && s.log <= l
            && ((exists k :: |s.log| <= k < |l| && !l[k].stored) <==> (exists i :: 0 <= i < |es| && Fails(es[i])))
    decreases es
  {
    if es != [] {
      StepExtendsLog(s, es[0]);
      var t := Next(s, es[0]).value;
      RunExtendsLog(t, es[1..]);
      var l := Exec(s, es).value.log;
      assert forall i :: 1 <= i < |es| ==> es[i] == es[1..][i - 1];
      assert forall k :: |s.log| <= k < |t.log| ==> l[k] == t.log[k];
      assert (exists k :: |t.log| <= k < |l| && !l[k].stored) <==> (exists i :: 1 <= i < |es| && Fails(es[i])) by {
        if i :| 1 <= i < |es| && Fails(es[i]) {
          assert Fails(es[1..][i - 1]);
        }
      }
    }
  }

  /** What becomes of a height once it has been processed is settled: it is stored, then and ever after, exactly
      when that one fetch gave a block. A failed fetch is never made good. */
  lemma FailedFetchIsNotRepeated(rows: nat, s: System, more: seq<Event>, j: nat)
    requires Reachable(rows, s) && Exec(s, more).Some? && j < |s.log|
    ensures Stored(Exec(s, more).value.log, s.log[j].height) <==> s.log[j].stored
  {
    ReachableIsInv(rows, s);
    RunKeepsInv(rows, s, more);
    RunExtendsLog(s, more);
    var l := Exec(s, more).value.log;
    assert l[j] == s.log[j];
    assert forall k :: 0 <= k < |l| ==> l[k].height == First(rows) + k;
  }

  /** Every height up to the next one is stored exactly when no fetch of the run failed. */
  lemma AllStoredIffNoFailure(rows: nat, es: seq<Event>)
    requires Exec(Initial(rows), es).Some?
    ensures var s := Exec(Initial(rows), es).value;
            (forall h :: First(rows) <= h < NextHeight(rows, s) ==> Stored(s.log, h))
            <==> (forall i :: 0 <= i < |es| ==> !Fails(es[i]))
  {
    var s := Exec(Initial(rows), es).value;
    assert Reachable(rows, s);
    ReachableIsInv(rows, s);
    RunExtendsLog(Initial(rows), es);
    assert forall k :: 0 <= k < |s.log| ==> s.log[k].height == First(rows) + k;
    if k :| 0 <= k < |s.log| && !s.log[k].stored {
      assert !Stored(s.log, First(rows) + k);
    } else {
      forall h | First(rows) <= h < NextHeight(rows, s) ensures Stored(s.log, h) {
        assert s.log[h - First(rows)].stored;
      }
    }
  }

  /** And a run can miss one: the first block of all, say. */
  lemma AHeightCanBeMissed()
    ensures var s := Exec(Initial(0), [GenesisCount(Count(0)), GenesisBlock(false)]);
            s.Some? && NextHeight(0, s.value) == 1 && !Stored(s.value.log, 0)
  {
    var es := [GenesisCount(Count(0)), GenesisBlock(false)];
    var a := Next(Initial(0), es[0]).value;
    assert es[1..] == [GenesisBlock(false)] && es[1..][1..] == [];
    assert Exec(a, es[1..]) == Next(a, GenesisBlock(false));
    AllStoredIffNoFailure(0, es);
  }

  /** The follower gets on: whenever it is at the top of its loop and the next count is not below the next height,
      one round processes exactly that height. */
  lemma FollowerProgresses(rows: nat, s: System, reply: CountReply, stored: bool)
    requires Reachable(rows, s) && s.follower == Top && ReadCount(reply) >= NextHeight(rows, s)
    ensures var round := [FollowerCopy, FollowerCount(reply), FollowerBlock(stored), FollowerReturn];
            var r := Exec(s, round);
            && r.Some? && r.value.follower == Top
            && r.value.log == s.log + [Entry(NextHeight(rows, s), ReadCount(reply), stored)]
  {
    ReachableIsInv(rows, s);
    var round := [FollowerCopy, FollowerCount(reply), FollowerBlock(stored), FollowerReturn];
    var a := Next(s, round[0]).value;
    var b := Next(a, round[1]).value;
    var c := Next(b, round[2]).value;
    var d := Next(c, round[3]).value;
    assert Exec(d, []) == Some(d);
    assert round[1..][1..][1..][1..] == [];
    assert round[1..][0] == round[1] && round[1..][1..][0] == round[2] && round[1..][1..][1..][0] == round[3];
    assert Exec(c, round[1..][1..][1..]) == Some(d);
    assert Exec(b, round[1..][1..]) == Some(d);
    assert Exec(a, round[1..]) == Some(d);
  }

  /** And otherwise, an error reply included, the round changes nothing. */
  lemma FollowerWaits(rows: nat, s: System, reply: CountReply)
    requires Reachable(rows, s) && s.follower == Top && ReadCount(reply) < NextHeight(rows, s)
    ensures Exec(s, [FollowerCopy, FollowerCount(reply), FollowerReturn]) == Some(s)
  {
    ReachableIsInv(rows, s);
    var round := [FollowerCopy, FollowerCount(reply), FollowerReturn];
    var a := Next(s, round[0]).value;
    var b := Next(a, round[1]).value;
    var c := Next(b, round[2]).value;
    assert Exec(c, []) == Some(c);
    assert round[1..][1..][1..] == [];
    assert round[1..][0] == round[1] && round[1..][1..][0] == round[2];
    assert Exec(b, round[1..][1..]) == Some(c);
    assert Exec(a, round[1..]) == Some(c);
  }

  // ---------------------------------------------------------------- the genesis pass, run through

  /** The genesis pass's fetches, and whether each gives a block that can be stored. */
  function Blocks(stored: seq<bool>): (es: seq<Event>)
    ensures |es| == |stored|
  {
    if stored == [] then [] else [GenesisBlock(stored[0])] + Blocks(stored[1..])
  }

  lemma {:induction false} ExecConcat(s: System, a: seq<Event>, b: seq<Event>)
    requires Exec(s, a).Some?
    ensures Exec(s, a + b) == Exec(Exec(s, a).value, b)
    decreases a
  {
    if a == [] {
      assert a + b == b;
    } else {
      assert (a + b)[1..] == a[1..] + b;
      ExecConcat(Next(s, a[0]).value, a[1..], b);
    }
  }

  lemma {:induction false} BlocksRun(s: System, stored: seq<bool>)
    requires s.genesis.Looping? && s.genesis.next + |stored| == s.genesis.top + 1
    ensures var r := Exec(s, Blocks(stored));
            && r.Some? && r.value == s.(genesis := Looping(s.genesis.top + 1, s.genesis.top), log := r.value.log)
            && |r.value.log| == |s.log| + |stored|
            && (forall k :: 0 <= k < |s.log| ==> r.value.log[k] == s.log[k])
            && (forall k :: |s.log| <= k < |r.value.log| ==>
                  r.value.log[k] == Entry(s.genesis.next + k - |s.log|, s.genesis.top, stored[k - |s.log|]))
    decreases stored
  {
    if stored != [] {
      var t := Next(s, GenesisBlock(stored[0])).value;
      assert Blocks(stored)[1..] == Blocks(stored[1..]);
      BlocksRun(t, stored[1..]);
      assert t.log[|s.log|] == Entry(s.genesis.next, s.genesis.top, stored[0]);
    }
  }

  /** The steps of the genesis worker, run to the end, do what the task's call does and the pass writes back,
      whichever fetches fail. */
  lemma GenesisStepsAreTheCall(reply: CountReply, stored: seq<bool>)
    requires |stored| == ReadCount(reply) + 1
    ensures var s := Initial(0);
            var es := [GenesisCount(reply)] + Blocks(stored) + [GenesisReturn, GenesisReturn];
            var r := Exec(s, es);
            && r.Some? && r.value.genesis == Finished
            && r.value.genesisTask == WriteBack(s.genesisTask, Called(s.genesisTask, reply))
            && |r.value.log| == |Processed(s.genesisTask, reply)|
            && forall k :: 0 <= k < |r.value.log| ==>
                 r.value.log[k] == Entry(Processed(s.genesisTask, reply)[k], ReadCount(reply), stored[k])
  {
    hide Exec;
    var s, count := Initial(0), [GenesisCount(reply)];
    var a := Next(s, GenesisCount(reply)).value;
    OneStep(s, GenesisCount(reply));
    BlocksRun(a, stored);
    var b := Exec(a, Blocks(stored)).value;
    ExecConcat(s, count, Blocks(stored));
    TwoSteps(b, GenesisReturn, GenesisReturn);
    ExecConcat(s, count + Blocks(stored), [GenesisReturn, GenesisReturn]);
  }

  lemma OneStep(s: System, e: Event)
    requires Next(s, e).Some?
    ensures Exec(s, [e]) == Next(s, e)
  {
    assert [e][1..] == [];
  }

  lemma TwoSteps(s: System, d: Event, e: Event)
    requires Next(s, d).Some? && Next(Next(s, d).value, e).Some?
    ensures Exec(s, [d, e]) == Next(Next(s, d).value, e)
  {
    hide Next;
    assert [d, e][1..] == [e];
    OneStep(Next(s, d).value, e);
  }

  // ---------------------------------------------------------------- a follower's round

  lemma ExecStep(s: System, e: Event, es: seq<Event>)
    requires Next(s, e).Some?
    ensures Exec(s, [e] + es) == Exec(Next(s, e).value, es)
  {
    assert ([e] + es)[1..] == es;
  }

  function FollowerRound(t: Task, reply: CountReply, stored: bool): seq<Event> {
    [FollowerCopy] + ([FollowerCount(reply)]
      + ((if FollowerTarget(t, ReadCount(reply)).None? then [] else [FollowerBlock(stored)]) + ([FollowerReturn] + [])))
  }

  /** The steps of one round of the follower do what one pass of the worker's loop does: the listed task becomes
      what the pass writes back, and the heights logged are those the call processes. */
  lemma FollowerStepsAreThePass(s: System, reply: CountReply, stored: bool)
    requires s.follower == Top && s.followerTask.Some? && s.followerTask.value.kind == BlockOrTrans
    ensures var t := s.followerTask.value;
            var r := Exec(s, FollowerRound(t, reply, stored));
            && r.Some? && r.value.follower == Top
            && r.value.followerTask == Some(WriteBack(t, Called(t, reply)))
            && |r.value.log| == |s.log| + |Processed(t, reply)|
            && (forall k :: 0 <= k < |s.log| ==> r.value.log[k] == s.log[k])
            && (forall k :: |s.log| <= k < |r.value.log| ==>
                  r.value.log[k] == Entry(Processed(t, reply)[k - |s.log|], ReadCount(reply), stored))
  {
    var t, back := s.followerTask.value, [FollowerReturn] + [];
    var a := Next(s, FollowerCopy).value;
    var b := Next(a, FollowerCount(reply)).value;
    if FollowerTarget(t, ReadCount(reply)).None? {
      assert [] + back == back;
      ExecStep(a, FollowerCount(reply), [] + back);
      ExecStep(b, FollowerReturn, []);
      ExecStep(s, FollowerCopy, [FollowerCount(reply)] + ([] + back));
    } else {
      var c := Next(b, FollowerBlock(stored)).value;
      ExecStep(c, FollowerReturn, []);
      ExecStep(b, FollowerBlock(stored), back);
      ExecStep(a, FollowerCount(reply), [FollowerBlock(stored)] + back);
      ExecStep(s, FollowerCopy, [FollowerCount(reply)] + ([FollowerBlock(stored)] + back));
    }
  }
}
