/** drbdadm's deferred commands: queues by stage, run in order, with the resources that failed a
    prerequisite skipped. */
module Deferred {

  // enum drbd_cfg_stage
  const CFG_PREREQ: nat := 0
  const CFG_RESOURCE: nat := 1
  const CFG_DISK_PREREQ: nat := 2
  const CFG_DISK: nat := 3
  const CFG_NET_PREREQ: nat := 4
  const CFG_NET: nat := 5
  const CFG_LAST: nat := 6

  /** A command for a resource object; commands are numbered in the order they are scheduled. */
  datatype Cmd = Cmd(res: nat, id: nat)

  datatype Entry = Entry(stage: nat, cmd: Cmd)

  // ---- one stage ----
  // outcome gives the return value of each command, by its number; a run may see any outcomes.

  /** Resources to skip after these commands. */
  function SkipAfter(cmds: seq<Cmd>, stage: nat, skip: set<nat>, outcome: nat -> int): set<nat> {
    if cmds == [] then skip
    else
      var (before, d) := (SkipAfter(cmds[..|cmds| - 1], stage, skip, outcome), cmds[|cmds| - 1]);
      if d.res !in before && outcome(d.id) != 0 && (stage == CFG_PREREQ || stage == CFG_DISK_PREREQ)
      then before + {d.res} else before
  }

  /** The commands that are executed, in order. */
  function Executed(cmds: seq<Cmd>, stage: nat, skip: set<nat>, outcome: nat -> int): seq<Entry> {
    if cmds == [] then []
    else
      var (init, d) := (cmds[..|cmds| - 1], cmds[|cmds| - 1]);
      Executed(init, stage, skip, outcome)
      + if d.res in SkipAfter(init, stage, skip, outcome) then [] else [Entry(stage, d)]
  }

  /** The largest return value, at least 0. */
  function StageResult(cmds: seq<Cmd>, stage: nat, skip: set<nat>, outcome: nat -> int): (rv: int)
    ensures rv >= 0
  {
    if cmds == [] then 0
    else
      var (init, d) := (cmds[..|cmds| - 1], cmds[|cmds| - 1]);
      var (rv, r) := (StageResult(init, stage, skip, outcome),
                      if d.res in SkipAfter(init, stage, skip, outcome) then 0 else outcome(d.id));
      if r > rv then r else rv
  }

  // ---- all stages ----

  predicate AllStages(queues: seq<seq<Cmd>>) {
    |queues| == CFG_LAST
  }

  /** Resources to skip when a stage starts, if it does. */
  function SkipAt(queues: seq<seq<Cmd>>, stage: nat, skip: set<nat>, outcome: nat -> int): set<nat>
    requires AllStages(queues) && stage <= CFG_LAST
  {
    if stage == 0 then skip
    else SkipAfter(queues[stage - 1], stage - 1, SkipAt(queues, stage - 1, skip, outcome), outcome)
  }

  function ResultOf(queues: seq<seq<Cmd>>, stage: nat, skip: set<nat>, outcome: nat -> int): (rv: int)
    requires AllStages(queues) && stage < CFG_LAST
    ensures rv >= 0
  {
    StageResult(queues[stage], stage, SkipAt(queues, stage, skip, outcome), outcome)
  }

  /** What the stages before this one execute, if they all start. */
  function LogUpTo(queues: seq<seq<Cmd>>, stage: nat, skip: set<nat>, outcome: nat -> int): seq<Entry>
    requires AllStages(queues) && stage <= CFG_LAST
  {
    if stage == 0 then []
    else
      LogUpTo(queues, stage - 1, skip, outcome)
      + Executed(queues[stage - 1], stage - 1, SkipAt(queues, stage - 1, skip, outcome), outcome)
  }

  /** A stage starts if adjusting with progress, or no earlier stage had a positive result. */
  predicate Starts(queues: seq<seq<Cmd>>, stage: nat, skip: set<nat>, outcome: nat -> int, progress: bool)
    requires AllStages(queues) && stage <= CFG_LAST
  {
    progress || forall s :: 0 <= s < stage ==> ResultOf(queues, s, skip, outcome) == 0
  }

  /** The next command of a stage. */
  lemma OneMore(cmds: seq<Cmd>, k: nat, stage: nat, skip: set<nat>, outcome: nat -> int)
    requires k < |cmds|
    ensures var (before, d) := (SkipAfter(cmds[..k], stage, skip, outcome), cmds[k]);
            var r := if d.res in before then 0 else outcome(d.id);
            && SkipAfter(cmds[..k + 1], stage, skip, outcome)
               == (if r != 0 && (stage == CFG_PREREQ || stage == CFG_DISK_PREREQ) then before + {d.res} else before)
            && Executed(cmds[..k + 1], stage, skip, outcome)
               == (if d.res in before then Executed(cmds[..k], stage, skip, outcome)
                   else Executed(cmds[..k], stage, skip, outcome) + [Entry(stage, d)])
            && StageResult(cmds[..k + 1], stage, skip, outcome)
               == (if r > StageResult(cmds[..k], stage, skip, outcome) then r
                   else StageResult(cmds[..k], stage, skip, outcome))
  {
    assert cmds[..k + 1][..k] == cmds[..k];
    assert Executed(cmds[..k], stage, skip, outcome) + [] == Executed(cmds[..k], stage, skip, outcome);
  }

  lemma NoCommand(stage: nat, skip: set<nat>, outcome: nat -> int, log: seq<Entry>)
    ensures SkipAfter([], stage, skip, outcome) == skip && StageResult([], stage, skip, outcome) == 0
    ensures log + Executed([], stage, skip, outcome) == log
  {
  }

  class Scheduler {
    /** deferred_cmds and deferred_cmds_tail */
    var queues: seq<seq<Cmd>>
    var next: nat
    /** resources with skip_further_deferred_command set */
    var skip: set<nat>
    ghost var log: seq<Entry>

    /** Commands are queued in the order they were scheduled. */
    ghost predicate Valid()
      reads this
    {
      && AllStages(queues)
      && forall s, k :: 0 <= s < CFG_LAST && 0 <= k < |queues[s]| ==>
           queues[s][k].id < next && forall j :: 0 <= j < k ==> queues[s][j].id < queues[s][k].id
    }

    constructor ()
      ensures Valid() && queues == [[], [], [], [], [], []] && skip == {} && log == []
    {
      queues, next, skip, log := [[], [], [], [], [], []], 0, {}, [];
    }

    /** schedule_deferred_cmd */
    method Schedule(res: nat, stage: nat)
      requires Valid() && stage < CFG_LAST
      modifies this`queues, this`next
      ensures Valid() && next == old(next) + 1
      ensures queues == old(queues)[stage := old(queues[stage]) + [Cmd(res, old(next))]]
    {
      queues := queues[stage := queues[stage] + [Cmd(res, next)]];
      next := next + 1;
    }

    /** The loop of _run_deferred_cmds. */
    method RunCommands(cmds: seq<Cmd>, stage: nat, outcome: nat -> int) returns (rv: int)
      modifies this`skip, this`log
      ensures rv == StageResult(cmds, stage, old(skip), outcome)
      ensures skip == SkipAfter(cmds, stage, old(skip), outcome)
      ensures log == old(log) + Executed(cmds, stage, old(skip), outcome)
    {
      rv := 0;
      hide SkipAfter, Executed, StageResult;
      NoCommand(stage, skip, outcome, log);
      assert cmds[..0] == [];
      for k := 0 to |cmds|
        invariant rv == StageResult(cmds[..k], stage, old(skip), outcome)
        invariant skip == SkipAfter(cmds[..k], stage, old(skip), outcome)
        invariant log == old(log) + Executed(cmds[..k], stage, old(skip), outcome)
      {
        OneMore(cmds, k, stage, old(skip), outcome);
        var d, r := cmds[k], 0;
        if d.res !in skip {
          log := log + [Entry(stage, d)];
          r := outcome(d.id);
          if r != 0 && (stage == CFG_PREREQ || stage == CFG_DISK_PREREQ) {
            skip := skip + {d.res};
          }
        }
        if r > rv {
          rv := r;
        }
      }
      assert cmds[..|cmds|] == cmds;
    }

    /** _run_deferred_cmds: drains one queue. */
    method RunStage(stage: nat, outcome: nat -> int) returns (rv: int)
      requires Valid() && stage < CFG_LAST
      modifies this`queues, this`skip, this`log
      ensures Valid() && queues == old(queues)[stage := []]
      ensures rv == StageResult(old(queues[stage]), stage, old(skip), outcome)
      ensures skip == SkipAfter(old(queues[stage]), stage, old(skip), outcome)
      ensures log == old(log) + Executed(old(queues[stage]), stage, old(skip), outcome)
    {
      rv := RunCommands(queues[stage], stage, outcome);
      queues := queues[stage := []];
    }

    /** run_deferred_cmds: started is the number of stages that were started. */
    method RunAll(outcome: nat -> int, progress: bool) returns (ret: int, ghost started: nat)
      requires Valid()
      modifies this`queues, this`skip, this`log
      ensures started <= CFG_LAST && LastStage(started, old(queues), old(skip), outcome, progress)
      ensures log == old(log) + LogUpTo(old(queues), started, old(skip), outcome)
      ensures ret == if AllZero(old(queues), CFG_LAST, old(skip), outcome) then 0 else 1
    {
      hide SkipAt, LogUpTo, ResultOf, StageResult, SkipAfter, Executed, AllZero, LastStage;
      ghost var q0, skip0, log0 := queues, skip, log;
      ret := 0;
      NoStage(q0, skip0, log0, outcome);
      for stage := 0 to CFG_LAST
        invariant Valid() && (forall s :: stage <= s < CFG_LAST ==> queues[s] == q0[s])
        invariant skip == SkipAt(q0, stage, skip0, outcome)
        invariant log == log0 + LogUpTo(q0, stage, skip0, outcome)
        invariant progress || ret == 0
        invariant ret == if AllZero(q0, stage, skip0, outcome) then 0 else 1
      {
        NextStage(q0, stage, skip0, log0, outcome);
        var r := RunStage(stage, outcome);
        if r != 0 {
          if !progress {
            Stopped(q0, stage, skip0, outcome);
            return 1, stage + 1;
          }
          ret := 1;
        }
      }
      AllStarted(q0, skip0, outcome, progress);
      started := CFG_LAST;
    }
  }

  predicate AllZero(queues: seq<seq<Cmd>>, n: nat, skip: set<nat>, outcome: nat -> int)
    requires AllStages(queues) && n <= CFG_LAST
  {
    forall s :: 0 <= s < n ==> ResultOf(queues, s, skip, outcome) == 0
  }

  lemma NoStage(queues: seq<seq<Cmd>>, skip: set<nat>, log: seq<Entry>, outcome: nat -> int)
    requires AllStages(queues)
    ensures SkipAt(queues, 0, skip, outcome) == skip && log + LogUpTo(queues, 0, skip, outcome) == log
    ensures AllZero(queues, 0, skip, outcome)
  {
  }

  lemma NextStage(queues: seq<seq<Cmd>>, stage: nat, skip: set<nat>, log: seq<Entry>, outcome: nat -> int)
    requires AllStages(queues) && stage < CFG_LAST
    ensures var before := SkipAt(queues, stage, skip, outcome);
            && SkipAt(queues, stage + 1, skip, outcome) == SkipAfter(queues[stage], stage, before, outcome)
            && log + LogUpTo(queues, stage + 1, skip, outcome)
               == log + LogUpTo(queues, stage, skip, outcome) + Executed(queues[stage], stage, before, outcome)
            && (AllZero(queues, stage + 1, skip, outcome)
                <==> AllZero(queues, stage, skip, outcome) && StageResult(queues[stage], stage, before, outcome) == 0)
  {
    hide ResultOf;
    assert ResultOf(queues, stage, skip, outcome)
        == StageResult(queues[stage], stage, SkipAt(queues, stage, skip, outcome), outcome) by {
      ResultIs(queues, stage, skip, outcome);
    }
  }

  lemma ResultIs(queues: seq<seq<Cmd>>, stage: nat, skip: set<nat>, outcome: nat -> int)
    requires AllStages(queues) && stage < CFG_LAST
    ensures ResultOf(queues, stage, skip, outcome)
        == StageResult(queues[stage], stage, SkipAt(queues, stage, skip, outcome), outcome)
  {
  }

  /** The stages before n are those that start. */
  predicate LastStage(n: nat, queues: seq<seq<Cmd>>, skip: set<nat>, outcome: nat -> int, progress: bool)
    requires AllStages(queues) && n <= CFG_LAST
  {
    forall s :: 0 <= s < CFG_LAST ==> (s < n <==> Starts(queues, s, skip, outcome, progress))
  }

  lemma Stopped(queues: seq<seq<Cmd>>, stage: nat, skip: set<nat>, outcome: nat -> int)
    requires AllStages(queues) && stage < CFG_LAST && AllZero(queues, stage, skip, outcome)
    requires StageResult(queues[stage], stage, SkipAt(queues, stage, skip, outcome), outcome) != 0
    ensures LastStage(stage + 1, queues, skip, outcome, false) && !AllZero(queues, CFG_LAST, skip, outcome)
  {
    hide ResultOf;
    ResultIs(queues, stage, skip, outcome);
  }

  lemma AllStarted(queues: seq<seq<Cmd>>, skip: set<nat>, outcome: nat -> int, progress: bool)
    requires AllStages(queues) && (progress || AllZero(queues, CFG_LAST, skip, outcome))
    ensures LastStage(CFG_LAST, queues, skip, outcome, progress)
  {
  }

  // ---- what is executed ----

  /** The stages after which there is no point in going on with a resource: the first, and the third of the six. */
  predicate IsPrereq(stage: nat) {
    stage in {0, 2}
  }

  /** A command of that resource failed among these. */
  predicate Failed(cmds: seq<Cmd>, res: nat, outcome: nat -> int) {
    exists j :: 0 <= j < |cmds| && cmds[j].res == res && outcome(cmds[j].id) != 0
  }

  /** A resource is skipped from its first failure in a prerequisite stage on. */
  lemma {:induction false} SkipMeaning(cmds: seq<Cmd>, stage: nat, skip: set<nat>, outcome: nat -> int, res: nat)
    ensures res in SkipAfter(cmds, stage, skip, outcome)
        <==> res in skip || (IsPrereq(stage) && Failed(cmds, res, outcome))
  {
    if cmds != [] {
      var init, d := cmds[..|cmds| - 1], cmds[|cmds| - 1];
      SkipMeaning(init, stage, skip, outcome, res);
      FailedMore(init, d, res, outcome);
      assert cmds == init + [d];
    }
  }

  lemma FailedMore(init: seq<Cmd>, d: Cmd, res: nat, outcome: nat -> int)
    ensures Failed(init + [d], res, outcome) <==> Failed(init, res, outcome) || (d.res == res && outcome(d.id) != 0)
  {
    var cmds := init + [d];
    assert cmds[|init|] == d;
    if Failed(init, res, outcome) {
      var j :| 0 <= j < |init| && init[j].res == res && outcome(init[j].id) != 0;
      assert cmds[j] == init[j];
    }
  }

  /** Command k of a stage is executed. */
  predicate Runs(cmds: seq<Cmd>, k: nat, stage: nat, skip: set<nat>, outcome: nat -> int)
    requires k < |cmds|
  {
    cmds[k].res !in skip && !(IsPrereq(stage) && Failed(cmds[..k], cmds[k].res, outcome))
  }

  /** The executed commands of a stage, in the order they were scheduled. */
  function Running(cmds: seq<Cmd>, n: nat, stage: nat, skip: set<nat>, outcome: nat -> int): seq<Entry>
    requires n <= |cmds|
  {
    if n == 0 then []
    else
      Running(cmds, n - 1, stage, skip, outcome)
      + if Runs(cmds, n - 1, stage, skip, outcome) then [Entry(stage, cmds[n - 1])] else []
  }

  /** A command is left out exactly if its resource is skipped already, or, in a prerequisite stage, an earlier command
      of the same resource failed; the commands of other resources go on. */
  lemma {:induction false} ExecutesExactly(cmds: seq<Cmd>, n: nat, stage: nat, skip: set<nat>, outcome: nat -> int)
    requires n <= |cmds|
    ensures Executed(cmds[..n], stage, skip, outcome) == Running(cmds, n, stage, skip, outcome)
  {
    if n > 0 {
      ExecutesExactly(cmds, n - 1, stage, skip, outcome);
      SkipMeaning(cmds[..n - 1], stage, skip, outcome, cmds[n - 1].res);
      assert cmds[..n][..n - 1] == cmds[..n - 1];
    }
  }

  /** A command of that resource failed in a prerequisite stage before this one. */
  predicate FailedBefore(queues: seq<seq<Cmd>>, stage: nat, res: nat, outcome: nat -> int)
    requires AllStages(queues) && stage <= CFG_LAST
  {
    exists s :: 0 <= s < stage && IsPrereq(s) && Failed(queues[s], res, outcome)
  }

  /** The failure carries over to all later stages. */
  lemma {:induction false} SkipAtMeaning(queues: seq<seq<Cmd>>, stage: nat, skip: set<nat>, outcome: nat -> int,
                                         res: nat)
    requires AllStages(queues) && stage <= CFG_LAST
    ensures res in SkipAt(queues, stage, skip, outcome) <==> res in skip || FailedBefore(queues, stage, res, outcome)
  {
    hide Failed;
    if stage > 0 {
      SkipAtMeaning(queues, stage - 1, skip, outcome, res);
      SkipMeaning(queues[stage - 1], stage - 1, SkipAt(queues, stage - 1, skip, outcome), outcome, res);
    }
  }

  /** Whether the run executes command k of a stage that starts: its resource was not skipped from the beginning, and
      none of its commands in front of it, in this or an earlier prerequisite stage, failed. */
  lemma RunExecutes(queues: seq<seq<Cmd>>, stage: nat, k: nat, skip: set<nat>, outcome: nat -> int)
    requires AllStages(queues) && stage < CFG_LAST && k < |queues[stage]|
    ensures var (d, before) := (queues[stage][k], SkipAt(queues, stage, skip, outcome));
            && Executed(queues[stage], stage, before, outcome)
                == Running(queues[stage], |queues[stage]|, stage, before, outcome)
            && (Runs(queues[stage], k, stage, before, outcome) <==>
                d.res !in skip && !FailedBefore(queues, stage, d.res, outcome)
                && !(IsPrereq(stage) && Failed(queues[stage][..k], d.res, outcome)))
  {
    var cmds := queues[stage];
    ExecutesExactly(cmds, |cmds|, stage, SkipAt(queues, stage, skip, outcome), outcome);
    assert cmds[..|cmds|] == cmds;
    SkipAtMeaning(queues, stage, skip, outcome, cmds[k].res);
  }

  /** The result of a stage is the largest value its executed commands return, or 0 if that is negative. */
  lemma {:induction false} LargestResult(cmds: seq<Cmd>, stage: nat, skip: set<nat>, outcome: nat -> int)
    ensures forall k :: 0 <= k < |Executed(cmds, stage, skip, outcome)| ==>
              outcome(Executed(cmds, stage, skip, outcome)[k].cmd.id) <= StageResult(cmds, stage, skip, outcome)
    ensures StageResult(cmds, stage, skip, outcome) == 0
            || exists k :: 0 <= k < |Executed(cmds, stage, skip, outcome)|
                 && outcome(Executed(cmds, stage, skip, outcome)[k].cmd.id) == StageResult(cmds, stage, skip, outcome)
  {
    if cmds != [] {
      var init, d := cmds[..|cmds| - 1], cmds[|cmds| - 1];
      LargestResult(init, stage, skip, outcome);
      var before, log := Executed(init, stage, skip, outcome), Executed(cmds, stage, skip, outcome);
      assert forall k :: 0 <= k < |before| ==> log[k] == before[k];
      if d.res !in SkipAfter(init, stage, skip, outcome) {
        assert log[|before|] == Entry(stage, d);
      }
    }
  }

  /** None of these commands returns a positive value. */
  predicate NonePositive(log: seq<Entry>, outcome: nat -> int) {
    forall k :: 0 <= k < |log| ==> outcome(log[k].cmd.id) <= 0
  }

  lemma NonePositiveSplit(a: seq<Entry>, b: seq<Entry>, outcome: nat -> int)
    ensures NonePositive(a + b, outcome) <==> NonePositive(a, outcome) && NonePositive(b, outcome)
  {
    assert forall k :: 0 <= k < |a| ==> (a + b)[k] == a[k];
    assert forall k :: 0 <= k < |b| ==> (a + b)[|a| + k] == b[k];
  }

  /** The run succeeds exactly if none of the commands of all stages, run one after the other, returns a positive
      value. */
  lemma {:induction false} SucceedsExactly(queues: seq<seq<Cmd>>, n: nat, skip: set<nat>, outcome: nat -> int)
    requires AllStages(queues) && n <= CFG_LAST
    ensures AllZero(queues, n, skip, outcome) <==> NonePositive(LogUpTo(queues, n, skip, outcome), outcome)
  {
    if n > 0 {
      hide ResultOf, Executed, StageResult, SkipAt;
      SucceedsExactly(queues, n - 1, skip, outcome);
      var before := SkipAt(queues, n - 1, skip, outcome);
      var executed := Executed(queues[n - 1], n - 1, before, outcome);
      ResultIs(queues, n - 1, skip, outcome);
      PositiveResult(queues[n - 1], n - 1, before, outcome);
      assert NonePositive(executed, outcome) <==> StageResult(queues[n - 1], n - 1, before, outcome) == 0;
      NonePositiveSplit(LogUpTo(queues, n - 1, skip, outcome), executed, outcome);
    }
  }

  /** A stage has a positive result exactly if some command it executes returns a positive value; negative values do not
      count, but in a prerequisite stage they make the resource be skipped all the same. */
  lemma {:induction false} PositiveResult(cmds: seq<Cmd>, stage: nat, skip: set<nat>, outcome: nat -> int)
    ensures StageResult(cmds, stage, skip, outcome) > 0 <==>
            exists k :: 0 <= k < |Executed(cmds, stage, skip, outcome)|
                && outcome(Executed(cmds, stage, skip, outcome)[k].cmd.id) > 0
  {
    if cmds != [] {
      var init, d := cmds[..|cmds| - 1], cmds[|cmds| - 1];
      PositiveResult(init, stage, skip, outcome);
      var before, log := Executed(init, stage, skip, outcome), Executed(cmds, stage, skip, outcome);
      assert forall k :: 0 <= k < |before| ==> log[k] == before[k];
      if d.res !in SkipAfter(init, stage, skip, outcome) {
        assert log[|before|] == Entry(stage, d);
      }
    }
  }

  /** Entries are ordered by stage, and within a stage by number. */
  predicate Ordered(log: seq<Entry>) {
    forall i, j :: 0 <= i < j < |log| ==>
      log[i].stage < log[j].stage || (log[i].stage == log[j].stage && log[i].cmd.id < log[j].cmd.id)
  }

  predicate Queued(cmds: seq<Cmd>) {
    forall j, k :: 0 <= j < k < |cmds| ==> cmds[j].id < cmds[k].id
  }

  lemma {:induction false} ExecutedOrdered(cmds: seq<Cmd>, stage: nat, skip: set<nat>, outcome: nat -> int)
    requires Queued(cmds)
    ensures Ordered(Executed(cmds, stage, skip, outcome))
    ensures forall e :: e in Executed(cmds, stage, skip, outcome) ==> e.stage == stage && e.cmd in cmds
  {
    if cmds != [] {
      var init, d := cmds[..|cmds| - 1], cmds[|cmds| - 1];
      ExecutedOrdered(init, stage, skip, outcome);
      assert cmds == init + [d];
      var log := Executed(init, stage, skip, outcome);
      forall i | 0 <= i < |log|
        ensures log[i].stage == stage && log[i].cmd.id < d.id
      {
        assert log[i] in log && log[i].cmd in init;
      }
    }
  }

  /** The run executes commands by stage, and in the order they were scheduled. */
  lemma {:induction false} RunOrdered(queues: seq<seq<Cmd>>, stage: nat, skip: set<nat>, outcome: nat -> int)
    requires AllStages(queues) && stage <= CFG_LAST && forall s :: 0 <= s < CFG_LAST ==> Queued(queues[s])
    ensures Ordered(LogUpTo(queues, stage, skip, outcome))
    ensures forall e :: e in LogUpTo(queues, stage, skip, outcome) ==> e.stage < stage
  {
    if stage > 0 {
      RunOrdered(queues, stage - 1, skip, outcome);
      var before := SkipAt(queues, stage - 1, skip, outcome);
      ExecutedOrdered(queues[stage - 1], stage - 1, before, outcome);
      Concatenated(LogUpTo(queues, stage - 1, skip, outcome),
                   Executed(queues[stage - 1], stage - 1, before, outcome), stage - 1);
    }
  }

  lemma Concatenated(a: seq<Entry>, b: seq<Entry>, stage: nat)
    requires Ordered(a) && Ordered(b)
    requires (forall e :: e in a ==> e.stage < stage) && forall e :: e in b ==> e.stage == stage
    ensures Ordered(a + b) && forall e :: e in a + b ==> e.stage <= stage
  {
  }
}
