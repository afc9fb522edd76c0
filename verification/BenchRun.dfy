/** Whole runs of the benchmark: agreement and completion exactly when the budget exit is uniform,
    deadlock otherwise. */
module BenchRun {
  import opened Basics
  import opened BenchCells
  import opened BenchProtocol
  import opened BenchAgreement

  ghost predicate AgreedAt(cfg: Config, locals: seq<Local>, k: nat)
    requires Inputs(cfg, locals)
  {
    Agreed(cfg, locals, RunFor(cfg, locals, k))
  }

  ghost function PhaseAt(cfg: Config, locals: seq<Local>, k: nat): Phase
    requires Inputs(cfg, locals)
  {
    RunFor(cfg, locals, k)[0].ctl.phase
  }

  lemma StartAgrees(cfg: Config, locals: seq<Local>)
    requires Inputs(cfg, locals)
    ensures AgreedAt(cfg, locals, 0)
    ensures var p := PhaseAt(cfg, locals, 0); p.Building? || p.Asking? || p.Planning? || Aborted(p)
  {
    ToBuildOk(cfg, locals, Control(Reporting, map[], [], [], map[], [], 0, [], []), 0);
  }

  // ----- a clock that differs

  lemma CheckBlockStart(live: seq<Cell>)
    requires live != []
    ensures CheckBlock(live) != [] && CheckBlock(live)[0] == Barrier
  {
  }

  /** If the clocks decide and differ, some rank heads for the result gather while another heads
      for a barrier, and the run hangs. */
  lemma ClocksSplit(cfg: Config, locals: seq<Local>, ranks: seq<Rank>, round: nat)
    requires Inputs(cfg, locals) && Agreed(cfg, locals, ranks) && ranks[0].ctl.phase == Checking(round)
    requires Decides(cfg, locals, round) && !SameClock(locals, round)
    ensures !InStep(Exchange(cfg, locals, ranks))
  {
    var i, j :| 0 <= i < |locals| && 0 <= j < |locals| && locals[i].late(round) && !locals[j].late(round);
    ResumeCheck(cfg, locals, ranks, round, i);
    ResumeCheck(cfg, locals, ranks, round, j);
    var c := Issued(ranks[0].ctl);
    var live := Surviving(locals, c.cells, round + 1);
    var measured := MeasureBlock(Rotate(live, round), c.plan);
    assert InStep(ranks);
    var next := Exchange(cfg, locals, ranks);
    CheckBlockStart(live);
    assert next[i].ctl.todo == measured + [Gather(Results)];
    assert next[j].ctl.todo == measured + CheckBlock(live) + [Gather(CheckVote(round + 1))];
    assert next[i].ctl.todo[|measured|] == Gather(Results);
    assert next[j].ctl.todo[|measured|] == Barrier;
  }

  /** Every reachable state is agreed, or the ranks are out of step and stay so. */
  lemma {:induction false} AgreedOrStuck(cfg: Config, locals: seq<Local>, k: nat)
    requires Inputs(cfg, locals)
    ensures AgreedAt(cfg, locals, k) || !InStep(RunFor(cfg, locals, k))
  {
    if k == 0 {
      StartAgrees(cfg, locals);
    } else {
      AgreedOrStuck(cfg, locals, k - 1);
      var ranks := RunFor(cfg, locals, k - 1);
      if AgreedAt(cfg, locals, k - 1) {
        var p := ranks[0].ctl.phase;
        if p.Checking? && Decides(cfg, locals, p.round) && !SameClock(locals, p.round) {
          ClocksSplit(cfg, locals, ranks, p.round);
        } else {
          ExchangeAgrees(cfg, locals, ranks);
        }
      }
    }
  }

  lemma {:induction false} StuckForever(cfg: Config, locals: seq<Local>, k: nat, k': nat)
    requires Inputs(cfg, locals) && k <= k' && !InStep(RunFor(cfg, locals, k))
    ensures RunFor(cfg, locals, k') == RunFor(cfg, locals, k)
    decreases k'
  {
    if k < k' { StuckForever(cfg, locals, k, k' - 1); }
  }

  // ----- progress

  lemma NextAgrees(cfg: Config, locals: seq<Local>, k: nat)
    requires Inputs(cfg, locals) && AgreedAt(cfg, locals, k)
    requires var p := PhaseAt(cfg, locals, k);
             p.Checking? && Decides(cfg, locals, p.round) ==> SameClock(locals, p.round)
    ensures AgreedAt(cfg, locals, k + 1)
    ensures RunFor(cfg, locals, k + 1)[0].ctl
            == Resume(cfg, locals[0], RunFor(cfg, locals, k)[0].ctl, Answers(cfg, locals, RunFor(cfg, locals, k)))
    ensures PhaseAt(cfg, locals, k + 1) == NextPhase(cfg, locals, RunFor(cfg, locals, k))
  {
    ExchangeAgrees(cfg, locals, RunFor(cfg, locals, k));
  }

  predicate Early(p: Phase) {
    p.Building? || p.Asking? || p.Planning?
  }

  lemma EarlyNext(cfg: Config, locals: seq<Local>, k: nat)
    requires Inputs(cfg, locals) && AgreedAt(cfg, locals, k) && Early(PhaseAt(cfg, locals, k))
    ensures AgreedAt(cfg, locals, k + 1)
    ensures var p, p' := PhaseAt(cfg, locals, k), PhaseAt(cfg, locals, k + 1);
            match p
            case Building(i) => (p'.Building? && p'.i > i) || p'.Asking? || p'.Planning? || Aborted(p')
            case Asking(j) => (p'.Asking? && p'.j > j) || p'.Planning? || Aborted(p')
            case _ => p' == if 0 < cfg.rounds then Checking(0) else Reporting
    ensures PhaseAt(cfg, locals, k).Asking? ==>
              RunFor(cfg, locals, k + 1)[0].ctl.asked == RunFor(cfg, locals, k)[0].ctl.asked
  {
    var ranks := RunFor(cfg, locals, k);
    NextAgrees(cfg, locals, k);
    match ranks[0].ctl.phase
    case Building(i) => ResumeBuild(cfg, locals, ranks, i, 0);
    case Asking(j) => ResumeAsk(cfg, locals, ranks, j, 0);
    case Planning => ResumePlan(cfg, locals, ranks, 0);
  }

  lemma EarlyBounds(cfg: Config, locals: seq<Local>, k: nat)
    requires Inputs(cfg, locals) && AgreedAt(cfg, locals, k)
    ensures var p := PhaseAt(cfg, locals, k);
            && (p.Building? ==> p.i < |cfg.backends|)
            && (p.Asking? ==> p.j < |RunFor(cfg, locals, k)[0].ctl.asked|)
  {
    hide RunFor, TransportsOk, Built, CheckingOk;
  }

  /** Builds and questions come to an end: the first round, the report or an abort is reached. */
  lemma {:induction false} PassesEarly(cfg: Config, locals: seq<Local>, k: nat) returns (k': nat)
    requires Inputs(cfg, locals) && AgreedAt(cfg, locals, k)
    requires Early(PhaseAt(cfg, locals, k)) || Aborted(PhaseAt(cfg, locals, k))
    ensures k' >= k && AgreedAt(cfg, locals, k')
    ensures var p := PhaseAt(cfg, locals, k');
            Aborted(p) || p == if 0 < cfg.rounds then Checking(0) else Reporting
    decreases
      match PhaseAt(cfg, locals, k) case Building(_) => 3 case Asking(_) => 2 case Planning => 1 case _ => 0,
      match PhaseAt(cfg, locals, k)
      case Building(i) => |cfg.backends| - i
      case Asking(j) => |RunFor(cfg, locals, k)[0].ctl.asked| - j
      case _ => 0
  {
    hide Agreed, RunFor, Resume;
    k' := k;
    EarlyBounds(cfg, locals, k);
    if Early(PhaseAt(cfg, locals, k)) {
      EarlyNext(cfg, locals, k);
      if PhaseAt(cfg, locals, k).Planning? {
        k' := k + 1;
      } else {
        k' := PassesEarly(cfg, locals, k + 1);
      }
    }
  }

  lemma {:induction false} SurvivingShrinks(locals: seq<Local>, cells: seq<Cell>, m: nat, n: nat)
    requires m <= n && Surviving(locals, cells, n) != []
    ensures Surviving(locals, cells, m) != []
  {
    if Surviving(locals, cells[1..], n) != [] {
      SurvivingShrinks(locals, cells[1..], m, n);
    } else {
      assert Passed(locals, cells[0], n);
      assert Passed(locals, cells[0], m);
    }
  }

  lemma FirstRound(cfg: Config, locals: seq<Local>) returns (k: nat)
    requires Inputs(cfg, locals) && FinalCells(cfg, locals) != [] && 0 < cfg.rounds
    ensures AgreedAt(cfg, locals, k) && PhaseAt(cfg, locals, k) == Checking(0)
  {
    StartAgrees(cfg, locals);
    k := PassesEarly(cfg, locals, 0);
  }

  lemma NextRound(cfg: Config, locals: seq<Local>, k: nat, round: nat)
    requires Inputs(cfg, locals) && AgreedAt(cfg, locals, k) && PhaseAt(cfg, locals, k) == Checking(round)
    requires Decides(cfg, locals, round) && NoneLate(locals, round + 1)
    ensures AgreedAt(cfg, locals, k + 1) && PhaseAt(cfg, locals, k + 1) == Checking(round + 1)
  {
    assert SameClock(locals, round);
    NextAgrees(cfg, locals, k);
    ResumeCheckOk(cfg, locals, RunFor(cfg, locals, k), round, 0);
  }

  lemma DecidesFacts(cfg: Config, locals: seq<Local>, round: nat)
    requires Inputs(cfg, locals) && Decides(cfg, locals, round)
    ensures FinalCells(cfg, locals) != [] && 0 < cfg.rounds
    ensures NoneLate(locals, round)
  {
  }

  lemma DecidesBefore(cfg: Config, locals: seq<Local>, round: nat)
    requires Inputs(cfg, locals) && round > 0 && Decides(cfg, locals, round)
    ensures Decides(cfg, locals, round - 1)
  {
    SurvivingShrinks(locals, FinalCells(cfg, locals), round, round + 1);
  }

  /** A round after which the clocks decide is reached, in an agreed state. */
  lemma {:induction false} ReachesRound(cfg: Config, locals: seq<Local>, round: nat) returns (k: nat)
    requires Inputs(cfg, locals) && Decides(cfg, locals, round)
    ensures AgreedAt(cfg, locals, k) && PhaseAt(cfg, locals, k) == Checking(round)
    decreases round
  {
    hide *;
    DecidesFacts(cfg, locals, round);
    if round == 0 {
      k := FirstRound(cfg, locals);
    } else {
      DecidesBefore(cfg, locals, round);
      k := ReachesRound(cfg, locals, round - 1);
      NextRound(cfg, locals, k, round - 1);
      k := k + 1;
    }
  }

  // ----- the main results

  lemma UniformAgrees(cfg: Config, locals: seq<Local>, k: nat)
    requires Inputs(cfg, locals) && BudgetUniform(cfg, locals)
    ensures AgreedAt(cfg, locals, k)
  {
    if k == 0 {
      StartAgrees(cfg, locals);
    } else {
      UniformAgrees(cfg, locals, k - 1);
      NextAgrees(cfg, locals, k - 1);
    }
  }

  /** The ranks issue the same collectives at every point of the run, whatever their builds,
      refusals, checks and latencies, if and only if the budget exit is uniform. */
  lemma AgreementIffUniform(cfg: Config, locals: seq<Local>)
    requires Inputs(cfg, locals)
    ensures (forall k: nat :: InStep(RunFor(cfg, locals, k))) <==> BudgetUniform(cfg, locals)
  {
    if BudgetUniform(cfg, locals) {
      forall k: nat ensures InStep(RunFor(cfg, locals, k)) {
        UniformAgrees(cfg, locals, k);
      }
    } else {
      var round: nat :| Decides(cfg, locals, round) && !SameClock(locals, round);
      var k := ReachesRound(cfg, locals, round);
      ClocksSplit(cfg, locals, RunFor(cfg, locals, k), round);
      assert !InStep(RunFor(cfg, locals, k + 1));
    }
  }

  /** In a uniform run all ranks have issued the same trace and head for the same exchange. */
  lemma SameTraces(cfg: Config, locals: seq<Local>, k: nat, i: nat, j: nat)
    requires Inputs(cfg, locals) && BudgetUniform(cfg, locals) && i < cfg.world && j < cfg.world
    ensures var ranks := RunFor(cfg, locals, k);
            && ranks[i].ctl.trace == ranks[j].ctl.trace
            && ranks[i].ctl.phase == ranks[j].ctl.phase
            && ranks[i].ctl.live == ranks[j].ctl.live
  {
    UniformAgrees(cfg, locals, k);
    assert RunFor(cfg, locals, k)[i].ctl == RunFor(cfg, locals, k)[j].ctl;
  }

  /** After k exchanges every rank has exited with this code. */
  ghost predicate AllExited(cfg: Config, locals: seq<Local>, k: nat, code: int)
    requires Inputs(cfg, locals)
  {
    forall r :: 0 <= r < cfg.world ==> RunFor(cfg, locals, k)[r].ctl.phase == Exited(code)
  }

  /** From a round on, a uniform run ends. */
  lemma {:induction false} LateEnds(cfg: Config, locals: seq<Local>, k: nat) returns (k': nat)
    requires Inputs(cfg, locals) && BudgetUniform(cfg, locals) && !Early(PhaseAt(cfg, locals, k))
    ensures PhaseAt(cfg, locals, k').Exited?
    decreases
      match PhaseAt(cfg, locals, k) case Checking(_) => 3 case Reporting => 2 case Closing => 1 case _ => 0,
      match PhaseAt(cfg, locals, k) case Checking(round) => cfg.rounds - round case _ => 0
  {
    UniformAgrees(cfg, locals, k);
    k' := k;
    var p := PhaseAt(cfg, locals, k);
    if !p.Exited? {
      NextAgrees(cfg, locals, k);
      if p.Checking? { ResumeCheckOk(cfg, locals, RunFor(cfg, locals, k), p.round, 0); }
      k' := LateEnds(cfg, locals, k + 1);
    }
  }

  lemma UniformCompletes(cfg: Config, locals: seq<Local>) returns (k: nat, code: int)
    requires Inputs(cfg, locals) && BudgetUniform(cfg, locals)
    ensures AllExited(cfg, locals, k, code)
  {
    StartAgrees(cfg, locals);
    k := PassesEarly(cfg, locals, 0);
    k := LateEnds(cfg, locals, k);
    UniformAgrees(cfg, locals, k);
    code := PhaseAt(cfg, locals, k).code;
  }

  lemma ExitedNext(cfg: Config, locals: seq<Local>, k: nat)
    requires Inputs(cfg, locals) && AgreedAt(cfg, locals, k) && PhaseAt(cfg, locals, k).Exited?
    ensures AgreedAt(cfg, locals, k + 1) && PhaseAt(cfg, locals, k + 1).Exited?
  {
    NextAgrees(cfg, locals, k);
  }

  /** Once all ranks have exited nothing changes any more. */
  lemma {:induction false} ExitedStays(cfg: Config, locals: seq<Local>, k: nat, k': nat)
    requires Inputs(cfg, locals) && k <= k' && AgreedAt(cfg, locals, k) && PhaseAt(cfg, locals, k).Exited?
    ensures AgreedAt(cfg, locals, k') && PhaseAt(cfg, locals, k').Exited?
    decreases k'
  {
    hide *;
    if k < k' {
      ExitedStays(cfg, locals, k, k' - 1);
      ExitedNext(cfg, locals, k' - 1);
    }
  }

  ghost predicate NoneExited(cfg: Config, locals: seq<Local>, k: nat)
    requires Inputs(cfg, locals)
  {
    forall r :: 0 <= r < cfg.world ==> !RunFor(cfg, locals, k)[r].ctl.phase.Exited?
  }

  /** A rank leaving a check vote has not exited yet. */
  lemma StillRunning(cfg: Config, locals: seq<Local>, ranks: seq<Rank>, round: nat, r: nat)
    requires Inputs(cfg, locals) && Agreed(cfg, locals, ranks) && ranks[0].ctl.phase == Checking(round) && r < cfg.world
    ensures !Exchange(cfg, locals, ranks)[r].ctl.phase.Exited?
  {
    assert InStep(ranks);
    ResumeCheck(cfg, locals, ranks, round, r);
  }

  lemma AgreedNoneExited(cfg: Config, locals: seq<Local>, k: nat)
    requires Inputs(cfg, locals) && AgreedAt(cfg, locals, k) && !PhaseAt(cfg, locals, k).Exited?
    ensures NoneExited(cfg, locals, k)
  {
    hide ControlOk;
    forall r | 0 <= r < cfg.world ensures !RunFor(cfg, locals, k)[r].ctl.phase.Exited? {
      assert RunFor(cfg, locals, k)[r].ctl == RunFor(cfg, locals, k)[0].ctl;
    }
  }

  lemma RunningBefore(cfg: Config, locals: seq<Local>, k: nat, k0: nat, round: nat)
    requires Inputs(cfg, locals) && k <= k0 && AgreedAt(cfg, locals, k0) && PhaseAt(cfg, locals, k0) == Checking(round)
    ensures NoneExited(cfg, locals, k)
  {
    hide *;
    AgreedOrStuck(cfg, locals, k);
    if AgreedAt(cfg, locals, k) {
      if PhaseAt(cfg, locals, k).Exited? { ExitedStays(cfg, locals, k, k0); }
      AgreedNoneExited(cfg, locals, k);
    } else {
      StuckForever(cfg, locals, k, k0);
      AgreedNoneExited(cfg, locals, k0);
      SameExits(cfg, locals, k, k0);
    }
  }

  lemma SameExits(cfg: Config, locals: seq<Local>, k: nat, k': nat)
    requires Inputs(cfg, locals) && RunFor(cfg, locals, k) == RunFor(cfg, locals, k')
    ensures NoneExited(cfg, locals, k) == NoneExited(cfg, locals, k')
  {
  }

  lemma HangsAfter(cfg: Config, locals: seq<Local>, k: nat, round: nat)
    requires Inputs(cfg, locals) && AgreedAt(cfg, locals, k) && PhaseAt(cfg, locals, k) == Checking(round)
    requires Decides(cfg, locals, round) && !SameClock(locals, round)
    ensures !InStep(RunFor(cfg, locals, k + 1)) && NoneExited(cfg, locals, k + 1)
  {
    hide Agreed, Resume, Decides, SameClock;
    var ranks, next := RunFor(cfg, locals, k), RunFor(cfg, locals, k + 1);
    ClocksSplit(cfg, locals, ranks, round);
    forall r | 0 <= r < cfg.world ensures !next[r].ctl.phase.Exited? {
      StillRunning(cfg, locals, ranks, round, r);
    }
  }

  /** Where the clocks decide and differ, the run hangs: no rank ever exits. */
  lemma SplitHangs(cfg: Config, locals: seq<Local>, round: nat, k: nat)
    requires Inputs(cfg, locals) && Decides(cfg, locals, round) && !SameClock(locals, round)
    ensures NoneExited(cfg, locals, k)
  {
    hide *;
    var k0 := ReachesRound(cfg, locals, round);
    if k <= k0 {
      RunningBefore(cfg, locals, k, k0, round);
    } else {
      HangsAfter(cfg, locals, k0, round);
      StuckForever(cfg, locals, k0 + 1, k);
      SameExits(cfg, locals, k, k0 + 1);
    }
  }

  /** The run completes, with one exit code on all ranks, if and only if the budget exit is
      uniform. Otherwise it hangs. */
  lemma CompletionIffUniform(cfg: Config, locals: seq<Local>)
    requires Inputs(cfg, locals)
    ensures BudgetUniform(cfg, locals) <==> exists k: nat, code: int :: AllExited(cfg, locals, k, code)
  {
    if BudgetUniform(cfg, locals) {
      var k, code := UniformCompletes(cfg, locals);
      assert AllExited(cfg, locals, k, code);
    } else {
      var round: nat :| Decides(cfg, locals, round) && !SameClock(locals, round);
      forall k: nat, code ensures !AllExited(cfg, locals, k, code) {
        SplitHangs(cfg, locals, round, k);
        assert !RunFor(cfg, locals, k)[0].ctl.phase.Exited?;
      }
    }
  }

  /** A rank on which everything works, with a clock that is past the budget or never is. */
  function Healthy(late: bool): Local {
    Local(_ => Up(None), _ => "", (_, _) => "", _ => 100.0, (_, _, _) => 100.0, _ => late)
  }

  /** Two healthy ranks are enough: one all-reduce on NCCL, ten rounds, and only rank 0's clock past
      the budget after the first. */
  lemma OneLateClockHangs(k: nat)
    ensures var cfg := Config([Nccl], [AllReduce], [4096], 2, 2, 10, 10, 1.0, 1.0);
            var locals := [Healthy(true), Healthy(false)];
            && Inputs(cfg, locals) && Decides(cfg, locals, 0) && !SameClock(locals, 0)
            && !BudgetUniform(cfg, locals) && NoneExited(cfg, locals, k)
  {
    hide RunFor, NoneExited;
    var cfg := Config([Nccl], [AllReduce], [4096], 2, 2, 10, 10, 1.0, 1.0);
    var locals := [Healthy(true), Healthy(false)];
    var cell := Cell(AllReduce, 4096, Whole, Nccl);
    OneCell(cfg, locals);
    assert Passed(locals, cell, 1);
    assert locals[0].late(0) != locals[1].late(0);
    assert Decides(cfg, locals, 0);
    SplitHangs(cfg, locals, 0, k);
  }

  lemma OneCell(cfg: Config, locals: seq<Local>)
    requires cfg.Valid() && cfg.backends == [Nccl] && cfg.ops == [AllReduce] && cfg.sizes == [4096]
    ensures FinalCells(cfg, locals) == [Cell(AllReduce, 4096, Whole, Nccl)]
  {
    assert [Nccl][1..] == [] && [AllReduce][1..] == [] && [4096][1..] == [] && [Whole][1..] == [];
    var up := UpSet(cfg, locals, 1);
    assert Active([Nccl][1..], up) == [] && Active([Nccl], up) == [Nccl];
    assert ActiveBackends(cfg, locals) == [Nccl];
    assert CellsOf(AllReduce, 4096, [Whole], [Nccl]) == [Cell(AllReduce, 4096, Whole, Nccl)];
    assert SizeCells(AllReduce, [4096], [Nccl]) == [Cell(AllReduce, 4096, Whole, Nccl)];
    var all := AllCells([AllReduce], [4096], [Nccl]);
    assert all == [Cell(AllReduce, 4096, Whole, Nccl)];
    assert AskRest(locals, all, 1, all) == all && AskRest(locals, all, 0, all) == all;
    assert AllToAll !in cfg.ops;
  }
}
