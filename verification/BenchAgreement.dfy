/** All ranks of the benchmark issue the same collectives, for every local outcome, exactly when
    the one rank-local exit, the time budget, is taken by all of them in the same round. */
module BenchAgreement {
  import opened Basics
  import opened BenchCells
  import opened BenchProtocol

  ghost predicate Inputs(cfg: Config, locals: seq<Local>) {
    cfg.Valid() && |locals| == cfg.world
  }

  // ----- what the votes come to, in terms of the local outcomes alone

  ghost predicate BuiltEverywhere(cfg: Config, locals: seq<Local>, i: nat)
    requires i < |cfg.backends|
  {
    forall r :: 0 <= r < |locals| ==> BuildError(cfg.backends[i], locals[r].build(i)) == ""
  }

  /** Backends that came up on every rank, among the first n. */
  ghost function UpSet(cfg: Config, locals: seq<Local>, n: nat): set<Backend>
    requires n <= |cfg.backends|
  {
    if n == 0 then {}
    else
      var b := cfg.backends[n - 1];
      UpSet(cfg, locals, n - 1) + (if !b.Nccl? && BuiltEverywhere(cfg, locals, n - 1) then {b} else {})
  }

  ghost predicate Refused(locals: seq<Local>, j: nat) {
    exists r :: 0 <= r < |locals| && locals[r].refuse(j) != ""
  }

  predicate NeedsAsking(cell: Cell) {
    cell.op.AllToAll? && !cell.backend.Nccl?
  }

  ghost function AskRest(locals: seq<Local>, asked: seq<Cell>, j: nat, cells: seq<Cell>): seq<Cell>
    decreases |asked| - j
  {
    if j >= |asked| then cells
    else if NeedsAsking(asked[j]) && Refused(locals, j) then AskRest(locals, asked, j + 1, RemoveFirst(cells, asked[j]))
    else AskRest(locals, asked, j + 1, cells)
  }

  ghost function ActiveBackends(cfg: Config, locals: seq<Local>): seq<Backend> {
    Active(cfg.backends, UpSet(cfg, locals, |cfg.backends|))
  }

  /** The cells that are measured: none if the run is aborted before. */
  ghost function FinalCells(cfg: Config, locals: seq<Local>): seq<Cell>
    requires cfg.Valid()
  {
    var active := ActiveBackends(cfg, locals);
    if active == [] || TooSmall(cfg) then []
    else var all := AllCells(cfg.ops, cfg.sizes, active); AskRest(locals, all, 0, all)
  }

  ghost predicate PassedRound(locals: seq<Local>, cell: Cell, round: nat) {
    forall r :: 0 <= r < |locals| ==> locals[r].check(round, cell) == ""
  }

  /** Every rank passed this cell's check in each of the first n rounds. */
  ghost predicate Passed(locals: seq<Local>, cell: Cell, n: nat) {
    forall round: nat :: round < n ==> PassedRound(locals, cell, round)
  }

  ghost function Surviving(locals: seq<Local>, cells: seq<Cell>, n: nat): seq<Cell> {
    if cells == [] then []
    else (if Passed(locals, cells[0], n) then [cells[0]] else []) + Surviving(locals, cells[1..], n)
  }

  ghost predicate NoneLate(locals: seq<Local>, n: nat) {
    forall r, round: nat :: 0 <= r < |locals| && round < n ==> !locals[r].late(round)
  }

  /** After this round the clocks decide whether the run goes on. */
  ghost predicate Decides(cfg: Config, locals: seq<Local>, round: nat)
    requires cfg.Valid()
  {
    && round + 1 < cfg.rounds
    && Surviving(locals, FinalCells(cfg, locals), round + 1) != []
    && NoneLate(locals, round)
  }

  ghost predicate SameClock(locals: seq<Local>, round: nat) {
    forall i, j :: 0 <= i < |locals| && 0 <= j < |locals| ==> locals[i].late(round) == locals[j].late(round)
  }

  /** The budget exit is not taken, or all ranks take it in the same round. */
  ghost predicate BudgetUniform(cfg: Config, locals: seq<Local>)
    requires cfg.Valid()
  {
    forall round: nat :: Decides(cfg, locals, round) ==> SameClock(locals, round)
  }

  // ----- the invariant of the shared control state

  /** A surviving backend has the transport asked for, on this rank. */
  ghost predicate TransportsOk(c: Control) {
    forall b :: b in c.comms ==> c.comms[b] == Some(WantedTransport(b))
  }

  ghost predicate Built(cfg: Config, locals: seq<Local>, c: Control)
    requires cfg.Valid()
  {
    && c.comms.Keys == UpSet(cfg, locals, |cfg.backends|)
    && ActiveBackends(cfg, locals) != []
    && !TooSmall(cfg)
    && c.asked == AllCells(cfg.ops, cfg.sizes, ActiveBackends(cfg, locals))
  }

  ghost predicate BuildingOk(cfg: Config, locals: seq<Local>, c: Control, i: nat) {
    i < |cfg.backends| && !cfg.backends[i].Nccl? && c.comms.Keys == UpSet(cfg, locals, i) && c.done == 0
  }

  ghost predicate AskingOk(cfg: Config, locals: seq<Local>, c: Control, j: nat)
    requires cfg.Valid()
  {
    && Built(cfg, locals, c) && j < |c.asked| && NeedsAsking(c.asked[j])
    && AskRest(locals, c.asked, j, c.cells) == FinalCells(cfg, locals)
    && c.done == 0
  }

  ghost predicate CheckingOk(cfg: Config, locals: seq<Local>, c: Control, round: nat)
    requires cfg.Valid()
  {
    && c.cells == FinalCells(cfg, locals) && c.done == round < cfg.rounds
    && c.live == Surviving(locals, c.cells, round) != []
    && NoneLate(locals, round)
  }

  ghost predicate ControlOk(cfg: Config, locals: seq<Local>, c: Control)
    requires cfg.Valid()
  {
    && TransportsOk(c)
    && match c.phase
       case Building(i) => BuildingOk(cfg, locals, c, i)
       case Asking(j) => AskingOk(cfg, locals, c, j)
       case Planning =>
         && c.cells == FinalCells(cfg, locals) != []
         && c.done == 0
       case Checking(round) => CheckingOk(cfg, locals, c, round)
       case Reporting => true
       case Closing => true
       case Exited(code) => code != 0 ==> FinalCells(cfg, locals) == [] && c.done == 0
  }

  predicate Aborted(p: Phase) {
    p.Exited? && p.code != 0
  }

  ghost predicate Agreed(cfg: Config, locals: seq<Local>, ranks: seq<Rank>)
    requires cfg.Valid()
  {
    && |ranks| == cfg.world == |locals|
    && ControlOk(cfg, locals, ranks[0].ctl)
    && forall i :: 0 <= i < |ranks| ==> ranks[i].ctl == ranks[0].ctl
  }

  // ----- asking

  lemma {:induction false} CellsBackend(ops: seq<Op>, sizes: seq<nat>, active: seq<Backend>, cell: Cell)
    requires cell in AllCells(ops, sizes, active)
    ensures cell.backend in active
  {
    if cell in AllCells(ops[1..], sizes, active) {
      CellsBackend(ops[1..], sizes, active, cell);
    } else {
      SizeCellsBackend(ops[0], sizes, active, cell);
    }
  }

  lemma {:induction false} SizeCellsBackend(op: Op, sizes: seq<nat>, active: seq<Backend>, cell: Cell)
    requires cell in SizeCells(op, sizes, active)
    ensures cell.backend in active
  {
    if cell in SizeCells(op, sizes[1..], active) {
      SizeCellsBackend(op, sizes[1..], active, cell);
    } else {
      PatternCellsBackend(op, sizes[0], Patterns(op), active, cell);
    }
  }

  lemma {:induction false} PatternCellsBackend(op: Op, bytes: nat, ps: seq<Pattern>, active: seq<Backend>, cell: Cell)
    requires cell in CellsOf(op, bytes, ps, active)
    ensures cell.backend in active
  {
    if cell in CellsOf(op, bytes, ps[1..], active) {
      PatternCellsBackend(op, bytes, ps[1..], active, cell);
    }
  }

  lemma {:induction false} ActiveIsUp(backends: seq<Backend>, up: set<Backend>, b: Backend)
    requires b in Active(backends, up)
    ensures b.Nccl? || b in up
  {
    if b in Active(backends[1..], up) { ActiveIsUp(backends[1..], up, b); }
  }

  /** A cell of a barlink backend always finds a transport to ask: the skip for a missing one is
      never taken, on any rank. */
  lemma NeverSkips(cfg: Config, locals: seq<Local>, c: Control, j: nat)
    requires cfg.Valid() && Built(cfg, locals, c) && TransportsOk(c) && j < |c.asked|
    ensures Asks(c, c.asked[j]) <==> NeedsAsking(c.asked[j])
  {
    var cell := c.asked[j];
    CellsBackend(cfg.ops, cfg.sizes, ActiveBackends(cfg, locals), cell);
    ActiveIsUp(cfg.backends, UpSet(cfg, locals, |cfg.backends|), cell.backend);
  }

  lemma {:induction false} ToAskOk(cfg: Config, locals: seq<Local>, c: Control, j: nat)
    requires cfg.Valid() && Built(cfg, locals, c) && TransportsOk(c) && c.done == 0
    requires AskRest(locals, c.asked, j, c.cells) == FinalCells(cfg, locals)
    ensures ControlOk(cfg, locals, ToAsk(cfg, c, j))
    ensures var p := ToAsk(cfg, c, j).phase; (p.Asking? && p.j >= j) || p.Planning? || Aborted(p)
    ensures ToAsk(cfg, c, j).asked == c.asked
    decreases |c.asked| - j
  {
    if j < |c.asked| {
      NeverSkips(cfg, locals, c, j);
      if !Asks(c, c.asked[j]) { ToAskOk(cfg, locals, c, j + 1); }
    }
  }

  // ----- building

  lemma AfterBuildOk(cfg: Config, locals: seq<Local>, c: Control)
    requires cfg.Valid() && TransportsOk(c) && c.done == 0 && c.comms.Keys == UpSet(cfg, locals, |cfg.backends|)
    ensures ControlOk(cfg, locals, AfterBuild(cfg, c))
    ensures var p := AfterBuild(cfg, c).phase; p.Asking? || p.Planning? || Aborted(p)
  {
    hide CheckingOk, AskingOk, AllCells, ToAsk, UpSet;
    var active := Active(cfg.backends, c.comms.Keys);
    if active != [] && !TooSmall(cfg) {
      var cells := AllCells(cfg.ops, cfg.sizes, active);
      ToAskOk(cfg, locals, c.(cells := cells, asked := cells), 0);
    }
  }

  lemma {:induction false} ToBuildOk(cfg: Config, locals: seq<Local>, c: Control, i: nat)
    requires cfg.Valid() && TransportsOk(c) && c.done == 0
    requires i <= |cfg.backends| && c.comms.Keys == UpSet(cfg, locals, i)
    ensures ControlOk(cfg, locals, ToBuild(cfg, c, i))
    ensures var p := ToBuild(cfg, c, i).phase; (p.Building? && p.i >= i) || p.Asking? || p.Planning? || Aborted(p)
    decreases |cfg.backends| - i
  {
    hide CheckingOk, AskingOk, AfterBuild, FinalCells;
    if i == |cfg.backends| {
      AfterBuildOk(cfg, locals, c);
    } else if cfg.backends[i].Nccl? {
      ToBuildOk(cfg, locals, c, i + 1);
    }
  }

  /** A rank that reports no error holds the transport asked for. */
  lemma BuildErrorSound(b: Backend, build: Build)
    ensures BuildError(b, build) == "" <==> TransportOf(build) == Some(WantedTransport(b))
  {
    match build
    case Raised(kind, message) => assert |kind + ": " + message| >= 2;
    case Up(_) =>
  }

  /** The build vote is unanimous exactly when the backend came up everywhere, and then this rank
      holds the transport asked for. */
  lemma BuildVoteDecides(cfg: Config, locals: seq<Local>, ranks: seq<Rank>, i: nat)
    requires Inputs(cfg, locals) && Agreed(cfg, locals, ranks) && ranks[0].ctl.phase == Building(i)
    ensures AnyObjection(Answers(cfg, locals, ranks)) <==> !BuiltEverywhere(cfg, locals, i)
    ensures BuiltEverywhere(cfg, locals, i) ==>
              forall r :: 0 <= r < |locals| ==>
                TransportOf(locals[r].build(i)) == Some(WantedTransport(cfg.backends[i]))
  {
    var answers, b := Answers(cfg, locals, ranks), cfg.backends[i];
    forall r | 0 <= r < |locals| ensures answers[r] == Text(BuildError(b, locals[r].build(i))) {
      assert ranks[r].ctl == ranks[0].ctl;
    }
    forall r | 0 <= r < |locals| && BuildError(b, locals[r].build(i)) == ""
      ensures TransportOf(locals[r].build(i)) == Some(WantedTransport(b))
    {
      BuildErrorSound(b, locals[r].build(i));
    }
  }

  lemma AskVoteDecides(cfg: Config, locals: seq<Local>, ranks: seq<Rank>, j: nat)
    requires Inputs(cfg, locals) && Agreed(cfg, locals, ranks) && ranks[0].ctl.phase == Asking(j)
    ensures AnyObjection(Answers(cfg, locals, ranks)) <==> Refused(locals, j)
  {
    var answers := Answers(cfg, locals, ranks);
    forall r | 0 <= r < |locals| ensures answers[r] == Text(locals[r].refuse(j)) {
      assert ranks[r].ctl == ranks[0].ctl;
    }
    if Refused(locals, j) {
      var r :| 0 <= r < |locals| && locals[r].refuse(j) != "";
      assert answers[r].Text? && answers[r].text != "";
    }
  }

  // ----- the check vote

  lemma {:induction false} VerdictMapLookup(local: Local, round: nat, live: seq<Cell>, cell: Cell)
    requires cell in live
    ensures var m := VerdictMap(local, round, live);
            CellKey(cell) in m && m[CellKey(cell)] == local.check(round, cell)
  {
    var n := |live| - 1;
    if cell == live[n] {
    } else {
      assert cell in live[..n];
      VerdictMapLookup(local, round, live[..n], cell);
      if CellKey(cell) == CellKey(live[n]) { CellKeyInjective(cell, live[n]); }
    }
  }

  lemma CheckVoteDecides(cfg: Config, locals: seq<Local>, ranks: seq<Rank>, round: nat, cell: Cell)
    requires Inputs(cfg, locals) && Agreed(cfg, locals, ranks)
    requires ranks[0].ctl.phase == Checking(round) && cell in ranks[0].ctl.live
    ensures Failed(Answers(cfg, locals, ranks), cell) <==> !PassedRound(locals, cell, round)
  {
    var answers, live := Answers(cfg, locals, ranks), ranks[0].ctl.live;
    forall r | 0 <= r < |locals|
      ensures answers[r].Verdicts? && CellKey(cell) in answers[r].verdicts
      ensures answers[r].verdicts[CellKey(cell)] == locals[r].check(round, cell)
    {
      assert ranks[r].ctl == ranks[0].ctl;
      VerdictMapLookup(locals[r], round, live, cell);
    }
    if !PassedRound(locals, cell, round) {
      var r :| 0 <= r < |locals| && locals[r].check(round, cell) != "";
      assert answers[r].Verdicts?;
    }
  }

  function Kept(answers: seq<Message>, live: seq<Cell>): seq<Cell> {
    if live == [] then []
    else (if Failed(answers, live[0]) then [] else [live[0]]) + Kept(answers, live[1..])
  }

  lemma {:induction false} RemoveEachSkips(x: Cell, rest: seq<Cell>, drop: seq<Cell>)
    requires x !in drop
    ensures RemoveEach([x] + rest, drop) == [x] + RemoveEach(rest, drop)
    decreases |drop|
  {
    if drop != [] {
      assert ([x] + rest)[1..] == rest;
      assert x != drop[0] && x !in drop[1..];
      RemoveEachSkips(x, RemoveFirst(rest, drop[0]), drop[1..]);
    }
  }

  lemma {:induction false} FailedCellsFailed(answers: seq<Message>, live: seq<Cell>, cell: Cell)
    requires cell in FailedCells(answers, live)
    ensures Failed(answers, cell)
  {
    if cell in FailedCells(answers, live[1..]) { FailedCellsFailed(answers, live[1..], cell); }
  }

  /** Removing the failed cells one by one keeps exactly the others, in order. */
  lemma {:induction false} RemoveEachIsKept(answers: seq<Message>, live: seq<Cell>)
    ensures RemoveEach(live, FailedCells(answers, live)) == Kept(answers, live)
  {
    if live != [] {
      var x, rest := live[0], live[1..];
      var drop := FailedCells(answers, rest);
      RemoveEachIsKept(answers, rest);
      assert live == [x] + rest;
      if Failed(answers, x) {
        var all := [x] + drop;
        assert FailedCells(answers, live) == all && all[1..] == drop;
        assert RemoveFirst(live, x) == rest;
      } else {
        assert FailedCells(answers, live) == drop;
        if x in drop { FailedCellsFailed(answers, rest, x); }
        RemoveEachSkips(x, rest, drop);
      }
    }
  }

  lemma PassedNext(locals: seq<Local>, cell: Cell, n: nat)
    ensures Passed(locals, cell, n + 1) <==> Passed(locals, cell, n) && PassedRound(locals, cell, n)
  {
  }

  lemma {:induction false} KeptIsSurviving(locals: seq<Local>, answers: seq<Message>, cells: seq<Cell>, n: nat)
    requires forall cell :: cell in Surviving(locals, cells, n) ==>
               (Failed(answers, cell) <==> !PassedRound(locals, cell, n))
    ensures Kept(answers, Surviving(locals, cells, n)) == Surviving(locals, cells, n + 1)
  {
    if cells != [] {
      var rest := Surviving(locals, cells[1..], n);
      KeptIsSurviving(locals, answers, cells[1..], n);
      PassedNext(locals, cells[0], n);
      if Passed(locals, cells[0], n) {
        var all := [cells[0]] + rest;
        assert Surviving(locals, cells, n) == all && all[1..] == rest;
        assert cells[0] in all;
      } else {
        assert Surviving(locals, cells, n) == rest;
      }
    }
  }

  /** After the vote, live are exactly the cells every rank has passed in every round so far. */
  lemma LiveAfterVote(cfg: Config, locals: seq<Local>, ranks: seq<Rank>, round: nat)
    requires Inputs(cfg, locals) && Agreed(cfg, locals, ranks) && ranks[0].ctl.phase == Checking(round)
    ensures var c, answers := ranks[0].ctl, Answers(cfg, locals, ranks);
            RemoveEach(c.live, FailedCells(answers, c.live)) == Surviving(locals, c.cells, round + 1)
  {
    var c, answers := ranks[0].ctl, Answers(cfg, locals, ranks);
    RemoveEachIsKept(answers, c.live);
    forall cell | cell in Surviving(locals, c.cells, round)
      ensures Failed(answers, cell) <==> !PassedRound(locals, cell, round)
    {
      CheckVoteDecides(cfg, locals, ranks, round, cell);
    }
    KeptIsSurviving(locals, answers, c.cells, round);
  }

  // ----- one exchange

  lemma CommsNext(cfg: Config, locals: seq<Local>, comms: map<Backend, Option<string>>, i: nat, objection: bool, transport: Option<string>)
    requires i < |cfg.backends| && !cfg.backends[i].Nccl? && comms.Keys == UpSet(cfg, locals, i)
    requires forall b :: b in comms ==> comms[b] == Some(WantedTransport(b))
    requires objection <==> !BuiltEverywhere(cfg, locals, i)
    requires !objection ==> transport == Some(WantedTransport(cfg.backends[i]))
    ensures var next := if objection then comms else comms[cfg.backends[i] := transport];
            && next.Keys == UpSet(cfg, locals, i + 1)
            && forall b :: b in next ==> next[b] == Some(WantedTransport(b))
  {
    if !objection {
      assert comms[cfg.backends[i] := transport].Keys == comms.Keys + {cfg.backends[i]};
    }
  }

  lemma AfterBuildVoteOk(cfg: Config, locals: seq<Local>, c: Control, i: nat, objection: bool, transport: Option<string>)
    requires cfg.Valid() && BuildingOk(cfg, locals, c, i) && TransportsOk(c)
    requires objection <==> !BuiltEverywhere(cfg, locals, i)
    requires !objection ==> transport == Some(WantedTransport(cfg.backends[i]))
    ensures ControlOk(cfg, locals, AfterBuildVote(cfg, c, i, objection, transport))
    ensures var p := AfterBuildVote(cfg, c, i, objection, transport).phase;
            (p.Building? && p.i > i) || p.Asking? || p.Planning? || Aborted(p)
  {
    CommsNext(cfg, locals, c.comms, i, objection, transport);
    var comms := if objection then c.comms else c.comms[cfg.backends[i] := transport];
    ToBuildOk(cfg, locals, c.(comms := comms), i + 1);
  }

  /** From an agreed state, rank r resumes exactly as rank 0 does, into a good state. */
  ghost predicate ResumesAlike(cfg: Config, locals: seq<Local>, ranks: seq<Rank>, r: nat)
    requires cfg.Valid() && |locals| == |ranks| && r < |ranks|
  {
    var answers := Answers(cfg, locals, ranks);
    && Resume(cfg, locals[r], ranks[r].ctl, answers) == Resume(cfg, locals[0], ranks[0].ctl, answers)
    && ControlOk(cfg, locals, Resume(cfg, locals[r], ranks[r].ctl, answers))
  }

  ghost function NextPhase(cfg: Config, locals: seq<Local>, ranks: seq<Rank>): Phase
    requires cfg.Valid() && |locals| == |ranks| > 0
  {
    Resume(cfg, locals[0], ranks[0].ctl, Answers(cfg, locals, ranks)).phase
  }

  lemma ResumeBuild(cfg: Config, locals: seq<Local>, ranks: seq<Rank>, i: nat, r: nat)
    requires Inputs(cfg, locals) && Agreed(cfg, locals, ranks) && r < cfg.world
    requires ranks[0].ctl.phase == Building(i)
    ensures ResumesAlike(cfg, locals, ranks, r)
    ensures var p := NextPhase(cfg, locals, ranks); (p.Building? && p.i > i) || p.Asking? || p.Planning? || Aborted(p)
  {
    BuildVoteDecides(cfg, locals, ranks, i);
    var c, objection := Issued(ranks[0].ctl), AnyObjection(Answers(cfg, locals, ranks));
    assert Issued(ranks[r].ctl) == c;
    AfterBuildVoteOk(cfg, locals, c, i, objection, TransportOf(locals[0].build(i)));
    AfterBuildVoteOk(cfg, locals, c, i, objection, TransportOf(locals[r].build(i)));
  }

  lemma AfterAskVoteOk(cfg: Config, locals: seq<Local>, c: Control, j: nat, objection: bool)
    requires cfg.Valid() && AskingOk(cfg, locals, c, j) && TransportsOk(c)
    requires objection <==> Refused(locals, j)
    ensures var next := AfterAskVote(cfg, c, j, objection);
            && ControlOk(cfg, locals, next)
            && next.asked == c.asked
            && var p := next.phase; (p.Asking? && p.j > j) || p.Planning? || Aborted(p)
  {
    ToAskOk(cfg, locals, c.(cells := if objection then RemoveFirst(c.cells, c.asked[j]) else c.cells), j + 1);
  }

  lemma ResumeAsk(cfg: Config, locals: seq<Local>, ranks: seq<Rank>, j: nat, r: nat)
    requires Inputs(cfg, locals) && Agreed(cfg, locals, ranks) && r < cfg.world
    requires ranks[0].ctl.phase == Asking(j)
    ensures ResumesAlike(cfg, locals, ranks, r)
    ensures Resume(cfg, locals[0], ranks[0].ctl, Answers(cfg, locals, ranks)).asked == ranks[0].ctl.asked
    ensures var p := NextPhase(cfg, locals, ranks); (p.Asking? && p.j > j) || p.Planning? || Aborted(p)
  {
    AskVoteDecides(cfg, locals, ranks, j);
    var c := Issued(ranks[0].ctl);
    assert Issued(ranks[r].ctl) == c;
    AfterAskVoteOk(cfg, locals, c, j, AnyObjection(Answers(cfg, locals, ranks)));
  }

  lemma {:induction false} SurvivingAll(locals: seq<Local>, cells: seq<Cell>)
    ensures Surviving(locals, cells, 0) == cells
  {
    if cells != [] { SurvivingAll(locals, cells[1..]); }
  }

  lemma ResumePlan(cfg: Config, locals: seq<Local>, ranks: seq<Rank>, r: nat)
    requires Inputs(cfg, locals) && Agreed(cfg, locals, ranks) && r < cfg.world
    requires ranks[0].ctl.phase == Planning
    ensures ResumesAlike(cfg, locals, ranks, r)
    ensures NextPhase(cfg, locals, ranks) == if 0 < cfg.rounds then Checking(0) else Reporting
  {
    assert ranks[r].ctl == ranks[0].ctl;
    SurvivingAll(locals, ranks[0].ctl.cells);
  }

  /** What rank r does after a check vote depends on the others' verdicts and on its own clock only. */
  lemma ResumeCheck(cfg: Config, locals: seq<Local>, ranks: seq<Rank>, round: nat, r: nat)
    requires Inputs(cfg, locals) && Agreed(cfg, locals, ranks) && r < cfg.world
    requires ranks[0].ctl.phase == Checking(round)
    ensures Resume(cfg, locals[r], ranks[r].ctl, Answers(cfg, locals, ranks))
            == AfterCheckVote(cfg, Issued(ranks[0].ctl), round,
                              Surviving(locals, ranks[0].ctl.cells, round + 1), locals[r].late(round))
  {
    assert ranks[r].ctl == ranks[0].ctl;
    LiveAfterVote(cfg, locals, ranks, round);
  }

  lemma GoesOn(cfg: Config, locals: seq<Local>, c: Control, round: nat)
    requires cfg.Valid() && ControlOk(cfg, locals, c) && c.phase == Checking(round)
    requires Decides(cfg, locals, round) && NoneLate(locals, round + 1)
    ensures var next := AfterCheckVote(cfg, c, round, Surviving(locals, c.cells, round + 1), false);
            next.phase == Checking(round + 1) && ControlOk(cfg, locals, next)
  {
    hide FinalCells, Surviving, NoneLate, MeasureBlock, Rotate, BuildingOk, AskingOk;
    var live := Surviving(locals, c.cells, round + 1);
    var next := AfterCheckVote(cfg, c, round, live, false);
    assert next.phase == Checking(round + 1) && next.live == live && next.cells == c.cells && next.comms == c.comms;
    assert CheckingOk(cfg, locals, next, round + 1);
  }

  lemma Stops(cfg: Config, locals: seq<Local>, c: Control, round: nat, late: bool)
    requires cfg.Valid() && ControlOk(cfg, locals, c) && c.phase == Checking(round)
    requires !Decides(cfg, locals, round) || late
    ensures var next := AfterCheckVote(cfg, c, round, Surviving(locals, c.cells, round + 1), late);
            next.phase == Reporting && ControlOk(cfg, locals, next)
  {
    var next := AfterCheckVote(cfg, c, round, Surviving(locals, c.cells, round + 1), late);
    assert next.comms == c.comms;
  }

  /** Where the clocks do not decide, they do not matter either. */
  lemma ClockIrrelevant(cfg: Config, locals: seq<Local>, c: Control, round: nat)
    requires Inputs(cfg, locals) && ControlOk(cfg, locals, c) && c.phase == Checking(round)
    requires !Decides(cfg, locals, round)
    ensures var live := Surviving(locals, c.cells, round + 1);
            AfterCheckVote(cfg, c, round, live, true) == AfterCheckVote(cfg, c, round, live, false)
  {
  }

  lemma NoneLateNext(locals: seq<Local>, round: nat)
    requires NoneLate(locals, round) && SameClock(locals, round) && |locals| > 0 && !locals[0].late(round)
    ensures NoneLate(locals, round + 1)
  {
    forall q, past: nat | 0 <= q < |locals| && past < round + 1 ensures !locals[q].late(past) {
      assert locals[q].late(round) == locals[0].late(round);
    }
  }

  lemma ResumeCheckOk(cfg: Config, locals: seq<Local>, ranks: seq<Rank>, round: nat, r: nat)
    requires Inputs(cfg, locals) && Agreed(cfg, locals, ranks) && r < cfg.world
    requires ranks[0].ctl.phase == Checking(round)
    requires Decides(cfg, locals, round) ==> SameClock(locals, round)
    ensures ResumesAlike(cfg, locals, ranks, r)
    ensures NextPhase(cfg, locals, ranks)
            == if Decides(cfg, locals, round) && !locals[0].late(round) then Checking(round + 1) else Reporting
  {
    var c := Issued(ranks[0].ctl);
    ResumeCheck(cfg, locals, ranks, round, 0);
    ResumeCheck(cfg, locals, ranks, round, r);
    if Decides(cfg, locals, round) {
      assert locals[r].late(round) == locals[0].late(round);
    } else {
      ClockIrrelevant(cfg, locals, c, round);
    }
    if Decides(cfg, locals, round) && !locals[0].late(round) {
      NoneLateNext(locals, round);
      GoesOn(cfg, locals, c, round);
    } else {
      Stops(cfg, locals, c, round, locals[0].late(round));
    }
  }

  /** From an agreed state, one exchange leads to an agreed state if the clocks agree there. */
  lemma ExchangeAgrees(cfg: Config, locals: seq<Local>, ranks: seq<Rank>)
    requires Inputs(cfg, locals) && Agreed(cfg, locals, ranks)
    requires var p := ranks[0].ctl.phase;
             p.Checking? && Decides(cfg, locals, p.round) ==> SameClock(locals, p.round)
    ensures Agreed(cfg, locals, Exchange(cfg, locals, ranks))
    ensures Exchange(cfg, locals, ranks)[0].ctl == Resume(cfg, locals[0], ranks[0].ctl, Answers(cfg, locals, ranks))
  {
    var next := Exchange(cfg, locals, ranks);
    forall r | 0 <= r < cfg.world ensures ResumesAlike(cfg, locals, ranks, r) {
      match ranks[0].ctl.phase
      case Building(i) => ResumeBuild(cfg, locals, ranks, i, r);
      case Asking(j) => ResumeAsk(cfg, locals, ranks, j, r);
      case Planning => ResumePlan(cfg, locals, ranks, r);
      case Checking(round) => ResumeCheckOk(cfg, locals, ranks, round, r);
      case _ => assert ranks[r].ctl == ranks[0].ctl;
    }
    assert InStep(ranks);
    forall r | 0 <= r < cfg.world ensures next[r].ctl == next[0].ctl {
      assert ResumesAlike(cfg, locals, ranks, r);
    }
    assert ResumesAlike(cfg, locals, ranks, 0);
  }
}
