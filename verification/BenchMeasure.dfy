/** What the recorded latencies rest on, in every run, uniform or not. */
module BenchMeasure {
  import opened BenchCells
  import opened BenchProtocol
  import opened BenchAgreement
  import opened BenchRun

  /** How many of the first n rounds this cell survived, counting from the first. */
  ghost function Streak(locals: seq<Local>, cell: Cell, n: nat): (s: nat)
    ensures s <= n && (s == n <==> Passed(locals, cell, n))
    ensures Passed(locals, cell, s)
  {
    if n == 0 then 0
    else
      PassedNext(locals, cell, n - 1);
      var s := Streak(locals, cell, n - 1);
      if s == n - 1 && PassedRound(locals, cell, n - 1) then n else s
  }

  /** One sample's round lies behind, and every rank passed the cell's check in it and before. */
  ghost predicate SampleOk(locals: seq<Local>, cell: Cell, s: Sample, done: nat) {
    s.round < done && Passed(locals, cell, s.round + 1)
  }

  /** A cell's record: planned iterations for each copy of the cell and each surviving round, no
      more and no less, all of them from rounds it survived. */
  ghost predicate Complete(locals: seq<Local>, cell: Cell, record: seq<Sample>, meas: nat, copies: nat, done: nat) {
    && |record| == meas * copies * Streak(locals, cell, done)
    && forall i :: 0 <= i < |record| ==> SampleOk(locals, cell, record[i], done)
  }

  ghost predicate RecordOk(locals: seq<Local>, rank: Rank, cell: Cell) {
    var c := rank.ctl;
    Complete(locals, cell, Recorded(rank.lat, cell), Planned(c.plan, cell).meas, multiset(c.cells)[cell], c.done)
  }

  // ----- one round

  /** Each round's order is a permutation of the live cells. */
  lemma RotateIsPermutation(live: seq<Cell>, round: nat)
    ensures multiset(Rotate(live, round)) == multiset(live)
    ensures |Rotate(live, round)| == |live|
  {
    if live != [] {
      var k := round % |live|;
      assert live == live[..k] + live[k..];
    }
  }

  lemma {:induction false} SurvivingCounts(locals: seq<Local>, cells: seq<Cell>, n: nat, cell: Cell)
    ensures multiset(Surviving(locals, cells, n))[cell]
            == if Passed(locals, cell, n) then multiset(cells)[cell] else 0
  {
    if cells != [] {
      SurvivingCounts(locals, cells[1..], n, cell);
      assert cells == [cells[0]] + cells[1..];
    }
  }

  /** `now` is `was` followed by n samples of this round. */
  predicate Grown(was: seq<Sample>, now: seq<Sample>, n: nat, round: nat) {
    && |now| == |was| + n
    && was <= now
    && forall i :: |was| <= i < |now| ==> now[i].round == round
  }

  lemma GrownTwice(was: seq<Sample>, mid: seq<Sample>, now: seq<Sample>, m: nat, n: nat, round: nat)
    requires Grown(was, mid, m, round) && Grown(mid, now, n, round)
    ensures Grown(was, now, m + n, round)
  {
    forall i | |was| <= i < |now| ensures now[i].round == round {
      if i < |mid| { assert now[i] == mid[i]; }
    }
  }

  lemma OneTurn(before: map<Cell, seq<Sample>>, who: Cell, s: seq<Sample>, cell: Cell, round: nat)
    requires forall i :: 0 <= i < |s| ==> s[i].round == round
    ensures var after := before[who := Recorded(before, who) + s];
            Grown(Recorded(before, cell), Recorded(after, cell), if who == cell then |s| else 0, round)
  {
  }

  lemma OneMore(meas: nat, m: nat, more: bool)
    ensures meas * (m + (if more then 1 else 0)) == meas * m + (if more then meas else 0)
  {
  }

  lemma {:induction false} MeasureGrows(local: Local, round: nat, order: seq<Cell>, plan: PlanMap,
                                        lat: map<Cell, seq<Sample>>, n: nat, cell: Cell)
    requires n <= |order|
    ensures Grown(Recorded(lat, cell), Recorded(Measure(local, round, order, plan, lat, n), cell),
                  Planned(plan, cell).meas * multiset(order[..n])[cell], round)
  {
    hide Grown, Recorded, Planned;
    if n == 0 {
      NoTurn(Recorded(lat, cell), Planned(plan, cell).meas, order, cell, round);
    } else {
      var who := order[n - 1];
      var before := Measure(local, round, order, plan, lat, n - 1);
      var after := Measure(local, round, order, plan, lat, n);
      var meas, m := Planned(plan, cell).meas, multiset(order[..n - 1])[cell];
      MeasureGrows(local, round, order, plan, lat, n - 1, cell);
      OneTurn(before, who, Series(local, round, n - 1, Planned(plan, who).meas), cell, round);
      PrefixCount(order, n, cell);
      OneMore(meas, m, who == cell);
      GrownTwice(Recorded(lat, cell), Recorded(before, cell), Recorded(after, cell),
                 meas * m, if who == cell then meas else 0, round);
    }
  }

  lemma NoTurn(record: seq<Sample>, meas: nat, order: seq<Cell>, cell: Cell, round: nat)
    ensures Grown(record, record, meas * multiset(order[..0])[cell], round)
  {
    assert order[..0] == [];
  }

  lemma PrefixCount(order: seq<Cell>, n: nat, cell: Cell)
    requires 0 < n <= |order|
    ensures multiset(order[..n])[cell] == multiset(order[..n - 1])[cell] + (if order[n - 1] == cell then 1 else 0)
  {
    assert order[..n] == order[..n - 1] + [order[n - 1]];
  }

  /** A round's worth of samples keeps the record complete. */
  lemma GrownComplete(locals: seq<Local>, cell: Cell, was: seq<Sample>, now: seq<Sample>, meas: nat, copies: nat, round: nat)
    requires Complete(locals, cell, was, meas, copies, round)
    requires Grown(was, now, meas * (if Passed(locals, cell, round + 1) then copies else 0), round)
    ensures Complete(locals, cell, now, meas, copies, round + 1)
  {
    PassedNext(locals, cell, round);
    var s, s' := Streak(locals, cell, round), Streak(locals, cell, round + 1);
    assert meas * copies * (s + 1) == meas * copies * s + meas * copies;
    assert s' == if Passed(locals, cell, round + 1) then s + 1 else s;
    forall i | 0 <= i < |now| ensures SampleOk(locals, cell, now[i], round + 1) {
      if i < |was| { assert SampleOk(locals, cell, was[i], round); }
    }
  }

  lemma AfterCheckVoteKeeps(cfg: Config, c: Control, round: nat, live: seq<Cell>, late: bool)
    ensures var next := AfterCheckVote(cfg, c, round, live, late);
            next.plan == c.plan && next.cells == c.cells && next.done == round + 1
  {
  }

  lemma CheckedNext(cfg: Config, locals: seq<Local>, ranks: seq<Rank>, round: nat, r: nat)
    requires Inputs(cfg, locals) && Agreed(cfg, locals, ranks) && r < cfg.world
    requires ranks[0].ctl.phase == Checking(round)
    ensures var next := ResumeRank(cfg, locals[r], ranks[r], Answers(cfg, locals, ranks));
            var c := ranks[r].ctl;
            var order := Rotate(Surviving(locals, c.cells, round + 1), round);
            && next.ctl.plan == c.plan && next.ctl.cells == c.cells && next.ctl.done == round + 1 && c.done == round
            && next.lat == Measure(locals[r], round, order, c.plan, ranks[r].lat, |order|)
  {
    hide Surviving, Measure, Rotate, AfterCheckVote, FinalCells, RemoveEach, FailedCells, Answers, Resume;
    assert ranks[r].ctl == ranks[0].ctl;
    LiveAfterVote(cfg, locals, ranks, round);
    ResumeCheck(cfg, locals, ranks, round, r);
    var c := Issued(ranks[0].ctl);
    AfterCheckVoteKeeps(cfg, c, round, Surviving(locals, c.cells, round + 1), locals[r].late(round));
  }

  /** How often a cell is measured in a round: all its copies if it survives, else not at all. */
  lemma OrderCounts(locals: seq<Local>, cells: seq<Cell>, round: nat, cell: Cell)
    ensures var order := Rotate(Surviving(locals, cells, round + 1), round);
            multiset(order[..|order|])[cell] == if Passed(locals, cell, round + 1) then multiset(cells)[cell] else 0
  {
    var live := Surviving(locals, cells, round + 1);
    var order := Rotate(live, round);
    assert order[..|order|] == order;
    RotateIsPermutation(live, round);
    SurvivingCounts(locals, cells, round + 1, cell);
  }

  lemma CheckedRecord(cfg: Config, locals: seq<Local>, ranks: seq<Rank>, round: nat, r: nat, cell: Cell)
    requires Inputs(cfg, locals) && Agreed(cfg, locals, ranks) && r < cfg.world
    requires ranks[0].ctl.phase == Checking(round) && RecordOk(locals, ranks[r], cell)
    ensures RecordOk(locals, ResumeRank(cfg, locals[r], ranks[r], Answers(cfg, locals, ranks)), cell)
  {
    hide ResumeRank, ControlOk, Complete, Grown, Measure, Rotate, Surviving;
    var c, lat := ranks[r].ctl, ranks[r].lat;
    CheckedNext(cfg, locals, ranks, round, r);
    var order := Rotate(Surviving(locals, c.cells, round + 1), round);
    MeasureGrows(locals[r], round, order, c.plan, lat, |order|, cell);
    OrderCounts(locals, c.cells, round, cell);
    GrownComplete(locals, cell, Recorded(lat, cell),
                  Recorded(Measure(locals[r], round, order, c.plan, lat, |order|), cell),
                  Planned(c.plan, cell).meas, multiset(c.cells)[cell], round);
  }

  // ----- every other exchange leaves the records as they are

  lemma {:induction false} ToAskKeeps(cfg: Config, c: Control, j: nat)
    ensures ToAsk(cfg, c, j).done == c.done
    decreases |c.asked| - j
  {
    if j < |c.asked| && !Asks(c, c.asked[j]) { ToAskKeeps(cfg, c, j + 1); }
  }

  lemma {:induction false} ToBuildKeeps(cfg: Config, c: Control, i: nat)
    requires cfg.Valid()
    ensures ToBuild(cfg, c, i).done == c.done
    decreases |cfg.backends| - i
  {
    if i >= |cfg.backends| {
      var cells := AllCells(cfg.ops, cfg.sizes, Active(cfg.backends, c.comms.Keys));
      ToAskKeeps(cfg, c.(cells := cells, asked := cells), 0);
    } else if cfg.backends[i].Nccl? {
      ToBuildKeeps(cfg, c, i + 1);
    }
  }

  lemma EarlyNothing(locals: seq<Local>, cell: Cell, record: seq<Sample>, meas: nat, copies: nat)
    ensures Complete(locals, cell, record, meas, copies, 0) <==> record == []
  {
    assert Streak(locals, cell, 0) == 0;
  }

  lemma EarlyDone(cfg: Config, locals: seq<Local>, local: Local, c0: Control, answers: seq<Message>)
    requires cfg.Valid() && ControlOk(cfg, locals, c0) && Early(c0.phase)
    ensures c0.done == 0 && Resume(cfg, local, c0, answers).done == 0
  {
    hide ToAsk, ToBuild, FinalCells, UpSet, Built, CheckingOk, AnyObjection;
    var c := Issued(c0);
    match c.phase
    case Building(i) =>
      var comms := if AnyObjection(answers) then c.comms else c.comms[cfg.backends[i] := TransportOf(local.build(i))];
      ToBuildKeeps(cfg, c.(comms := comms), i + 1);
    case Asking(j) =>
      ToAskKeeps(cfg, c.(cells := if AnyObjection(answers) then RemoveFirst(c.cells, c.asked[j]) else c.cells), j + 1);
    case Planning =>
  }

  /** No round has been voted on yet, so nothing is recorded yet. */
  lemma EarlyRecord(cfg: Config, locals: seq<Local>, local: Local, rank: Rank, answers: seq<Message>, cell: Cell)
    requires cfg.Valid() && ControlOk(cfg, locals, rank.ctl) && RecordOk(locals, rank, cell)
    requires Early(rank.ctl.phase)
    ensures RecordOk(locals, ResumeRank(cfg, local, rank, answers), cell)
  {
    hide ControlOk, Resume, Complete;
    EarlyDone(cfg, locals, local, rank.ctl, answers);
    var c, next := rank.ctl, ResumeRank(cfg, local, rank, answers);
    EarlyNothing(locals, cell, Recorded(rank.lat, cell), Planned(c.plan, cell).meas, multiset(c.cells)[cell]);
    assert Recorded(next.lat, cell) == [];
    EarlyNothing(locals, cell, Recorded(next.lat, cell), Planned(next.ctl.plan, cell).meas, multiset(next.ctl.cells)[cell]);
  }

  lemma LateRecord(cfg: Config, locals: seq<Local>, local: Local, rank: Rank, answers: seq<Message>, cell: Cell)
    requires cfg.Valid() && RecordOk(locals, rank, cell)
    requires var p := rank.ctl.phase; p.Reporting? || p.Closing? || p.Exited?
    ensures RecordOk(locals, ResumeRank(cfg, local, rank, answers), cell)
  {
    var next := ResumeRank(cfg, local, rank, answers);
    assert next.lat == rank.lat && next.ctl.done == rank.ctl.done;
    assert next.ctl.plan == rank.ctl.plan && next.ctl.cells == rank.ctl.cells;
  }

  lemma ExchangeRecord(cfg: Config, locals: seq<Local>, ranks: seq<Rank>, r: nat, cell: Cell)
    requires Inputs(cfg, locals) && Agreed(cfg, locals, ranks) && r < cfg.world
    requires RecordOk(locals, ranks[r], cell)
    ensures RecordOk(locals, Exchange(cfg, locals, ranks)[r], cell)
  {
    var answers := Answers(cfg, locals, ranks);
    assert InStep(ranks) && ranks[r].ctl == ranks[0].ctl;
    var p := ranks[0].ctl.phase;
    if p.Checking? {
      CheckedRecord(cfg, locals, ranks, p.round, r, cell);
    } else if Early(p) {
      EarlyRecord(cfg, locals, locals[r], ranks[r], answers, cell);
    } else {
      LateRecord(cfg, locals, locals[r], ranks[r], answers, cell);
    }
  }

  /** Measurement safety: at every point of every run, on every rank and for every cell, the
      samples recorded are exactly the planned number per copy of the cell and surviving round,
      and each stems from a round in which all ranks passed that cell's check, as they had in
      every earlier round. */
  lemma {:induction false} MeasurementSafe(cfg: Config, locals: seq<Local>, k: nat, r: nat, cell: Cell)
    requires Inputs(cfg, locals) && r < cfg.world
    ensures RecordOk(locals, RunFor(cfg, locals, k)[r], cell)
    decreases k
  {
    if k == 0 {
      StartRecord(cfg, locals, r, cell);
    } else {
      MeasurementSafe(cfg, locals, k - 1, r, cell);
      NextRecord(cfg, locals, k - 1, r, cell);
    }
  }

  lemma StartRecord(cfg: Config, locals: seq<Local>, r: nat, cell: Cell)
    requires Inputs(cfg, locals) && r < cfg.world
    ensures RecordOk(locals, RunFor(cfg, locals, 0)[r], cell)
  {
    hide ToBuild;
    var start := Start(cfg);
    ToBuildKeeps(cfg, Control(Reporting, map[], [], [], map[], [], 0, [], []), 0);
    EarlyNothing(locals, cell, [], Planned(start.ctl.plan, cell).meas, multiset(start.ctl.cells)[cell]);
  }

  lemma NextRecord(cfg: Config, locals: seq<Local>, k: nat, r: nat, cell: Cell)
    requires Inputs(cfg, locals) && r < cfg.world && RecordOk(locals, RunFor(cfg, locals, k)[r], cell)
    ensures RecordOk(locals, RunFor(cfg, locals, k + 1)[r], cell)
  {
    hide RecordOk, Agreed;
    var ranks := RunFor(cfg, locals, k);
    AgreedOrStuck(cfg, locals, k);
    if AgreedAt(cfg, locals, k) {
      ExchangeRecord(cfg, locals, ranks, r, cell);
    } else {
      assert Exchange(cfg, locals, ranks) == ranks;
    }
  }
}
