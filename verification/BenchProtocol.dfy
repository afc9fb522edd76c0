/** The transport benchmark as N ranks running one program. A rank issues collectives and, at
    each exchange (a vote, the plan broadcast, the result gather), contributes a value and
    reads everybody's. Local build errors, refusals, check verdicts, latencies and clock
    readings are arbitrary inputs of each rank. */
module BenchProtocol {
  import opened Basics
  import opened BenchCells

  /** The arguments, the same on every rank. */
  datatype Config = Config(
    backends: seq<Backend>, ops: seq<Op>, sizes: seq<nat>,
    world: nat, rowBytes: nat, pilot: nat, rounds: int, warmup: real, secs: real)
  {
    predicate Valid() { world >= 1 && rowBytes >= 1 }
  }

  /** What building a communicator gives on one rank. */
  datatype Build = Raised(kind: string, message: string) | Up(transport: Option<string>)

  /** Everything one rank observes by itself: per backend index, per asked cell, per round and
      cell (the verdict its round ends up with), per pilot cell, per round, series position and
      iteration, and whether its own clock is past the budget after a round. */
  datatype Local = Local(
    build: nat -> Build,
    refuse: nat -> string,
    check: (nat, Cell) -> string,
    pilotUs: Cell -> real,
    lap: (nat, nat, nat) -> real,
    late: nat -> bool)

  datatype Vote = BuildVote(i: nat) | AskVote(cell: Cell) | CheckVote(round: nat) | Results

  datatype Collective = Gather(vote: Vote) | Barrier | Broadcast | Run(cell: Cell)

  datatype Iterations = Iterations(warm: nat, meas: nat)

  type PlanMap = map<Cell, Iterations>

  /** What a rank hands to an exchange. */
  datatype Message =
    | Text(text: string)
    | Verdicts(verdicts: map<string, string>)
    | PlanBox(plan: PlanMap)
    | Nothing

  /** The exchange a rank is heading for. */
  datatype Phase =
    | Building(i: nat)
    | Asking(j: nat)
    | Planning
    | Checking(round: nat)
    | Reporting
    | Closing
    | Exited(code: int)

  /** A rank's control state. `todo` is what it issues up to and including its next exchange,
      `trace` what it has issued before, `done` the number of rounds voted on. */
  datatype Control = Control(
    phase: Phase, comms: map<Backend, Option<string>>, asked: seq<Cell>, cells: seq<Cell>,
    plan: PlanMap, live: seq<Cell>, done: nat, todo: seq<Collective>, trace: seq<Collective>)

  datatype Sample = Sample(round: nat, us: real)

  datatype Rank = Rank(ctl: Control, lat: map<Cell, seq<Sample>>)

  // ----- local work between exchanges

  function WantedTransport(b: Backend): string {
    match b
    case Nccl => ""
    case Host => "BarlinkHostTransport"
    case Device => "BarlinkDeviceTransport"
    case Shm => "BarlinkShmTransport"
    case Bar1 => "BarlinkBar1Transport"
    case Matrix => "BarlinkMatrixTransport"
  }

  /** The rank's own vote on a build: empty only if the transport asked for is the active one. */
  function BuildError(b: Backend, build: Build): string {
    match build
    case Raised(kind, message) => kind + ": " + message
    case Up(transport) =>
      if transport == Some(WantedTransport(b)) then ""
      else "transport not active; nothing is measured as a substitute"
  }

  function TransportOf(build: Build): Option<string> {
    if build.Up? then build.transport else None
  }

  function Repeat(c: Collective, n: nat): seq<Collective> {
    seq(n, _ => c)
  }

  /** One cell's turn: a barrier, then a series of operations. */
  function Turn(cell: Cell, iters: nat): seq<Collective> {
    [Barrier] + Repeat(Run(cell), iters)
  }

  function Planned(plan: PlanMap, cell: Cell): Iterations {
    if cell in plan then plan[cell] else Iterations(0, 0)
  }

  function PilotBlock(cells: seq<Cell>, pilot: nat): seq<Collective> {
    if cells == [] then [] else Turn(cells[0], 3 + pilot) + PilotBlock(cells[1..], pilot)
  }

  function WarmBlock(cells: seq<Cell>, plan: PlanMap): seq<Collective> {
    if cells == [] then [] else Turn(cells[0], Planned(plan, cells[0]).warm) + WarmBlock(cells[1..], plan)
  }

  function CheckBlock(live: seq<Cell>): seq<Collective> {
    if live == [] then [] else Turn(live[0], 1) + CheckBlock(live[1..])
  }

  function MeasureBlock(order: seq<Cell>, plan: PlanMap): seq<Collective> {
    if order == [] then []
    else Turn(order[0], Planned(plan, order[0]).meas + 1) + MeasureBlock(order[1..], plan)
  }

  /** Round robin: the live cells rotated by the round number. */
  function Rotate(live: seq<Cell>, round: nat): seq<Cell> {
    if live == [] then [] else var k := round % |live|; live[k..] + live[..k]
  }

  function RealMin(a: real, b: real): real { if a < b then a else b }
  function RealMax(a: real, b: real): real { if a < b then b else a }

  /** Rank 0's iteration counts for a cell, from its pilot latency. */
  function PlanCell(cfg: Config, pilotUs: real): Iterations {
    var us := RealMax(pilotUs, 1.0);
    var perRound := RealMax(0.2, cfg.secs) / (if cfg.rounds < 1 then 1 else cfg.rounds) as real;
    var warm := RealMin(200000.0, RealMax(20.0, cfg.warmup * 1000000.0 / us));
    var meas := RealMin(200000.0, RealMax(5.0, perRound * 1000000.0 / us));
    Iterations(warm.Floor, meas.Floor)
  }

  function MakePlan(cfg: Config, pilotUs: Cell -> real, cells: seq<Cell>): PlanMap {
    map c | c in cells :: PlanCell(cfg, pilotUs(c))
  }

  function Patterns(op: Op): seq<Pattern> {
    if op.AllToAll? then [Equal, Skewed] else [Whole]
  }

  function CellsOf(op: Op, bytes: nat, patterns: seq<Pattern>, active: seq<Backend>): seq<Cell> {
    if patterns == [] then []
    else
      seq(|active|, i requires 0 <= i < |active| => Cell(op, bytes, patterns[0], active[i]))
      + CellsOf(op, bytes, patterns[1..], active)
  }

  function SizeCells(op: Op, sizes: seq<nat>, active: seq<Backend>): seq<Cell> {
    if sizes == [] then [] else CellsOf(op, sizes[0], Patterns(op), active) + SizeCells(op, sizes[1..], active)
  }

  function AllCells(ops: seq<Op>, sizes: seq<nat>, active: seq<Backend>): seq<Cell> {
    if ops == [] then [] else SizeCells(ops[0], sizes, active) + AllCells(ops[1..], sizes, active)
  }

  /** Some payload does not carry one row per rank. */
  predicate TooSmall(cfg: Config)
    requires cfg.Valid()
  {
    AllToAll in cfg.ops && exists i :: 0 <= i < |cfg.sizes| && cfg.sizes[i] / cfg.rowBytes / cfg.world < 1
  }

  function Active(backends: seq<Backend>, up: set<Backend>): seq<Backend> {
    if backends == [] then []
    else (if backends[0].Nccl? || backends[0] in up then [backends[0]] else []) + Active(backends[1..], up)
  }

  function RemoveFirst(xs: seq<Cell>, x: Cell): seq<Cell> {
    if xs == [] then [] else if xs[0] == x then xs[1..] else [xs[0]] + RemoveFirst(xs[1..], x)
  }

  function RemoveEach(xs: seq<Cell>, drop: seq<Cell>): seq<Cell>
    decreases |drop|
  {
    if drop == [] then xs else RemoveEach(RemoveFirst(xs, drop[0]), drop[1..])
  }

  // ----- moving to the next exchange

  function ToExit(c: Control, code: int): Control {
    c.(phase := Exited(code), todo := [])
  }

  /** On to the next backend that is built here, or past the builds. */
  function ToBuild(cfg: Config, c: Control, i: nat): Control
    requires cfg.Valid()
    decreases |cfg.backends| - i
  {
    if i >= |cfg.backends| then AfterBuild(cfg, c)
    else if cfg.backends[i].Nccl? then ToBuild(cfg, c, i + 1)
    else c.(phase := Building(i), todo := [Gather(BuildVote(i))])
  }

  function AfterBuild(cfg: Config, c: Control): Control
    requires cfg.Valid()
  {
    var active := Active(cfg.backends, c.comms.Keys);
    if active == [] || TooSmall(cfg) then ToExit(c, 1)
    else
      var cells := AllCells(cfg.ops, cfg.sizes, active);
      ToAsk(cfg, c.(cells := cells, asked := cells), 0)
  }

  /** Asked are the all_to_all cells of a barlink backend whose communicator has a transport. */
  predicate Asks(c: Control, cell: Cell) {
    cell.op.AllToAll? && !cell.backend.Nccl? && cell.backend in c.comms && c.comms[cell.backend].Some?
  }

  function ToAsk(cfg: Config, c: Control, j: nat): Control
    decreases |c.asked| - j
  {
    if j >= |c.asked| then AfterAsk(cfg, c)
    else if !Asks(c, c.asked[j]) then ToAsk(cfg, c, j + 1)
    else c.(phase := Asking(j), todo := [Gather(AskVote(c.asked[j]))])
  }

  function AfterAsk(cfg: Config, c: Control): Control {
    if c.cells == [] then ToExit(c, 2)
    else c.(phase := Planning, todo := PilotBlock(c.cells, cfg.pilot) + [Broadcast])
  }

  function ToReport(c: Control, before: seq<Collective>): Control {
    c.(phase := Reporting, todo := before + [Gather(Results)])
  }

  function ToRound(cfg: Config, c: Control, round: nat, before: seq<Collective>): Control {
    if round >= cfg.rounds then ToReport(c, before)
    else c.(phase := Checking(round), todo := before + CheckBlock(c.live) + [Gather(CheckVote(round))])
  }

  function Start(cfg: Config): Rank
    requires cfg.Valid()
  {
    Rank(ToBuild(cfg, Control(Reporting, map[], [], [], map[], [], 0, [], []), 0), map[])
  }

  // ----- the exchanges

  function VerdictMap(local: Local, round: nat, live: seq<Cell>): map<string, string> {
    if live == [] then map[]
    else
      var n := |live| - 1;
      VerdictMap(local, round, live[..n])[CellKey(live[n]) := local.check(round, live[n])]
  }

  /** What this rank hands to the exchange it is heading for. */
  function Offer(cfg: Config, local: Local, c: Control): Message {
    match c.phase
    case Building(i) => if i < |cfg.backends| then Text(BuildError(cfg.backends[i], local.build(i))) else Nothing
    case Asking(j) => Text(local.refuse(j))
    case Planning => PlanBox(MakePlan(cfg, local.pilotUs, c.cells))
    case Checking(round) => Verdicts(VerdictMap(local, round, c.live))
    case _ => Nothing
  }

  predicate AnyObjection(answers: seq<Message>) {
    exists i :: 0 <= i < |answers| && answers[i].Text? && answers[i].text != ""
  }

  predicate Failed(answers: seq<Message>, cell: Cell) {
    exists i :: 0 <= i < |answers| && answers[i].Verdicts?
      && CellKey(cell) in answers[i].verdicts && answers[i].verdicts[CellKey(cell)] != ""
  }

  function FailedCells(answers: seq<Message>, live: seq<Cell>): seq<Cell> {
    if live == [] then []
    else (if Failed(answers, live[0]) then [live[0]] else []) + FailedCells(answers, live[1..])
  }

  function PlanFrom(answers: seq<Message>): PlanMap {
    if |answers| > 0 && answers[0].PlanBox? then answers[0].plan else map[]
  }

  /** After a build vote: keep the communicator only if nobody objected. */
  function AfterBuildVote(cfg: Config, c: Control, i: nat, objection: bool, transport: Option<string>): Control
    requires cfg.Valid() && i < |cfg.backends|
  {
    var comms := if objection then c.comms else c.comms[cfg.backends[i] := transport];
    ToBuild(cfg, c.(comms := comms), i + 1)
  }

  /** After asking the direct path: drop the cell if anybody's opts out. */
  function AfterAskVote(cfg: Config, c: Control, j: nat, objection: bool): Control
    requires j < |c.asked|
  {
    ToAsk(cfg, c.(cells := if objection then RemoveFirst(c.cells, c.asked[j]) else c.cells), j + 1)
  }

  function AfterPlan(cfg: Config, c: Control, plan: PlanMap): Control {
    ToRound(cfg, c.(plan := plan, live := c.cells), 0, WarmBlock(c.cells, plan))
  }

  /** After a check vote: measure what is still live, then go on unless this rank's clock says stop. */
  function AfterCheckVote(cfg: Config, c0: Control, round: nat, live: seq<Cell>, late: bool): Control {
    var c := c0.(live := live, done := round + 1);
    if live == [] then ToReport(c, [])
    else
      var measured := MeasureBlock(Rotate(live, round), c.plan);
      if late then ToReport(c, measured) else ToRound(cfg, c, round + 1, measured)
  }

  function Issued(c: Control): Control {
    c.(trace := c.trace + c.todo)
  }

  /** The control state after reading everybody's contribution. */
  function Resume(cfg: Config, local: Local, c0: Control, answers: seq<Message>): Control
    requires cfg.Valid()
  {
    var c := Issued(c0);
    match c.phase
    case Building(i) =>
      if i >= |cfg.backends| then ToExit(c, 1)
      else AfterBuildVote(cfg, c, i, AnyObjection(answers), TransportOf(local.build(i)))
    case Asking(j) =>
      if j >= |c.asked| then ToExit(c, 1)
      else AfterAskVote(cfg, c, j, AnyObjection(answers))
    case Planning => AfterPlan(cfg, c, PlanFrom(answers))
    case Checking(round) =>
      AfterCheckVote(cfg, c, round, RemoveEach(c.live, FailedCells(answers, c.live)), local.late(round))
    case Reporting => c.(phase := Closing, todo := [Barrier])
    case Closing => ToExit(c, 0)
    case Exited(_) => c
  }

  /** One timed series of which the first, settling, iteration is dropped. */
  function Series(local: Local, round: nat, pos: nat, iters: nat): (s: seq<Sample>)
    ensures |s| == iters
    ensures forall i :: 0 <= i < |s| ==> s[i].round == round
  {
    seq(iters + 1, it requires 0 <= it < iters + 1 => Sample(round, local.lap(round, pos, it)))[1..]
  }

  function Recorded(lat: map<Cell, seq<Sample>>, cell: Cell): seq<Sample> {
    if cell in lat then lat[cell] else []
  }

  /** The latency table after measuring the first n cells of a round's order. */
  function Measure(local: Local, round: nat, order: seq<Cell>, plan: PlanMap, lat: map<Cell, seq<Sample>>, n: nat)
    : map<Cell, seq<Sample>>
    requires n <= |order|
  {
    if n == 0 then lat
    else
      var before := Measure(local, round, order, plan, lat, n - 1);
      var cell := order[n - 1];
      before[cell := Recorded(before, cell) + Series(local, round, n - 1, Planned(plan, cell).meas)]
  }

  function ResumeLat(cfg: Config, local: Local, rank: Rank, answers: seq<Message>): map<Cell, seq<Sample>> {
    var c := rank.ctl;
    match c.phase
    case Planning => map cell | cell in c.cells :: []
    case Checking(round) =>
      var live := RemoveEach(c.live, FailedCells(answers, c.live));
      Measure(local, round, Rotate(live, round), c.plan, rank.lat, |Rotate(live, round)|)
    case _ => rank.lat
  }

  function ResumeRank(cfg: Config, local: Local, rank: Rank, answers: seq<Message>): Rank
    requires cfg.Valid()
  {
    Rank(Resume(cfg, local, rank.ctl, answers), ResumeLat(cfg, local, rank, answers))
  }

  // ----- the whole run

  /** Every rank is about to issue the same collectives; otherwise they hang. */
  predicate InStep(ranks: seq<Rank>) {
    forall i, j :: 0 <= i < |ranks| && 0 <= j < |ranks| ==> ranks[i].ctl.todo == ranks[j].ctl.todo
  }

  function Answers(cfg: Config, locals: seq<Local>, ranks: seq<Rank>): (a: seq<Message>)
    requires |locals| == |ranks|
    ensures |a| == |ranks|
  {
    seq(|ranks|, i requires 0 <= i < |ranks| => Offer(cfg, locals[i], ranks[i].ctl))
  }

  /** One exchange of all ranks. Ranks that are out of step never get past it. */
  function Exchange(cfg: Config, locals: seq<Local>, ranks: seq<Rank>): (r: seq<Rank>)
    requires cfg.Valid() && |locals| == |ranks|
    ensures |r| == |ranks|
  {
    if !InStep(ranks) then ranks
    else
      var answers := Answers(cfg, locals, ranks);
      seq(|ranks|, i requires 0 <= i < |ranks| => ResumeRank(cfg, locals[i], ranks[i], answers))
  }

  function RunFor(cfg: Config, locals: seq<Local>, k: nat): (r: seq<Rank>)
    requires cfg.Valid() && |locals| == cfg.world
    ensures |r| == cfg.world
  {
    if k == 0 then seq(cfg.world, _ => Start(cfg))
    else Exchange(cfg, locals, RunFor(cfg, locals, k - 1))
  }
}
