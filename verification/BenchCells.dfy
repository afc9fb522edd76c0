/** Measurement cells of the transport benchmark and the flat key the ranks exchange. */
module BenchCells {

  datatype Backend = Nccl | Host | Device | Shm | Bar1 | Matrix

  datatype Op = AllReduce | AllToAll

  /** `Whole` is the only pattern of all_reduce; all_to_all runs the other two. */
  datatype Pattern = Whole | Equal | Skewed

  datatype Cell = Cell(op: Op, bytes: nat, pattern: Pattern, backend: Backend)

  function OpName(op: Op): string {
    match op
    case AllReduce => "all_reduce"
    case AllToAll => "all_to_all"
  }

  function PatternName(p: Pattern): string {
    match p
    case Whole => "-"
    case Equal => "gleich"
    case Skewed => "schief"
  }

  function BackendName(b: Backend): string {
    match b
    case Nccl => "nccl"
    case Host => "barlink:host"
    case Device => "barlink:device"
    case Shm => "barlink:shm"
    case Bar1 => "barlink:bar1"
    case Matrix => "barlink:matrix"
  }

  function Digit(d: nat): char
    requires d < 10
  {
    "0123456789"[d]
  }

  function Decimal(n: nat): string {
    if n < 10 then [Digit(n)] else Decimal(n / 10) + [Digit(n % 10)]
  }

  function Fields(a: string, b: string, c: string, d: string): string {
    a + "|" + b + "|" + c + "|" + d
  }

  function CellKey(cell: Cell): string {
    Fields(OpName(cell.op), Decimal(cell.bytes), PatternName(cell.pattern), BackendName(cell.backend))
  }

  /** The number a decimal string denotes. */
  function Value(s: string): int {
    if s == [] then 0 else 10 * Value(s[..|s| - 1]) + (s[|s| - 1] as int - '0' as int)
  }

  lemma DigitValue(d: nat)
    requires d < 10
    ensures Digit(d) as int - '0' as int == d
  {
  }

  lemma {:induction false} DecimalValue(n: nat)
    ensures Value(Decimal(n)) == n
    ensures '|' !in Decimal(n)
  {
    var s := Decimal(n);
    if n < 10 {
      DigitValue(n);
      assert s[..0] == [];
    } else {
      DecimalValue(n / 10);
      DigitValue(n % 10);
      assert s[..|s| - 1] == Decimal(n / 10);
    }
  }

  /** A field that does not hold the separator can be read back off the front. */
  lemma {:induction false} FirstField(a: string, x: string, b: string, y: string)
    requires '|' !in a && '|' !in b
    requires a + "|" + x == b + "|" + y
    ensures a == b && x == y
  {
    var s := a + "|" + x;
    assert s[|a|] == '|' && s[|b|] == '|';
    assert a == s[..|a|] && b == s[..|b|];
    assert x == s[|a| + 1..] && y == s[|b| + 1..];
  }

  lemma FieldsInjective(a: string, b: string, c: string, d: string, a': string, b': string, c': string, d': string)
    requires '|' !in a && '|' !in b && '|' !in c && '|' !in a' && '|' !in b' && '|' !in c'
    requires Fields(a, b, c, d) == Fields(a', b', c', d')
    ensures a == a' && b == b' && c == c' && d == d'
  {
    var u, u' := c + "|" + d, c' + "|" + d';
    var t, t' := b + "|" + u, b' + "|" + u';
    assert Fields(a, b, c, d) == a + "|" + t;
    assert Fields(a', b', c', d') == a' + "|" + t';
    FirstField(a, t, a', t');
    FirstField(b, u, b', u');
    FirstField(c, d, c', d');
  }

  lemma NamesDistinct(a: Cell, b: Cell)
    ensures OpName(a.op) == OpName(b.op) ==> a.op == b.op
    ensures PatternName(a.pattern) == PatternName(b.pattern) ==> a.pattern == b.pattern
    ensures BackendName(a.backend) == BackendName(b.backend) ==> a.backend == b.backend
    ensures '|' !in OpName(a.op) && '|' !in PatternName(a.pattern)
  {
    assert OpName(a.op)[4] == (if a.op.AllReduce? then 'r' else 't');
    assert OpName(b.op)[4] == (if b.op.AllReduce? then 'r' else 't');
    assert PatternName(a.pattern)[0] == (match a.pattern case Whole => '-' case Equal => 'g' case Skewed => 's');
    assert PatternName(b.pattern)[0] == (match b.pattern case Whole => '-' case Equal => 'g' case Skewed => 's');
    BackendMark(a.backend);
    BackendMark(b.backend);
  }

  /** Length and ninth letter tell the backend names apart. */
  lemma BackendMark(b: Backend)
    ensures var s := BackendName(b);
            && (b.Nccl? ==> |s| == 4)
            && (b.Host? ==> |s| == 12 && s[8] == 'h')
            && (b.Bar1? ==> |s| == 12 && s[8] == 'b')
            && (b.Shm? ==> |s| == 11)
            && (b.Device? ==> |s| == 14 && s[8] == 'd')
            && (b.Matrix? ==> |s| == 14 && s[8] == 'm')
  {
  }

  /** No two cells share a key, so a vote about one cell is never read as a vote about another. */
  lemma CellKeyInjective(a: Cell, b: Cell)
    requires CellKey(a) == CellKey(b)
    ensures a == b
  {
    NamesDistinct(a, b);
    NamesDistinct(b, a);
    DecimalValue(a.bytes);
    DecimalValue(b.bytes);
    FieldsInjective(OpName(a.op), Decimal(a.bytes), PatternName(a.pattern), BackendName(a.backend),
                    OpName(b.op), Decimal(b.bytes), PatternName(b.pattern), BackendName(b.backend));
  }
}
