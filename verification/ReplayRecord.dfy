/** The boot replay record: what is written, and what is read back from it. */
module ReplayRecord {
  import opened Basics
  import opened Text
  import opened FileText
  import EnvCapture

  type Env = EnvCapture.Env

  datatype Boot = Boot(argv: seq<string>, env: Env)

  datatype Section = Substitutions | BaselineArgv | ReplayArgv | BaselineEnv | ReplayEnv | Preamble

  function HeaderLine(s: Section): string
    requires !s.Preamble?
  {
    match s
    case Substitutions => "substitutions:"
    case BaselineArgv => "baseline argv:"
    case ReplayArgv => "replay argv:"
    case BaselineEnv => "baseline env:"
    case ReplayEnv => "replay env:"
  }

  /** The section a line opens, matched exactly. */
  function Opens(line: string): Option<Section> {
    if line == HeaderLine(Substitutions) then Some(Substitutions)
    else if line == HeaderLine(BaselineArgv) then Some(BaselineArgv)
    else if line == HeaderLine(ReplayArgv) then Some(ReplayArgv)
    else if line == HeaderLine(BaselineEnv) then Some(BaselineEnv)
    else if line == HeaderLine(ReplayEnv) then Some(ReplayEnv)
    else None
  }

  // ----- writing

  function ArgvLines(argv: seq<string>): seq<string> {
    if argv == [] then [""] else argv
  }

  function Indented(changes: seq<string>): seq<string> {
    seq(|changes|, i requires 0 <= i < |changes| => "  " + changes[i])
  }

  /** Everything before the replay sections. */
  function Opening(source: string, stamp: string, changes: seq<string>): seq<string> {
    ["baseline: " + source, "stamp: " + stamp, "", HeaderLine(Substitutions)] + Indented(changes)
    + ["", HeaderLine(BaselineArgv)]
  }

  /** The lines of a record, the keys of both environments given in order. */
  function RecordLines(source: string, stamp: string, changes: seq<string>,
                       base: Boot, baseKeys: seq<string>, next: Boot, nextKeys: seq<string>): seq<string>
    requires forall k :: k in baseKeys ==> k in base.env
    requires forall k :: k in nextKeys ==> k in next.env
  {
    Opening(source, stamp, changes) + ArgvLines(base.argv)
    + ["", HeaderLine(ReplayArgv)] + ArgvLines(next.argv)
    + ["", HeaderLine(BaselineEnv)] + EnvCapture.SettingLines(base.env, baseKeys)
    + ["", HeaderLine(ReplayEnv)] + EnvCapture.SettingLines(next.env, nextKeys)
  }

  // ----- reading

  datatype Reader = Reader(section: Section, argv: seq<string>, env: Env)

  function KeyOf(line: string): string {
    Before(line, '=')
  }

  function ValueOf(line: string): string
    requires '=' in line
  {
    line[|Before(line, '=')| + 1..]
  }

  function ReadLine(r: Reader, line: string): Reader {
    if Opens(line).Some? then r.(section := Opens(line).value)
    else if Blank(line) then r
    else if r.section.ReplayArgv? then r.(argv := r.argv + [line])
    else if r.section.ReplayEnv? && '=' in line then r.(env := r.env[KeyOf(line) := ValueOf(line)])
    else r
  }

  function ReadLines(r: Reader, lines: seq<string>): Reader
    decreases |lines|
  {
    if lines == [] then r else ReadLines(ReadLine(r, lines[0]), lines[1..])
  }

  const START := Reader(Preamble, [], map[])

  function Recovered(lines: seq<string>): Result<Boot, string> {
    var r := ReadLines(START, lines);
    if r.argv == [] then Err("no 'replay argv:' section found")
    else if r.env == map[] then Err("no 'replay env:' section found")
    else Ok(Boot(r.argv, r.env))
  }

  method ReadReplayRecord(text: string) returns (r: Result<Boot, string>)
    ensures r == Recovered(FileLines(text))
  {
    var argv: seq<string>, env: Env, section := [], map[], Preamble;
    var lines := FileLines(text);
    for i := 0 to |lines|
      invariant ReadLines(START, lines) == ReadLines(Reader(section, argv, env), lines[i..])
    {
      var line := lines[i];
      assert lines[i..][1..] == lines[i + 1..];
      if Opens(line).Some? {
        section := Opens(line).value;
        continue;
      }
      if Blank(line) {
        continue;
      }
      if section.ReplayArgv? {
        argv := argv + [line];
      } else if section.ReplayEnv? && '=' in line {
        env := env[KeyOf(line) := ValueOf(line)];
      }
    }
    if argv == [] {
      return Err("no 'replay argv:' section found");
    }
    if env == map[] {
      return Err("no 'replay env:' section found");
    }
    return Ok(Boot(argv, env));
  }

  // ----- what a stretch of lines contributes

  /** A line that is content, if its section collects any. */
  predicate Plain(line: string) {
    Opens(line).None? && !Blank(line)
  }

  function Next(s: Section, line: string): Section {
    if Opens(line).Some? then Opens(line).value else s
  }

  /** The section in force after some lines. */
  function After(s: Section, lines: seq<string>): Section
    decreases |lines|
  {
    if lines == [] then s else After(Next(s, lines[0]), lines[1..])
  }

  /** What one line hands over, read under section s. */
  function ArgvOf(s: Section, line: string): seq<string> {
    if s.ReplayArgv? && Plain(line) then [line] else []
  }

  function EnvOf(s: Section, line: string): Env {
    if s.ReplayEnv? && Plain(line) && '=' in line then map[KeyOf(line) := ValueOf(line)] else map[]
  }

  function TakenArgv(s: Section, lines: seq<string>): seq<string>
    decreases |lines|
  {
    if lines == [] then [] else ArgvOf(s, lines[0]) + TakenArgv(Next(s, lines[0]), lines[1..])
  }

  function TakenEnv(s: Section, lines: seq<string>): Env
    decreases |lines|
  {
    if lines == [] then map[] else EnvOf(s, lines[0]) + TakenEnv(Next(s, lines[0]), lines[1..])
  }

  lemma OverlayAssociative(a: Env, b: Env, c: Env)
    ensures a + (b + c) == a + b + c
  {
  }

  /** Reading some lines adds what they contribute to what was held before. */
  lemma {:induction false} ReadLinesTakes(r: Reader, lines: seq<string>)
    ensures ReadLines(r, lines)
            == Reader(After(r.section, lines), r.argv + TakenArgv(r.section, lines), r.env + TakenEnv(r.section, lines))
    decreases |lines|
  {
    hide ReadLine, ArgvOf, EnvOf, Next;
    if lines == [] {
      assert r.argv + [] == r.argv;
      assert r.env + map[] == r.env;
    } else {
      var s := r.section;
      ReadLineTakes(r, lines[0]);
      ReadLinesTakes(ReadLine(r, lines[0]), lines[1..]);
      var s' := Next(s, lines[0]);
      assert r.argv + ArgvOf(s, lines[0]) + TakenArgv(s', lines[1..]) == r.argv + TakenArgv(s, lines);
      OverlayAssociative(r.env, EnvOf(s, lines[0]), TakenEnv(s', lines[1..]));
    }
  }

  lemma ReadLineTakes(r: Reader, line: string)
    ensures ReadLine(r, line)
            == Reader(Next(r.section, line), r.argv + ArgvOf(r.section, line), r.env + EnvOf(r.section, line))
  {
    hide Opens, Blank, KeyOf, ValueOf;
    assert r.argv + [] == r.argv;
    assert r.env + map[] == r.env;
  }

  lemma {:induction false} TakenConcat(s: Section, a: seq<string>, b: seq<string>)
    ensures After(s, a + b) == After(After(s, a), b)
    ensures TakenArgv(s, a + b) == TakenArgv(s, a) + TakenArgv(After(s, a), b)
    ensures TakenEnv(s, a + b) == TakenEnv(s, a) + TakenEnv(After(s, a), b)
    decreases |a|
  {
    hide ArgvOf, EnvOf, Next;
    if a == [] {
      assert a + b == b;
      assert map[] + TakenEnv(s, b) == TakenEnv(s, b);
    } else {
      assert (a + b)[1..] == a[1..] + b && (a + b)[0] == a[0];
      var s' := Next(s, a[0]);
      TakenConcat(s', a[1..], b);
      OverlayAssociative(EnvOf(s, a[0]), TakenEnv(s', a[1..]), TakenEnv(After(s, a), b));
    }
  }

  /** Whatever is taken is content, and taken keys hold no '='. */
  lemma {:induction false} TakenIsPlain(s: Section, lines: seq<string>)
    ensures forall i :: 0 <= i < |TakenArgv(s, lines)| ==> Plain(TakenArgv(s, lines)[i])
    ensures forall k :: k in TakenEnv(s, lines) ==> '=' !in k
    decreases |lines|
  {
    hide Plain, Next;
    if lines != [] { TakenIsPlain(Next(s, lines[0]), lines[1..]); }
  }

  /** Content read under a header that collects nothing is passed over. */
  lemma {:induction false} NothingTaken(s: Section, lines: seq<string>)
    requires !s.ReplayArgv? && !s.ReplayEnv?
    requires forall i :: 0 <= i < |lines| ==> Opens(lines[i]).None?
    ensures After(s, lines) == s && TakenArgv(s, lines) == [] && TakenEnv(s, lines) == map[]
    decreases |lines|
  {
    hide Opens, Blank;
    if lines != [] { NothingTaken(s, lines[1..]); }
  }

  lemma {:induction false} AllTaken(lines: seq<string>)
    requires forall i :: 0 <= i < |lines| ==> Plain(lines[i])
    ensures After(ReplayArgv, lines) == ReplayArgv && TakenArgv(ReplayArgv, lines) == lines
    ensures TakenEnv(ReplayArgv, lines) == map[]
    decreases |lines|
  {
    hide Opens, Blank;
    if lines != [] { AllTaken(lines[1..]); }
  }

  /** These lines, read from section s, hand over no argument and no key outside `keys`: each
      content line stands under another header, or sets one of the keys. */
  ghost predicate Harmless(s: Section, lines: seq<string>, keys: set<string>) {
    forall i :: 0 <= i < |lines| && Plain(lines[i]) ==> HarmlessAt(After(s, lines[..i]), lines[i], keys)
  }

  ghost predicate HarmlessAt(s: Section, line: string, keys: set<string>) {
    !s.ReplayArgv? && (s.ReplayEnv? && '=' in line ==> KeyOf(line) in keys)
  }

  lemma {:induction false} HarmlessIff(s: Section, lines: seq<string>, keys: set<string>)
    ensures Harmless(s, lines, keys) <==> TakenArgv(s, lines) == [] && TakenEnv(s, lines).Keys <= keys
    decreases |lines|
  {
    hide Plain, Next, KeyOf, ValueOf;
    if lines != [] {
      var rest, s' := lines[1..], Next(s, lines[0]);
      HarmlessIff(s', rest, keys);
      HarmlessHead(s, lines, keys);
    }
  }

  lemma HarmlessHead(s: Section, lines: seq<string>, keys: set<string>)
    requires lines != []
    ensures Harmless(s, lines, keys) <==>
            (Plain(lines[0]) ==> HarmlessAt(s, lines[0], keys)) && Harmless(Next(s, lines[0]), lines[1..], keys)
  {
    hide Plain, Next, HarmlessAt;
    var rest, s' := lines[1..], Next(s, lines[0]);
    forall i | 0 <= i < |rest| ensures After(s', rest[..i]) == After(s, lines[..i + 1]) && rest[i] == lines[i + 1] {
      assert lines[..i + 1][1..] == rest[..i];
    }
    assert After(s, lines[..0]) == s;
    if Harmless(s, lines, keys) {
      forall i | 0 <= i < |rest| && Plain(rest[i]) ensures HarmlessAt(After(s', rest[..i]), rest[i], keys) {
        assert HarmlessAt(After(s, lines[..i + 1]), lines[i + 1], keys);
      }
    }
    if (Plain(lines[0]) ==> HarmlessAt(s, lines[0], keys)) && Harmless(s', rest, keys) {
      forall i | 0 <= i < |lines| && Plain(lines[i]) ensures HarmlessAt(After(s, lines[..i]), lines[i], keys) {
        if i > 0 { assert HarmlessAt(After(s', rest[..i - 1]), rest[i - 1], keys); }
      }
    }
  }

  // ----- the segments of a record

  lemma HeaderOpens(sec: Section)
    requires !sec.Preamble?
    ensures Opens(HeaderLine(sec)) == Some(sec)
  {
    assert HeaderLine(Substitutions)[0] == 's';
    assert HeaderLine(BaselineArgv)[9] == 'a' && HeaderLine(BaselineEnv)[9] == 'e';
    assert HeaderLine(ReplayArgv)[7] == 'a' && HeaderLine(ReplayEnv)[7] == 'e';
  }

  /** A blank line and a header: whatever was in force, the header's section is now. */
  lemma HeaderTaken(s: Section, sec: Section)
    requires !sec.Preamble?
    ensures After(s, ["", HeaderLine(sec)]) == sec
    ensures TakenArgv(s, ["", HeaderLine(sec)]) == [] && TakenEnv(s, ["", HeaderLine(sec)]) == map[]
  {
    hide Opens, HeaderLine;
    var h := HeaderLine(sec);
    HeaderOpens(sec);
    BlankLineSkipped();
    assert ["", h][1..] == [h] && [h][1..] == [];
    assert Next(s, "") == s && Next(s, h) == sec;
    assert After(s, [h]) == sec && TakenArgv(s, [h]) == [] && TakenEnv(s, [h]) == map[];
  }

  lemma BlankLineSkipped()
    ensures Opens("") == None && Blank("")
  {
  }

  lemma OpeningLines(source: string, stamp: string, change: string)
    ensures Opens("baseline: " + source) == None && Opens("stamp: " + stamp) == None && Opens("  " + change) == None
  {
    var a, b, c := "baseline: " + source, "stamp: " + stamp, "  " + change;
    assert a[8] == ':' && b[5] == ':' && c[0] == ' ';
    assert HeaderLine(Substitutions)[8] == 't' && HeaderLine(Substitutions)[5] == 'i' && HeaderLine(Substitutions)[0] == 's';
    assert HeaderLine(BaselineArgv)[8] == ' ' && HeaderLine(BaselineArgv)[5] == 'i' && HeaderLine(BaselineArgv)[0] == 'b';
    assert HeaderLine(BaselineEnv)[8] == ' ' && HeaderLine(BaselineEnv)[5] == 'i' && HeaderLine(BaselineEnv)[0] == 'b';
    assert HeaderLine(ReplayArgv)[8] == 'r' && HeaderLine(ReplayArgv)[5] == 'y' && HeaderLine(ReplayArgv)[0] == 'r';
    assert HeaderLine(ReplayEnv)[8] == 'n' && HeaderLine(ReplayEnv)[5] == 'y' && HeaderLine(ReplayEnv)[0] == 'r';
  }

  lemma OpeningTaken(source: string, stamp: string, changes: seq<string>)
    ensures var lines := Opening(source, stamp, changes);
            After(Preamble, lines) == BaselineArgv && TakenArgv(Preamble, lines) == [] && TakenEnv(Preamble, lines) == map[]
  {
    hide Opens, HeaderLine;
    var first := ["baseline: " + source, "stamp: " + stamp];
    var second, third := ["", HeaderLine(Substitutions)], Indented(changes);
    OpeningLines(source, stamp, "");
    forall i | 0 <= i < |third| ensures Opens(third[i]).None? { OpeningLines(source, stamp, changes[i]); }
    NothingTaken(Preamble, first);
    HeaderTaken(Preamble, Substitutions);
    NothingTaken(Substitutions, third);
    HeaderTaken(Substitutions, BaselineArgv);
    assert Opening(source, stamp, changes) == first + second + third + ["", HeaderLine(BaselineArgv)];
    TakenConcat(Preamble, first, second);
    TakenConcat(Preamble, first + second, third);
    TakenConcat(Preamble, first + second + third, ["", HeaderLine(BaselineArgv)]);
  }

  /** A line with '=' is content. */
  lemma SettingIsPlain(line: string)
    requires '=' in line
    ensures Plain(line)
  {
    var i :| 0 <= i < |line| && line[i] == '=';
    assert !IsSpace(line[i]);
    assert '=' !in HeaderLine(Substitutions) && '=' !in HeaderLine(BaselineArgv) && '=' !in HeaderLine(BaselineEnv);
    assert '=' !in HeaderLine(ReplayArgv) && '=' !in HeaderLine(ReplayEnv);
  }

  /** Setting lines open no section and hand over nothing but settings. */
  lemma {:induction false} SettingsPass(s: Section, env: Env, ks: seq<string>)
    requires forall k :: k in ks ==> k in env
    ensures var lines := EnvCapture.SettingLines(env, ks);
            && After(s, lines) == s
            && (!s.ReplayArgv? ==> TakenArgv(s, lines) == [])
            && (!s.ReplayEnv? ==> TakenEnv(s, lines) == map[])
    decreases |ks|
  {
    hide Opens, Blank, KeyOf, ValueOf;
    var lines := EnvCapture.SettingLines(env, ks);
    if ks != [] {
      assert lines[1..] == EnvCapture.SettingLines(env, ks[1..]);
      SettingHasEquals(ks[0], env[ks[0]]);
      SettingIsPlain(lines[0]);
      SettingsPass(s, env, ks[1..]);
    }
  }

  lemma SettingHasEquals(key: string, value: string)
    ensures '=' in EnvCapture.Setting(key, value)
  {
    assert EnvCapture.Setting(key, value)[|key|] == '=';
  }

  /** Under the replay header they give the environment back. */
  lemma {:induction false} SettingsTaken(env: Env, ks: seq<string>)
    requires forall k :: k in ks ==> k in env && '=' !in k
    ensures TakenEnv(ReplayEnv, EnvCapture.SettingLines(env, ks)) == map k | k in ks :: env[k]
    decreases |ks|
  {
    hide Plain, EnvCapture.Setting, KeyOf, ValueOf, Next;
    var lines := EnvCapture.SettingLines(env, ks);
    if ks != [] {
      var k, rest := ks[0], ks[1..];
      assert lines[1..] == EnvCapture.SettingLines(env, rest);
      SettingParts(k, env[k]);
      SettingIsPlain(lines[0]);
      PlainStays(ReplayEnv, lines[0]);
      SettingsTaken(env, rest);
      OneMoreKey(env, ks);
    }
  }

  lemma PlainStays(s: Section, line: string)
    requires Plain(line)
    ensures Next(s, line) == s
  {
  }

  lemma OneMoreKey(env: Env, ks: seq<string>)
    requires ks != [] && forall k :: k in ks ==> k in env
    ensures map[ks[0] := env[ks[0]]] + (map k | k in ks[1..] :: env[k]) == map k | k in ks :: env[k]
  {
    assert forall k :: k in ks <==> k == ks[0] || k in ks[1..];
  }

  lemma SettingParts(key: string, value: string)
    requires '=' !in key
    ensures var line := EnvCapture.Setting(key, value);
            '=' in line && KeyOf(line) == key && ValueOf(line) == value
  {
    var line := key + ['='] + value;
    BeforeIs(key, '=', value);
    assert line[|key|] == '=';
    assert line[|key| + 1..] == value;
  }

  // ----- the whole record

  /** One boot record: where it came from, what was changed, the boot before and the boot after. */
  datatype Record = Record(source: string, stamp: string, changes: seq<string>, base: Boot, next: Boot)

  ghost predicate Keyed(rec: Record, baseKeys: seq<string>, nextKeys: seq<string>) {
    Enumerates(baseKeys, rec.base.env.Keys) && Enumerates(nextKeys, rec.next.env.Keys)
  }

  function Lines(rec: Record, baseKeys: seq<string>, nextKeys: seq<string>): seq<string>
    requires forall k :: k in baseKeys ==> k in rec.base.env
    requires forall k :: k in nextKeys ==> k in rec.next.env
  {
    RecordLines(rec.source, rec.stamp, rec.changes, rec.base, baseKeys, rec.next, nextKeys)
  }

  /** The text holds the record, its environments in order of their keys. */
  ghost predicate Written(rec: Record, text: string) {
    exists baseKeys, nextKeys :: Keyed(rec, baseKeys, nextKeys) && text == Unlines(Lines(rec, baseKeys, nextKeys))
  }

  /** The record, written line by line. */
  method WriteRecord(rec: Record) returns (text: string)
    ensures Written(rec, text)
  {
    hide Unlines, HeaderLine, Less;
    var bs := SortedNames(rec.base.env.Keys);
    var ns := SortedNames(rec.next.env.Keys);
    var lines := Opening(rec.source, rec.stamp, rec.changes);
    lines := lines + ArgvLines(rec.base.argv) + ["", HeaderLine(ReplayArgv)] + ArgvLines(rec.next.argv);
    lines := lines + ["", HeaderLine(BaselineEnv)];
    var settings := Settings(rec.base.env, bs);
    lines := lines + settings + ["", HeaderLine(ReplayEnv)];
    settings := Settings(rec.next.env, ns);
    text := Unlines(lines + settings);
    assert Keyed(rec, bs, ns) && text == Unlines(Lines(rec, bs, ns));
  }

  method Settings(env: Env, keys: seq<string>) returns (lines: seq<string>)
    requires forall k :: k in keys ==> k in env
    ensures lines == EnvCapture.SettingLines(env, keys)
  {
    hide EnvCapture.Setting;
    lines := [];
    for i := 0 to |keys|
      invariant |lines| == i && forall j :: 0 <= j < i ==> lines[j] == EnvCapture.Setting(keys[j], env[keys[j]])
    {
      lines := lines + [EnvCapture.Setting(keys[i], env[keys[i]])];
    }
  }

  // ----- the lines a record is read as, whatever its strings hold

  /** Everything before the replayed arguments. */
  function AheadLines(rec: Record): seq<string> {
    AllPieces(Opening(rec.source, rec.stamp, rec.changes) + ArgvLines(rec.base.argv))
  }

  function ArgumentLines(b: Boot): seq<string> {
    AllPieces(ArgvLines(b.argv))
  }

  function EnvironmentLines(b: Boot, keys: seq<string>): seq<string>
    requires forall k :: k in keys ==> k in b.env
  {
    AllPieces(EnvCapture.SettingLines(b.env, keys))
  }

  lemma HeaderOneLine(sec: Section)
    requires !sec.Preamble?
    ensures OneLine(HeaderLine(sec))
  {
  }

  lemma HeaderPieces(sec: Section)
    requires !sec.Preamble?
    ensures AllPieces(["", HeaderLine(sec)]) == ["", HeaderLine(sec)]
  {
    hide HeaderLine;
    HeaderOneLine(sec);
    AllPiecesIdle(["", HeaderLine(sec)]);
  }

  lemma RecordPieces(rec: Record, baseKeys: seq<string>, nextKeys: seq<string>)
    requires Keyed(rec, baseKeys, nextKeys)
    ensures AllPieces(Lines(rec, baseKeys, nextKeys))
            == AheadLines(rec) + ["", HeaderLine(ReplayArgv)] + ArgumentLines(rec.next)
               + ["", HeaderLine(BaselineEnv)] + EnvironmentLines(rec.base, baseKeys)
               + ["", HeaderLine(ReplayEnv)] + EnvironmentLines(rec.next, nextKeys)
  {
    hide HeaderLine, Opening, ArgvLines, EnvCapture.SettingLines, Less, AllPieces;
    var a, b := Opening(rec.source, rec.stamp, rec.changes) + ArgvLines(rec.base.argv), ArgvLines(rec.next.argv);
    var c, d := EnvCapture.SettingLines(rec.base.env, baseKeys), EnvCapture.SettingLines(rec.next.env, nextKeys);
    var h1, h2, h3 := ["", HeaderLine(ReplayArgv)], ["", HeaderLine(BaselineEnv)], ["", HeaderLine(ReplayEnv)];
    HeaderPieces(ReplayArgv);
    HeaderPieces(BaselineEnv);
    HeaderPieces(ReplayEnv);
    AllPiecesConcat(a, h1);
    AllPiecesConcat(a + h1, b);
    AllPiecesConcat(a + h1 + b, h2);
    AllPiecesConcat(a + h1 + b + h2, c);
    AllPiecesConcat(a + h1 + b + h2 + c, h3);
    AllPiecesConcat(a + h1 + b + h2 + c + h3, d);
    assert Lines(rec, baseKeys, nextKeys) == a + h1 + b + h2 + c + h3 + d;
  }

  /** What the reader holds after a whole record, for all strings. */
  lemma RecordTaken(rec: Record, baseKeys: seq<string>, nextKeys: seq<string>)
    requires Keyed(rec, baseKeys, nextKeys)
    ensures var r := ReadLines(START, AllPieces(Lines(rec, baseKeys, nextKeys)));
            var a, b := AheadLines(rec), ArgumentLines(rec.next);
            var c, d := EnvironmentLines(rec.base, baseKeys), EnvironmentLines(rec.next, nextKeys);
            && r.argv == TakenArgv(Preamble, a) + TakenArgv(ReplayArgv, b) + TakenArgv(BaselineEnv, c) + TakenArgv(ReplayEnv, d)
            && r.env == TakenEnv(Preamble, a) + TakenEnv(ReplayArgv, b) + TakenEnv(BaselineEnv, c) + TakenEnv(ReplayEnv, d)
  {
    hide TakenArgv, TakenEnv, After, HeaderLine, Lines, AllPieces, AheadLines, ArgumentLines, EnvironmentLines, Less;
    var a, b := AheadLines(rec), ArgumentLines(rec.next);
    var c, d := EnvironmentLines(rec.base, baseKeys), EnvironmentLines(rec.next, nextKeys);
    var h1, h2, h3 := ["", HeaderLine(ReplayArgv)], ["", HeaderLine(BaselineEnv)], ["", HeaderLine(ReplayEnv)];
    RecordPieces(rec, baseKeys, nextKeys);
    HeaderTaken(After(Preamble, a), ReplayArgv);
    HeaderTaken(After(ReplayArgv, b), BaselineEnv);
    HeaderTaken(After(BaselineEnv, c), ReplayEnv);
    TakenConcat(Preamble, a, h1);
    TakenConcat(Preamble, a + h1, b);
    TakenConcat(Preamble, a + h1 + b, h2);
    TakenConcat(Preamble, a + h1 + b + h2, c);
    TakenConcat(Preamble, a + h1 + b + h2 + c, h3);
    TakenConcat(Preamble, a + h1 + b + h2 + c + h3, d);
    ReadLinesTakes(START, a + h1 + b + h2 + c + h3 + d);
    EnvSum(TakenEnv(Preamble, a), TakenEnv(ReplayArgv, b), TakenEnv(BaselineEnv, c), TakenEnv(ReplayEnv, d));
  }

  lemma EnvSum(a: Env, b: Env, c: Env, d: Env)
    ensures map[] + (a + map[] + b + map[] + c + map[] + d) == a + b + c + d
  {
  }

  /** The conditions under which a record gives back its replay boot. */
  ghost predicate Recoverable(rec: Record) {
    && Replayed(rec.next)
    && Harmless(Preamble, AheadLines(rec), rec.next.env.Keys)
    && forall baseKeys | Enumerates(baseKeys, rec.base.env.Keys) ::
         Harmless(BaselineEnv, EnvironmentLines(rec.base, baseKeys), rec.next.env.Keys)
  }

  /** A boot whose own two sections say what it is. */
  ghost predicate Replayed(b: Boot) {
    && b.argv != [] && b.env != map[]
    && (forall i :: 0 <= i < |b.argv| ==> Plain(b.argv[i]) && OneLine(b.argv[i]))
    && (forall k :: k in b.env ==> '=' !in k && OneLine(k) && OneLine(b.env[k]))
  }

  lemma WholeMap(env: Env, ks: seq<string>)
    requires Enumerates(ks, env.Keys)
    ensures (map k | k in ks :: env[k]) == env
  {
    hide Less;
  }

  lemma SettingsOneLine(b: Boot, ks: seq<string>)
    requires forall k :: k in ks ==> k in b.env && OneLine(k) && OneLine(b.env[k])
    ensures EnvironmentLines(b, ks) == EnvCapture.SettingLines(b.env, ks)
  {
    hide AllPieces;
    var lines := EnvCapture.SettingLines(b.env, ks);
    forall i | 0 <= i < |lines| ensures OneLine(lines[i]) {
      assert ks[i] in ks;
      assert lines[i] == ks[i] + "=" + b.env[ks[i]];
    }
    AllPiecesIdle(lines);
  }

  /** The sections of such a boot hand it over. */
  lemma ReplayedTaken(b: Boot, ks: seq<string>)
    requires Replayed(b) && Enumerates(ks, b.env.Keys)
    ensures TakenArgv(ReplayArgv, ArgumentLines(b)) == b.argv && TakenEnv(ReplayArgv, ArgumentLines(b)) == map[]
    ensures TakenArgv(ReplayEnv, EnvironmentLines(b, ks)) == [] && TakenEnv(ReplayEnv, EnvironmentLines(b, ks)) == b.env
  {
    hide TakenArgv, TakenEnv, Less, Plain, OneLine, EnvCapture.SettingLines, EnvironmentLines, AllPieces;
    AllPiecesIdle(b.argv);
    AllTaken(b.argv);
    SettingsOneLine(b, ks);
    SettingsPass(ReplayEnv, b.env, ks);
    SettingsTaken(b.env, ks);
    WholeMap(b.env, ks);
  }

  lemma OverlaidBy(a: Env, c: Env, env: Env)
    requires a.Keys <= env.Keys && c.Keys <= env.Keys
    ensures a + map[] + c + env == env
  {
  }

  lemma RecoverableReads(rec: Record, baseKeys: seq<string>, nextKeys: seq<string>)
    requires Keyed(rec, baseKeys, nextKeys) && Recoverable(rec)
    ensures Recovered(AllPieces(Lines(rec, baseKeys, nextKeys))) == Ok(rec.next)
  {
    hide TakenArgv, TakenEnv, Less, Harmless, AheadLines, ArgumentLines, EnvironmentLines, Lines, AllPieces;
    var keys := rec.next.env.Keys;
    RecordTaken(rec, baseKeys, nextKeys);
    ReplayedTaken(rec.next, nextKeys);
    HarmlessIff(Preamble, AheadLines(rec), keys);
    HarmlessIff(BaselineEnv, EnvironmentLines(rec.base, baseKeys), keys);
    OverlaidBy(TakenEnv(Preamble, AheadLines(rec)), TakenEnv(BaselineEnv, EnvironmentLines(rec.base, baseKeys)), rec.next.env);
    assert [] + rec.next.argv + [] + [] == rec.next.argv;
  }

  /** What is taken from lines holds no line break. */
  lemma {:induction false} TakenOneLine(s: Section, lines: seq<string>)
    requires OneLines(lines)
    ensures OneLines(TakenArgv(s, lines))
    ensures forall k :: k in TakenEnv(s, lines) ==> OneLine(k) && OneLine(TakenEnv(s, lines)[k])
    decreases |lines|
  {
    hide Plain, Next, OneLine, KeyOf, ValueOf;
    if lines != [] {
      assert OneLine(lines[0]);
      TakenOneLine(Next(s, lines[0]), lines[1..]);
      if '=' in lines[0] { PartsOneLine(lines[0]); }
    }
  }

  lemma PartsOneLine(line: string)
    requires OneLine(line) && '=' in line
    ensures OneLine(KeyOf(line)) && OneLine(ValueOf(line))
  {
  }

  /** What a record hands over makes a boot whose sections say what it is. */
  lemma TakenIsReplayed(s: Section, lines: seq<string>)
    requires OneLines(lines)
    ensures forall i :: 0 <= i < |TakenArgv(s, lines)| ==> Plain(TakenArgv(s, lines)[i]) && OneLine(TakenArgv(s, lines)[i])
    ensures forall k :: k in TakenEnv(s, lines) ==> '=' !in k && OneLine(k) && OneLine(TakenEnv(s, lines)[k])
  {
    hide Plain, OneLine, TakenArgv, TakenEnv;
    TakenOneLine(s, lines);
    TakenIsPlain(s, lines);
  }

  lemma ReadsReplayed(rec: Record, baseKeys: seq<string>, nextKeys: seq<string>)
    requires Keyed(rec, baseKeys, nextKeys)
    requires Recovered(AllPieces(Lines(rec, baseKeys, nextKeys))) == Ok(rec.next)
    ensures Replayed(rec.next)
  {
    hide TakenArgv, TakenEnv, After, Less, Lines, AllPieces, Plain, OneLine;
    var lines := AllPieces(Lines(rec, baseKeys, nextKeys));
    AllPiecesOneLine(Lines(rec, baseKeys, nextKeys));
    ReadLinesTakes(START, lines);
    TakenIsReplayed(Preamble, lines);
    assert [] + TakenArgv(Preamble, lines) == TakenArgv(Preamble, lines);
    assert map[] + TakenEnv(Preamble, lines) == TakenEnv(Preamble, lines);
  }

  lemma ReadsRecoverable(rec: Record, baseKeys: seq<string>, nextKeys: seq<string>)
    requires Keyed(rec, baseKeys, nextKeys)
    requires Recovered(AllPieces(Lines(rec, baseKeys, nextKeys))) == Ok(rec.next)
    ensures Recoverable(rec)
  {
    hide TakenArgv, TakenEnv, Less, Harmless, AheadLines, ArgumentLines, EnvironmentLines, Lines, AllPieces, Replayed;
    ReadsReplayed(rec, baseKeys, nextKeys);
    RecordTaken(rec, baseKeys, nextKeys);
    ReplayedTaken(rec.next, nextKeys);
    var keys, ahead := rec.next.env.Keys, AheadLines(rec);
    var a, c := TakenArgv(Preamble, ahead), TakenArgv(BaselineEnv, EnvironmentLines(rec.base, baseKeys));
    assert |a + rec.next.argv + c + []| == |a| + |rec.next.argv| + |c|;
    HarmlessIff(Preamble, ahead, keys);
    HarmlessIff(BaselineEnv, EnvironmentLines(rec.base, baseKeys), keys);
    forall other | Enumerates(other, rec.base.env.Keys)
      ensures Harmless(BaselineEnv, EnvironmentLines(rec.base, other), keys)
    {
      EnumeratesUnique(other, baseKeys, rec.base.env.Keys);
    }
  }

  /** Replay record round trip: whatever its strings hold, reading a written record returns exactly the
      replay boot if and only if the record is recoverable: its arguments and environment are not
      empty, no argument is blank, equal to a header or broken over lines, no key holds an '=', no
      setting is broken over lines, and nothing written before the replayed settings reads as replay
      content that they do not overwrite. */
  lemma RoundTripIff(rec: Record, text: string)
    requires Written(rec, text)
    ensures Recovered(FileLines(text)) == Ok(rec.next) <==> Recoverable(rec)
  {
    hide Recovered, Recoverable, Unlines, FileLines, Lines;
    var baseKeys, nextKeys :| Keyed(rec, baseKeys, nextKeys) && text == Unlines(Lines(rec, baseKeys, nextKeys));
    FileLinesUnlines(Lines(rec, baseKeys, nextKeys));
    if Recoverable(rec) {
      RecoverableReads(rec, baseKeys, nextKeys);
    }
    if Recovered(FileLines(text)) == Ok(rec.next) {
      ReadsRecoverable(rec, baseKeys, nextKeys);
    }
  }

  // ----- records that are not recoverable

  /** A replay header among the baseline arguments does get through if an argument follows before the
      next header: that argument comes back as if it had been replayed. */
  lemma HeaderInBaseline(rec: Record, i: nat, j: nat)
    requires i < j < |rec.base.argv| && rec.base.argv[i] == HeaderLine(ReplayArgv)
    requires forall k :: i < k <= j ==> OneLine(rec.base.argv[k]) && Opens(rec.base.argv[k]).None?
    requires !Blank(rec.base.argv[j])
    ensures !Recoverable(rec)
  {
    hide Opens, HeaderLine, Opening, OneLine, Blank, TakenArgv, TakenEnv, AllPieces, Harmless;
    var argv := rec.base.argv;
    var h, tail := argv[i], argv[i + 1..j + 1];
    var front := Opening(rec.source, rec.stamp, rec.changes) + argv[..i];
    assert Opening(rec.source, rec.stamp, rec.changes) + ArgvLines(argv) == front + [h] + tail + argv[j + 1..];
    HeaderOneLine(ReplayArgv);
    AllPiecesIdle([h]);
    AllPiecesIdle(tail);
    AllPiecesConcat(front, [h]);
    AllPiecesConcat(front + [h], tail);
    AllPiecesConcat(front + [h] + tail, argv[j + 1..]);
    var a, d := AllPieces(front), AllPieces(argv[j + 1..]);
    assert AheadLines(rec) == a + [h] + tail + d;
    TakenConcat(Preamble, a, [h]);
    TakenConcat(Preamble, a + [h], tail);
    TakenConcat(Preamble, a + [h] + tail, d);
    HeaderOpens(ReplayArgv);
    OneHeader(After(Preamble, a), h);
    LastTaken(tail);
    HarmlessIff(Preamble, AheadLines(rec), rec.next.env.Keys);
  }

  lemma OneHeader(s: Section, h: string)
    requires Opens(h) == Some(ReplayArgv)
    ensures After(s, [h]) == ReplayArgv
  {
    hide Opens;
    assert [h][1..] == [];
  }

  lemma {:induction false} LastTaken(lines: seq<string>)
    requires lines != [] && forall k :: 0 <= k < |lines| ==> Opens(lines[k]).None?
    requires !Blank(lines[|lines| - 1])
    ensures TakenArgv(ReplayArgv, lines) != []
    decreases |lines|
  {
    hide Opens, Blank;
    if |lines| > 1 { LastTaken(lines[1..]); }
  }

  // ----- chains of replays

  /** The strings around a record's boots are one line each. */
  ghost predicate OneLineNotes(rec: Record) {
    OneLine(rec.source) && OneLine(rec.stamp) && OneLines(rec.changes)
  }

  /** Every boot of the chain was written with the boot before it as its baseline, and the boot
      before it is what the record before it was read back as. */
  ghost predicate Chained(records: seq<Record>, texts: seq<string>) {
    && |texts| == |records|
    && (forall i :: 0 <= i < |records| ==> Written(records[i], texts[i]) && OneLineNotes(records[i]))
    && (forall i :: 0 <= i < |records| ==> Replayed(records[i].next))
    && (records != [] ==> Replayed(records[0].base))
    && forall i :: 0 < i < |records| ==> Recovered(FileLines(texts[i - 1])) == Ok(records[i].base)
  }

  /** Chained records compose: each record's baseline is the boot replayed before it, and reading
      the last one gives the last boot, with every earlier substitution still in it. */
  lemma ChainComposes(records: seq<Record>, texts: seq<string>, i: nat)
    requires Chained(records, texts) && i < |records|
    ensures i > 0 ==> records[i].base == records[i - 1].next
    ensures Recovered(FileLines(texts[i])) == Ok(records[i].next)
    decreases i
  {
    hide Recovered, FileLines, Written, Replayed, OneLineNotes;
    if i > 0 { ChainComposes(records, texts, i - 1); }
    assert Replayed(records[i].base) && Replayed(records[i].next);
    ReplayedRecovers(records[i]);
    RoundTripIff(records[i], texts[i]);
  }

  /** A record between two such boots is recoverable. */
  lemma ReplayedRecovers(rec: Record)
    requires Replayed(rec.base) && Replayed(rec.next) && OneLineNotes(rec)
    ensures Recoverable(rec)
  {
    hide TakenArgv, TakenEnv, Plain, AheadLines, EnvironmentLines, Harmless, OneLine, Less;
    var keys := rec.next.env.Keys;
    AheadPasses(rec);
    HarmlessIff(Preamble, AheadLines(rec), keys);
    forall baseKeys | Enumerates(baseKeys, rec.base.env.Keys)
      ensures Harmless(BaselineEnv, EnvironmentLines(rec.base, baseKeys), keys)
    {
      SettingsOneLine(rec.base, baseKeys);
      SettingsPass(BaselineEnv, rec.base.env, baseKeys);
      HarmlessIff(BaselineEnv, EnvironmentLines(rec.base, baseKeys), keys);
    }
  }

  lemma OpeningOneLine(rec: Record)
    requires OneLineNotes(rec)
    ensures OneLines(Opening(rec.source, rec.stamp, rec.changes))
  {
    HeaderOneLine(Substitutions);
    HeaderOneLine(BaselineArgv);
    hide HeaderLine;
    forall i | 0 <= i < |rec.changes| ensures OneLine("  " + rec.changes[i]) { assert OneLine(rec.changes[i]); }
  }

  lemma AheadPasses(rec: Record)
    requires Replayed(rec.base) && OneLineNotes(rec)
    ensures TakenArgv(Preamble, AheadLines(rec)) == [] && TakenEnv(Preamble, AheadLines(rec)) == map[]
  {
    var open, argv := Opening(rec.source, rec.stamp, rec.changes), rec.base.argv;
    OpeningOneLine(rec);
    OpeningTaken(rec.source, rec.stamp, rec.changes);
    hide Opening, OneLine, AllPieces, TakenArgv, TakenEnv, Opens, Blank;
    AllPiecesIdle(open + argv);
    NothingTaken(BaselineArgv, argv);
    TakenConcat(Preamble, open, argv);
    assert map[] + TakenEnv(BaselineArgv, argv) == map[];
  }
}
