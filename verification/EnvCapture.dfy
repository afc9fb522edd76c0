/** Reading a captured environment: one KEY=VALUE per line. */
module EnvCapture {
  import opened Basics
  import opened Text

  type Env = map<string, string>

  datatype CaptureError =
    | NoEquals(line: nat)
    | EmptyKey(line: nat)
    | Duplicate(line: nat, first: nat)

  /** Blank lines and comments carry nothing. */
  predicate Skipped(line: string) {
    Blank(line) || (StripLeft(line) != "" && StripLeft(line)[0] == '#')
  }

  /** What precedes the first '=', without surrounding blanks. */
  function KeyOf(line: string): string {
    Strip(Before(line, '='))
  }

  function ValueOf(line: string): string
    requires '=' in line
  {
    line[|Before(line, '=')| + 1..]
  }

  /** A line that is skipped or sets a key. */
  predicate Proper(line: string) {
    Skipped(line) || ('=' in line && KeyOf(line) != "")
  }

  ghost predicate Sets(line: string, key: string) {
    !Skipped(line) && KeyOf(line) == key
  }

  /** Lines that are proper and set no key twice. */
  ghost predicate Acceptable(lines: seq<string>) {
    && (forall i :: 0 <= i < |lines| ==> Proper(lines[i]))
    && forall i, j :: 0 <= i < j < |lines| && !Skipped(lines[i]) && !Skipped(lines[j]) ==> KeyOf(lines[i]) != KeyOf(lines[j])
  }

  /** `env` is what these lines say: every key set by a line, with that line's value, and no other. */
  ghost predicate Reads(lines: seq<string>, env: Env) {
    && Acceptable(lines)
    && (forall i :: 0 <= i < |lines| && !Skipped(lines[i]) ==>
          KeyOf(lines[i]) in env && env[KeyOf(lines[i])] == ValueOf(lines[i]))
    && forall k :: k in env ==> exists i :: 0 <= i < |lines| && Sets(lines[i], k)
  }

  /** The error names the first bad line, and why it is bad. */
  ghost predicate Refuses(lines: seq<string>, error: CaptureError) {
    1 <= error.line <= |lines| && Acceptable(lines[..error.line - 1]) && Offends(lines, error)
  }

  /** Parsing accepts exactly the acceptable texts and returns exactly what they say; otherwise it
      names the first line that is not, and why. */
  method ParseCapture(text: string) returns (r: Result<Env, CaptureError>)
    ensures r.Ok? <==> Acceptable(Split(text))
    ensures r.Ok? ==> Reads(Split(text), r.value)
    ensures r.Err? ==> Refuses(Split(text), r.error)
  {
    hide Skipped, KeyOf, ValueOf, Reads, Acceptable, Refuses;
    var lines := Split(text);
    var out: Env := map[];
    var seenAt: map<string, nat> := map[];
    ReadsNothing();
    for n := 0 to |lines|
      invariant Reads(lines[..n], out) && seenAt.Keys == out.Keys
      invariant forall k :: k in seenAt ==> 1 <= seenAt[k] <= n && Sets(lines[seenAt[k] - 1], k)
    {
      var line := lines[n];
      assert lines[..n + 1] == lines[..n] + [line];
      if Skipped(line) {
        SkipOne(lines[..n], out, line);
        continue;
      }
      if '=' !in line {
        RefuseAt(lines, out, NoEquals(n + 1));
        return Err(NoEquals(n + 1));
      }
      var key, value := KeyOf(line), ValueOf(line);
      if key == "" {
        RefuseAt(lines, out, EmptyKey(n + 1));
        return Err(EmptyKey(n + 1));
      }
      if key in out {
        RefuseAt(lines, out, Duplicate(n + 1, seenAt[key]));
        return Err(Duplicate(n + 1, seenAt[key]));
      }
      ReadOne(lines[..n], out, line);
      out := out[key := value];
      seenAt := seenAt[key := n + 1];
    }
    assert lines[..|lines|] == lines;
    ReadsAcceptable(lines, out);
    return Ok(out);
  }

  lemma ReadsNothing()
    ensures Reads([], map[])
  {
  }

  lemma ReadsAcceptable(lines: seq<string>, env: Env)
    requires Reads(lines, env)
    ensures Acceptable(lines)
  {
  }

  /** Why the line is refused, given that all before it read well. */
  ghost predicate Offends(lines: seq<string>, error: CaptureError)
    requires 1 <= error.line <= |lines|
  {
    var line := lines[error.line - 1];
    && !Skipped(line)
    && match error
       case NoEquals(_) => '=' !in line
       case EmptyKey(_) => '=' in line && KeyOf(line) == ""
       case Duplicate(_, first) =>
         && '=' in line && KeyOf(line) != ""
         && 1 <= first < error.line && Sets(lines[first - 1], KeyOf(line))
  }

  lemma RefuseAt(lines: seq<string>, env: Env, error: CaptureError)
    requires 1 <= error.line <= |lines| && Reads(lines[..error.line - 1], env) && Offends(lines, error)
    ensures Refuses(lines, error) && !Acceptable(lines)
  {
    hide Skipped, KeyOf, ValueOf;
    var n := error.line - 1;
    if error.Duplicate? {
      assert !Skipped(lines[error.first - 1]) && KeyOf(lines[error.first - 1]) == KeyOf(lines[n]);
    } else {
      assert !Proper(lines[n]);
    }
  }

  lemma SkipOne(lines: seq<string>, env: Env, line: string)
    requires Reads(lines, env) && Skipped(line)
    ensures Reads(lines + [line], env)
  {
    hide Skipped, KeyOf, ValueOf;
    var more := lines + [line];
    forall k | k in env ensures exists i :: 0 <= i < |more| && Sets(more[i], k) {
      var i :| 0 <= i < |lines| && Sets(lines[i], k);
      assert more[i] == lines[i];
    }
  }

  lemma ReadOne(lines: seq<string>, env: Env, line: string)
    requires Reads(lines, env) && !Skipped(line) && '=' in line && KeyOf(line) != "" && KeyOf(line) !in env
    ensures Reads(lines + [line], env[KeyOf(line) := ValueOf(line)])
  {
    hide Skipped, KeyOf, ValueOf;
    var more, env' := lines + [line], env[KeyOf(line) := ValueOf(line)];
    forall k | k in env' ensures exists i :: 0 <= i < |more| && Sets(more[i], k) {
      if k == KeyOf(line) {
        assert Sets(more[|lines|], k);
      } else {
        var i :| 0 <= i < |lines| && Sets(lines[i], k);
        assert more[i] == lines[i];
      }
    }
  }

  /** A text says one thing only. */
  lemma ReadsUnique(lines: seq<string>, a: Env, b: Env)
    requires Reads(lines, a) && Reads(lines, b)
    ensures a == b
  {
    hide Skipped, KeyOf, ValueOf;
    forall k ensures (k in a <==> k in b) && (k in a && k in b ==> a[k] == b[k]) {
      if k in a { var i :| 0 <= i < |lines| && Sets(lines[i], k); }
      if k in b { var i :| 0 <= i < |lines| && Sets(lines[i], k); }
    }
  }

  // ----- printing it again

  /** Keys and values a capture can hold. */
  predicate Printable(key: string, value: string) {
    && key != "" && !IsSpace(key[0]) && !IsSpace(key[|key| - 1])
    && key[0] != '#' && '=' !in key && '\n' !in key && '\n' !in value
  }

  lemma LinePrintable(line: string)
    requires !Skipped(line) && Proper(line) && '\n' !in line
    ensures Printable(KeyOf(line), ValueOf(line))
  {
    var before := Before(line, '=');
    var key := KeyOf(line);
    assert key[0] == StripLeft(before)[0];
    StripLeftPrefix(line, before);
    assert forall c :: c in key ==> c in before;
  }

  /** Blanks are stripped off a line as off its beginning. */
  lemma {:induction false} StripLeftPrefix(line: string, before: string)
    requires |before| <= |line| && before == line[..|before|] && !Blank(before)
    ensures StripLeft(line) != "" && StripLeft(line)[0] == StripLeft(before)[0]
  {
    assert before[0] == line[0];
    if IsSpace(line[0]) {
      assert before[1..] == line[1..][..|before| - 1];
      assert !Blank(before[1..]) by {
        var i :| 0 <= i < |before| && !IsSpace(before[i]);
        assert before[1..][i - 1] == before[i];
      }
      StripLeftPrefix(line[1..], before[1..]);
    }
  }

  lemma ReadsPrintable(lines: seq<string>, env: Env, k: string)
    requires Reads(lines, env) && k in env && forall i :: 0 <= i < |lines| ==> '\n' !in lines[i]
    ensures Printable(k, env[k])
  {
    hide Skipped, KeyOf, ValueOf, Printable;
    var i :| 0 <= i < |lines| && Sets(lines[i], k);
    LinePrintable(lines[i]);
  }

  function Setting(key: string, value: string): string {
    key + "=" + value
  }

  lemma SettingReads(key: string, value: string)
    requires Printable(key, value)
    ensures var line := Setting(key, value);
            !Skipped(line) && '=' in line && KeyOf(line) == key && ValueOf(line) == value && '\n' !in line
  {
    var line := key + ['='] + value;
    BeforeIs(key, '=', value);
    StripIdle(key);
    assert line[0] == key[0];
    assert !Blank(line);
    assert StripLeft(line) == line;
    assert line[|key| + 1..] == value;
  }

  function SettingLines(env: Env, ks: seq<string>): (lines: seq<string>)
    requires forall k :: k in ks ==> k in env
    ensures |lines| == |ks|
  {
    seq(|ks|, i requires 0 <= i < |ks| => Setting(ks[i], env[ks[i]]))
  }

  /** For every text that is accepted, printing what it says, one KEY=VALUE per line in order of
      the keys, gives a text that says the same. */
  lemma PrintThenParse(text: string, env: Env, ks: seq<string>)
    requires Reads(Split(text), env) && Enumerates(ks, env.Keys)
    ensures Reads(Split(Unlines(SettingLines(env, ks))), env)
  {
    hide Skipped, KeyOf, ValueOf, Printable, Setting;
    var lines := SettingLines(env, ks);
    forall i | 0 <= i < |ks| ensures '\n' !in lines[i] && !Skipped(lines[i]) && '=' in lines[i]
      ensures KeyOf(lines[i]) == ks[i] && ValueOf(lines[i]) == env[ks[i]] && ks[i] != ""
    {
      ReadsPrintable(Split(text), env, ks[i]);
      SettingReads(ks[i], env[ks[i]]);
      PrintableKey(ks[i], env[ks[i]]);
    }
    SplitUnlines(lines);
    SettingsRead(lines, env, ks);
    EmptyLineSkipped();
    SkipOne(lines, env, "");
  }

  lemma EmptyLineSkipped()
    ensures Skipped("")
  {
  }

  lemma PrintableKey(key: string, value: string)
    requires Printable(key, value)
    ensures key != ""
  {
  }

  lemma SettingsRead(lines: seq<string>, env: Env, ks: seq<string>)
    requires Enumerates(ks, env.Keys) && |lines| == |ks|
    requires forall i :: 0 <= i < |ks| ==> !Skipped(lines[i]) && '=' in lines[i]
    requires forall i :: 0 <= i < |ks| ==> KeyOf(lines[i]) == ks[i] && ValueOf(lines[i]) == env[ks[i]] && ks[i] != ""
    ensures Reads(lines, env)
  {
    hide Skipped, KeyOf, ValueOf, Less;
    forall i, j | 0 <= i < j < |lines| ensures KeyOf(lines[i]) != KeyOf(lines[j]) {
      assert Less(ks[i], ks[j]);
      LessIrreflexive(ks[i]);
    }
    forall k | k in env ensures exists i :: 0 <= i < |lines| && Sets(lines[i], k) {
      assert k in ks;
      var i :| 0 <= i < |ks| && ks[i] == k;
      assert Sets(lines[i], k);
    }
  }
}
