/** Rendering a capture as shell, sourcing it, and checking an environment against the capture. */
module ShellExport {
  import opened Basics
  import opened Text
  import opened EnvCapture

  // ----- which keys matter

  /** Keys that legitimately differ on every boot. */
  const PER_BOOT_KEYS: set<string> :=
    {"PYTHONPATH", "CUDA_VISIBLE_DEVICES", "SGLANG_PHASE_FLIP_INSTANCE", "SGLANG_BOOT_COMMIT"}

  const GOVERNED_PREFIXES: seq<string> := ["SGLANG_", "HTSGLANG_", "PYTORCH_"]
  const GOVERNED_EXACT: set<string> := {"PYTHONPATH", "LD_LIBRARY_PATH", "CUDA_VISIBLE_DEVICES"}

  predicate IsPerBoot(key: string) {
    key in PER_BOOT_KEYS
  }

  predicate IsGoverned(key: string) {
    || (exists i :: 0 <= i < |GOVERNED_PREFIXES| && GOVERNED_PREFIXES[i] <= key)
    || key in GOVERNED_EXACT
  }

  /** Exported is every captured key but the per-boot ones, and on request only governed ones. */
  predicate IsExported(key: string, governedOnly: bool) {
    !IsPerBoot(key) && (governedOnly ==> IsGoverned(key))
  }

  // ----- quoting

  /** Characters that need no quoting: letters, digits and @%+=:,./-_ */
  predicate IsSafe(c: char) {
    || 'a' <= c <= 'z' || 'A' <= c <= 'Z' || '0' <= c <= '9'
    || c in {'_', '@', '%', '+', '=', ':', ',', '.', '/', '-'}
  }

  /** A quote inside single quotes: close, a double-quoted quote, reopen. */
  function Escape(s: string): string {
    if s == "" then ""
    else (if s[0] == '\'' then "'\"'\"'" else [s[0]]) + Escape(s[1..])
  }

  function Quote(s: string): string {
    if s == "" then "''"
    else if forall i :: 0 <= i < |s| ==> IsSafe(s[i]) then s
    else "'" + Escape(s) + "'"
  }

  // ----- the shell

  datatype Mode = Bare | Single | Double

  /** Prefix a character to the value a word expands to. */
  function Push(c: char, r: Option<(string, string)>): Option<(string, string)> {
    match r
    case None => None
    case Some((value, rest)) => Some(([c] + value, rest))
  }

  /** Reads one word up to the end of its line: its value and what follows. Single quotes keep
      everything, double quotes everything but $, ` and \; outside quotes only safe characters are
      understood, anything else being given up on. */
  function Lex(s: string, mode: Mode): Option<(string, string)> {
    match mode
    case Bare =>
      if s == "" || s[0] == '\n' then Some(("", s))
      else if s[0] == '\'' then Lex(s[1..], Single)
      else if s[0] == '"' then Lex(s[1..], Double)
      else if IsSafe(s[0]) then Push(s[0], Lex(s[1..], Bare))
      else None
    case Single =>
      if s == "" then None
      else if s[0] == '\'' then Lex(s[1..], Bare)
      else Push(s[0], Lex(s[1..], Single))
    case Double =>
      if s == "" then None
      else if s[0] == '"' then Lex(s[1..], Bare)
      else if s[0] in {'$', '`', '\\'} then None
      else Push(s[0], Lex(s[1..], Double))
  }

  predicate IsName(s: string) {
    && s != "" && !('0' <= s[0] <= '9')
    && forall i :: 0 <= i < |s| ==>
         'a' <= s[i] <= 'z' || 'A' <= s[i] <= 'Z' || '0' <= s[i] <= '9' || s[i] == '_'
  }

  /** The words are shorter than what they are read from. */
  lemma {:induction false} LexShrinks(s: string, mode: Mode)
    ensures Lex(s, mode).Some? ==> |Lex(s, mode).value.1| <= |s|
    decreases |s|
  {
    if s != "" {
      LexShrinks(s[1..], Bare);
      LexShrinks(s[1..], Single);
      LexShrinks(s[1..], Double);
    }
  }

  /** Sourcing a script of comments and `export NAME=word` lines over an environment. */
  function Source(s: string, env: Env): Option<Env>
    decreases |s|
  {
    if s == "" then Some(env)
    else if s[0] == '\n' then Source(s[1..], env)
    else if s[0] == '#' then Source(s[|Before(s, '\n')|..], env)
    else if "export " <= s then
      var name := Before(s[7..], '=');
      if !IsName(name) || '=' !in s[7..] then None
      else
        LexShrinks(s[7 + |name| + 1..], Bare);
        match Lex(s[7 + |name| + 1..], Bare)
        case None => None
        case Some((value, rest)) => Source(rest, env[name := value])
    else None
  }

  function Prepend(v: string, r: Option<(string, string)>): Option<(string, string)> {
    match r
    case None => None
    case Some((value, rest)) => Some((v + value, rest))
  }

  lemma PushPrepend(v: string, r: Option<(string, string)>)
    requires v != ""
    ensures Push(v[0], Prepend(v[1..], r)) == Prepend(v, r)
  {
    if r.Some? { assert [v[0]] + (v[1..] + r.value.0) == v + r.value.0; }
  }

  /** A quoted value, read as a word, is the value again. */
  lemma {:induction false} LexEscaped(v: string, rest: string)
    ensures Lex(Escape(v) + "'" + rest, Single) == Prepend(v, Lex(rest, Bare))
  {
    var s := Escape(v) + "'" + rest;
    if v == "" {
      assert s[1..] == rest;
      var r := Lex(rest, Bare);
      if r.Some? { assert v + r.value.0 == r.value.0; }
    } else {
      var t := Escape(v[1..]) + "'" + rest;
      LexEscaped(v[1..], rest);
      PushPrepend(v, Lex(rest, Bare));
      if v[0] == '\'' {
        assert s == "'\"'\"'" + t;
        LexQuotedQuote(t);
      } else {
        assert s == [v[0]] + t;
        assert s[1..] == t;
      }
    }
  }

  lemma LexQuotedQuote(t: string)
    ensures Lex("'\"'\"'" + t, Single) == Push('\'', Lex(t, Single))
  {
    var s := "'\"'\"'" + t;
    assert s[1..] == "\"'\"'" + t;
    assert s[1..][1..] == "'\"'" + t;
    assert s[1..][1..][1..] == "\"'" + t;
    assert s[1..][1..][1..][1..] == "'" + t;
    assert ("'" + t)[1..] == t;
    assert Lex("'" + t, Bare) == Lex(t, Single);
    assert Lex("\"'" + t, Double) == Lex("'" + t, Bare);
    assert Lex("'\"'" + t, Double) == Push('\'', Lex("\"'" + t, Double));
    assert Lex("\"'\"'" + t, Bare) == Lex("'\"'" + t, Double);
  }

  lemma {:induction false} LexSafe(v: string, rest: string)
    requires forall i :: 0 <= i < |v| ==> IsSafe(v[i])
    requires rest == "" || rest[0] == '\n'
    ensures Lex(v + rest, Bare) == Some((v, rest))
  {
    if v == "" {
      assert v + rest == rest;
    } else {
      assert (v + rest)[1..] == v[1..] + rest;
      LexSafe(v[1..], rest);
      assert v == [v[0]] + v[1..];
    }
  }

  /** Quoting and word expansion are inverse, for every value: blanks, quotes, $ and newlines
      included. */
  lemma QuoteThenLex(v: string, rest: string)
    requires rest == "" || rest[0] == '\n'
    ensures Lex(Quote(v) + rest, Bare) == Some((v, rest))
  {
    if v == "" {
      LexEmptyQuotes(rest);
    } else if forall i :: 0 <= i < |v| ==> IsSafe(v[i]) {
      LexSafe(v, rest);
    } else {
      LexQuoted(v, rest);
    }
  }

  lemma LexEmptyQuotes(rest: string)
    requires rest == "" || rest[0] == '\n'
    ensures Lex("''" + rest, Bare) == Some(("", rest))
  {
    var s := "''" + rest;
    assert s[1..] == "'" + rest && s[1..][1..] == rest;
    assert Lex(s[1..], Single) == Lex(rest, Bare);
  }

  lemma LexQuoted(v: string, rest: string)
    requires rest == "" || rest[0] == '\n'
    ensures Lex("'" + Escape(v) + "'" + rest, Bare) == Some((v, rest))
  {
    var s := "'" + Escape(v) + "'" + rest;
    assert s[1..] == Escape(v) + "'" + rest;
    LexEscaped(v, rest);
    assert v + "" == v;
  }

  // ----- rendering

  function ExportLine(key: string, value: string): string {
    "export " + key + "=" + Quote(value)
  }

  function Comment(parts: seq<string>): string {
    "#" + Joined(parts)
  }

  function Joined(parts: seq<string>): string {
    if parts == [] then "" else parts[0] + Joined(parts[1..])
  }

  function GeneratedBy(): seq<string> {
    [" GENERATED by ", "scripts/turnkey_539_export_env.py", " -- do not edit."]
  }

  function CapturedFrom(source: string): seq<string> {
    [" capture: ", if source == "" then "<stdin>" else source]
  }

  function PerBootAbsent(): seq<string> {
    [" The per-boot keys (", "CUDA_VISIBLE_DEVICES, ", "PYTHONPATH, ", "SGLANG_BOOT_COMMIT, ",
     "SGLANG_PHASE_FLIP_INSTANCE", ") are deliberately absent."]
  }

  function Header(source: string): seq<string> {
    [Comment(GeneratedBy()), Comment(CapturedFrom(source)), Comment(PerBootAbsent())]
  }

  function ExportLines(capture: Env, ks: seq<string>, governedOnly: bool): seq<string>
    requires forall k :: k in ks ==> k in capture
  {
    if ks == [] then []
    else
      (if IsExported(ks[0], governedOnly) then [ExportLine(ks[0], capture[ks[0]])] else [])
      + ExportLines(capture, ks[1..], governedOnly)
  }

  lemma {:induction false} ExportLinesSnoc(capture: Env, ks: seq<string>, k: string, governedOnly: bool)
    requires k in capture && forall q :: q in ks ==> q in capture
    ensures ExportLines(capture, ks + [k], governedOnly)
            == ExportLines(capture, ks, governedOnly)
               + (if IsExported(k, governedOnly) then [ExportLine(k, capture[k])] else [])
  {
    hide IsExported, ExportLine;
    if ks == [] {
      assert (ks + [k])[1..] == [];
    } else {
      var all := ks + [k];
      assert all[0] == ks[0] && all[1..] == ks[1..] + [k];
      ExportLinesSnoc(capture, ks[1..], k, governedOnly);
      var first := if IsExported(ks[0], governedOnly) then [ExportLine(ks[0], capture[ks[0]])] else [];
      assert ExportLines(capture, all, governedOnly) == first + ExportLines(capture, ks[1..] + [k], governedOnly);
    }
  }

  /** The text is the header and the export lines, in order of the keys. */
  ghost predicate Rendered(capture: Env, governedOnly: bool, source: string, text: string) {
    exists ks :: Enumerates(ks, capture.Keys) && text == Unlines(Header(source) + ExportLines(capture, ks, governedOnly))
  }

  method RenderExports(capture: Env, governedOnly: bool, source: string) returns (text: string)
    ensures Rendered(capture, governedOnly, source, text)
  {
    hide Header, ExportLine, IsPerBoot, IsGoverned, Unlines;
    var lines := Header(source);
    var keys := SortedNames(capture.Keys);
    for i := 0 to |keys|
      invariant lines == Header(source) + ExportLines(capture, keys[..i], governedOnly)
    {
      assert keys[..i + 1] == keys[..i] + [keys[i]];
      ExportLinesSnoc(capture, keys[..i], keys[i], governedOnly);
      if IsPerBoot(keys[i]) {
        continue;
      }
      if governedOnly && !IsGoverned(keys[i]) {
        continue;
      }
      lines := lines + [ExportLine(keys[i], capture[keys[i]])];
    }
    assert keys[..|keys|] == keys;
    text := Unlines(lines);
  }

  // ----- sourcing what was rendered

  /** The captured settings a render carries. */
  function Carried(capture: Env, governedOnly: bool): Env {
    map k | k in capture && IsExported(k, governedOnly) :: capture[k]
  }

  lemma SourceComment(line: string, rest: string, env: Env)
    requires IsComment(line)
    ensures Source(line + "\n" + rest, env) == Source(rest, env)
  {
    var s := line + ['\n'] + rest;
    BeforeIs(line, '\n', rest);
    assert s[|line|..] == "\n" + rest;
    assert ("\n" + rest)[1..] == rest;
    assert Source("\n" + rest, env) == Source(rest, env);
  }

  lemma SourceExport(key: string, value: string, rest: string, env: Env)
    requires IsName(key)
    ensures Source(ExportLine(key, value) + "\n" + rest, env) == Source(rest, env[key := value])
  {
    hide Lex, Quote;
    var s := ExportLine(key, value) + "\n" + rest;
    var word, more := Quote(value), "\n" + rest;
    assert s == "export " + (key + ['='] + (word + more));
    assert s[7..] == key + ['='] + (word + more);
    NoEqualsInName(key);
    BeforeIs(key, '=', word + more);
    assert s[7 + |key| + 1..] == word + more;
    QuoteThenLex(value, more);
    assert more[1..] == rest;
    assert Source(more, env[key := value]) == Source(rest, env[key := value]);
  }

  lemma NoEqualsInName(key: string)
    requires IsName(key)
    ensures '=' !in key
  {
  }

  lemma {:induction false} SourceExports(capture: Env, ks: seq<string>, governedOnly: bool, env: Env)
    requires forall k :: k in ks ==> k in capture && (IsExported(k, governedOnly) ==> IsName(k))
    ensures Source(Unlines(ExportLines(capture, ks, governedOnly)), env)
            == Some(env + map k | k in ks && IsExported(k, governedOnly) :: capture[k])
    decreases |ks|
  {
    hide IsName, ExportLine, IsExported, Source;
    if ks == [] {
      assert env + (map k | k in ks && IsExported(k, governedOnly) :: capture[k]) == env;
      SourceNothing(env);
    } else {
      var k, rest := ks[0], ks[1..];
      OverlayStep(capture, ks, governedOnly, env);
      if IsExported(k, governedOnly) {
        var lines := ExportLines(capture, rest, governedOnly);
        assert ExportLines(capture, ks, governedOnly) == [ExportLine(k, capture[k])] + lines;
        SourceExport(k, capture[k], Unlines(lines), env);
        SourceExports(capture, rest, governedOnly, env[k := capture[k]]);
      } else {
        SourceExports(capture, rest, governedOnly, env);
        assert ExportLines(capture, ks, governedOnly) == ExportLines(capture, rest, governedOnly);
      }
    }
  }

  /** A key that is no name stops the reader at its line. */
  lemma SourceNoName(key: string, value: string, rest: string, env: Env)
    requires '=' !in key && !IsName(key)
    ensures Source(ExportLine(key, value) + "\n" + rest, env) == None
  {
    hide Lex, Quote, IsName;
    var s := ExportLine(key, value) + "\n" + rest;
    var more := Quote(value) + ("\n" + rest);
    assert s == "export " + (key + ['='] + more);
    assert s[7..] == key + ['='] + more;
    BeforeIs(key, '=', more);
  }

  lemma {:induction false} SourceStops(capture: Env, ks: seq<string>, governedOnly: bool, env: Env, bad: string)
    requires forall k :: k in ks ==> k in capture && '=' !in k
    requires bad in ks && IsExported(bad, governedOnly) && !IsName(bad)
    ensures Source(Unlines(ExportLines(capture, ks, governedOnly)), env) == None
    decreases |ks|
  {
    hide IsName, ExportLine, IsExported, Source;
    var k, rest := ks[0], ks[1..];
    var lines := ExportLines(capture, rest, governedOnly);
    if IsExported(k, governedOnly) {
      assert ExportLines(capture, ks, governedOnly) == [ExportLine(k, capture[k])] + lines;
      if IsName(k) {
        SourceExport(k, capture[k], Unlines(lines), env);
        SourceStops(capture, rest, governedOnly, env[k := capture[k]], bad);
      } else {
        SourceNoName(k, capture[k], Unlines(lines), env);
      }
    } else {
      assert ExportLines(capture, ks, governedOnly) == lines;
      SourceStops(capture, rest, governedOnly, env, bad);
    }
  }

  lemma OverlayStep(capture: Env, ks: seq<string>, governedOnly: bool, env: Env)
    requires ks != [] && forall k :: k in ks ==> k in capture
    ensures var all := map k | k in ks && IsExported(k, governedOnly) :: capture[k];
            var tail := map k | k in ks[1..] && IsExported(k, governedOnly) :: capture[k];
            env + all == (if IsExported(ks[0], governedOnly) then env[ks[0] := capture[ks[0]]] else env) + tail
  {
    hide IsExported;
    assert forall k :: k in ks <==> k == ks[0] || k in ks[1..];
  }

  lemma SourceNothing(env: Env)
    ensures Source("", env) == Some(env)
  {
  }

  predicate IsComment(line: string) {
    line != "" && line[0] == '#' && '\n' !in line
  }

  lemma {:induction false} CommentIsComment(parts: seq<string>)
    requires forall i :: 0 <= i < |parts| ==> '\n' !in parts[i]
    ensures '\n' !in Joined(parts) && IsComment(Comment(parts))
  {
    if parts != [] { CommentIsComment(parts[1..]); }
  }

  lemma CapturedFromOneLine(source: string)
    requires '\n' !in source
    ensures forall i :: 0 <= i < |CapturedFrom(source)| ==> '\n' !in CapturedFrom(source)[i]
  {
  }

  lemma GeneratedByOneLine()
    ensures forall i :: 0 <= i < |GeneratedBy()| ==> '\n' !in GeneratedBy()[i]
  {
  }

  lemma PerBootAbsentOneLine()
    ensures forall i :: 0 <= i < |PerBootAbsent()| ==> '\n' !in PerBootAbsent()[i]
  {
  }

  lemma HeaderComments(source: string)
    requires '\n' !in source
    ensures |Header(source)| == 3
    ensures forall i :: 0 <= i < 3 ==> IsComment(Header(source)[i])
  {
    hide IsComment, Comment, GeneratedBy, CapturedFrom, PerBootAbsent;
    CapturedFromOneLine(source);
    GeneratedByOneLine();
    PerBootAbsentOneLine();
    CommentIsComment(GeneratedBy());
    CommentIsComment(CapturedFrom(source));
    CommentIsComment(PerBootAbsent());
  }

  lemma SourceHeader(h: seq<string>, rest: string, env: Env)
    requires |h| == 3 && forall i :: 0 <= i < 3 ==> IsComment(h[i])
    ensures Source(Unlines(h) + rest, env) == Source(rest, env)
  {
    hide Source;
    var c := h[2] + "\n" + rest;
    var b := h[1] + "\n" + c;
    assert Unlines(h) + rest == h[0] + "\n" + b by {
      assert h[1..][0] == h[1] && h[1..][1..] == h[2..] && h[2..][1..] == [];
      assert Unlines(h[2..]) == h[2] + "\n" + "";
      assert Unlines(h[1..]) == h[1] + "\n" + Unlines(h[2..]);
    }
    SourceComment(h[0], b, env);
    SourceComment(h[1], c, env);
    SourceComment(h[2], rest, env);
  }

  /** Every key a render carries is a name the shell can assign to. */
  ghost predicate CarriesNames(capture: Env, governedOnly: bool) {
    forall k :: k in capture && IsExported(k, governedOnly) ==> IsName(k)
  }

  /** A captured key is what stands before the first '=' of its line. */
  ghost predicate Keys(capture: Env) {
    forall k :: k in capture ==> '=' !in k
  }

  lemma CapturedKeys(lines: seq<string>, capture: Env)
    requires Reads(lines, capture) && forall i :: 0 <= i < |lines| ==> '\n' !in lines[i]
    ensures Keys(capture)
  {
    forall k | k in capture ensures '=' !in k { ReadsPrintable(lines, capture, k); }
  }

  /** Sourcing a render over any environment sets exactly the carried keys to their captured values
      and leaves the rest of the environment alone, if these keys are shell names; if one is not, the
      render is not understood. */
  lemma RenderThenSource(capture: Env, governedOnly: bool, source: string, text: string, env: Env)
    requires Rendered(capture, governedOnly, source, text) && '\n' !in source && Keys(capture)
    ensures Source(text, env)
            == if CarriesNames(capture, governedOnly) then Some(env + Carried(capture, governedOnly)) else None
  {
    hide Header, Source, IsName, IsExported, ExportLine, Unlines;
    var ks :| Enumerates(ks, capture.Keys) && text == Unlines(Header(source) + ExportLines(capture, ks, governedOnly));
    var lines := ExportLines(capture, ks, governedOnly);
    UnlinesConcat(Header(source), lines);
    HeaderComments(source);
    SourceHeader(Header(source), Unlines(lines), env);
    if CarriesNames(capture, governedOnly) {
      SourceExports(capture, ks, governedOnly, env);
      assert (map k | k in ks && IsExported(k, governedOnly) :: capture[k]) == Carried(capture, governedOnly);
    } else {
      var bad :| bad in capture && IsExported(bad, governedOnly) && !IsName(bad);
      SourceStops(capture, ks, governedOnly, env, bad);
    }
  }

  // ----- the check

  datatype Divergence =
    | Changed(key: string, captured: string, actual: string)
    | Missing(key: string, captured: string)
    | Extra(key: string, actual: string)

  /** Keys the check looks at. */
  predicate InScope(key: string, allow: set<string>, allKeys: bool) {
    key !in allow && !IsPerBoot(key) && (allKeys || IsGoverned(key))
  }

  /** How an environment differs from the capture in one key, if it does. */
  function DivergenceAt(capture: Env, env: Env, key: string): (d: Option<Divergence>)
    ensures d.Some? ==> d.value.key == key
    ensures key !in capture && key !in env ==> d == None
  {
    if key in capture && key in env then
      if capture[key] != env[key] then Some(Changed(key, capture[key], env[key])) else None
    else if key in capture then Some(Missing(key, capture[key]))
    else if key in env then Some(Extra(key, env[key]))
    else None
  }

  /** The divergences in scope, all of them, in order of their keys. */
  method DiffEnv(capture: Env, env: Env, allow: set<string>, allKeys: bool) returns (out: seq<Divergence>)
    ensures forall d :: d in out <==> InScope(d.key, allow, allKeys) && DivergenceAt(capture, env, d.key) == Some(d)
    ensures forall i, j :: 0 <= i < j < |out| ==> Less(out[i].key, out[j].key)
  {
    hide InScope, Less, DivergenceAt;
    out := [];
    var keys := SortedNames(capture.Keys + env.Keys);
    for i := 0 to |keys|
      invariant forall d :: d in out <==>
                  d.key in keys[..i] && InScope(d.key, allow, allKeys) && DivergenceAt(capture, env, d.key) == Some(d)
      invariant forall a, b :: 0 <= a < b < |out| ==> Less(out[a].key, out[b].key)
    {
      var key := keys[i];
      assert keys[..i + 1] == keys[..i] + [key];
      forall a | 0 <= a < |out| ensures Less(out[a].key, key) {
        assert out[a] in out;
        var q :| 0 <= q < i && keys[..i][q] == out[a].key;
        assert Less(keys[q], keys[i]);
      }
      if InScope(key, allow, allKeys) {
        var d := DivergenceAt(capture, env, key);
        if d.Some? {
          out := out + [d.value];
        }
      }
    }
    assert keys[..|keys|] == keys;
  }

  /** All that the check reports are keys the capture does not carry. */
  ghost predicate OnlyExtra(capture: Env, env: Env, allow: set<string>, allKeys: bool) {
    forall k :: InScope(k, allow, allKeys) && DivergenceAt(capture, env, k).Some? ==>
      DivergenceAt(capture, env, k).value.Extra?
  }

  /** The captured keys outside a governed-only export that a check over all keys looks at. */
  ghost predicate RestIsRight(capture: Env, ambient: Env, allow: set<string>) {
    forall k :: k in capture && InScope(k, allow, true) && !IsGoverned(k) ==> k in ambient && ambient[k] == capture[k]
  }

  lemma CarriedOnlyExtra(capture: Env, ambient: Env, governedOnly: bool, allow: set<string>, allKeys: bool)
    ensures OnlyExtra(capture, ambient + Carried(capture, governedOnly), allow, allKeys)
            <==> (governedOnly && allKeys ==> RestIsRight(capture, ambient, allow))
  {
    hide IsGoverned;
    var env := ambient + Carried(capture, governedOnly);
    if OnlyExtra(capture, env, allow, allKeys) && governedOnly && allKeys {
      forall k | k in capture && InScope(k, allow, true) && !IsGoverned(k)
        ensures k in ambient && ambient[k] == capture[k]
      {
        assert DivergenceAt(capture, env, k) == None;
      }
    }
  }

  /** Export, source, check. The shell reads a render if and only if every key it carries is a name;
      and what the check reports afterwards are keys the capture does not carry, for every capture,
      environment and option, except that a governed-only export checked over all keys also needs the
      ungoverned captured keys to be right in the environment already. */
  lemma ExportThenCheck(capture: Env, governedOnly: bool, source: string, text: string, ambient: Env,
                        allow: set<string>, allKeys: bool)
    requires Rendered(capture, governedOnly, source, text) && '\n' !in source && Keys(capture)
    ensures Source(text, ambient).Some? <==> CarriesNames(capture, governedOnly)
    ensures CarriesNames(capture, governedOnly) ==>
              (OnlyExtra(capture, Source(text, ambient).value, allow, allKeys)
               <==> (governedOnly && allKeys ==> RestIsRight(capture, ambient, allow)))
  {
    hide Source, Rendered, OnlyExtra, RestIsRight, Carried, IsName, IsExported;
    RenderThenSource(capture, governedOnly, source, text, ambient);
    CarriedOnlyExtra(capture, ambient, governedOnly, allow, allKeys);
  }

  /** One ungoverned key is enough: exported governed-only over an empty environment, the check over
      all keys finds it missing. */
  lemma NarrowExportFails(source: string, text: string)
    requires Rendered(map["HOME" := "/root"], true, source, text) && '\n' !in source
    ensures Source(text, map[]).Some?
    ensures !OnlyExtra(map["HOME" := "/root"], Source(text, map[]).value, {}, true)
  {
    hide Source, Rendered, OnlyExtra;
    var capture: Env := map["HOME" := "/root"];
    HomeIsUngoverned();
    ExportThenCheck(capture, true, source, text, map[], {}, true);
    assert !RestIsRight(capture, map[], {});
  }

  lemma HomeIsUngoverned()
    ensures !IsGoverned("HOME") && !IsPerBoot("HOME") && '=' !in "HOME"
  {
    assert |"HOME"| == 4;
  }
}
