/** Lines, blanks and sorted names. */
module Text {
  /** The characters Python's str.isspace accepts. */
  predicate IsSpace(c: char) {
    var n := c as int;
    || 9 <= n <= 13 || 28 <= n <= 32 || n == 0x85 || n == 0xA0 || n == 0x1680
    || 0x2000 <= n <= 0x200A || n == 0x2028 || n == 0x2029 || n == 0x202F || n == 0x205F || n == 0x3000
  }

  predicate Blank(s: string) {
    forall i :: 0 <= i < |s| ==> IsSpace(s[i])
  }

  function StripLeft(s: string): (r: string)
    ensures r != "" ==> !IsSpace(r[0])
    ensures r == "" <==> Blank(s)
    ensures |r| <= |s| && r == s[|s| - |r|..]
  {
    if s == "" then ""
    else if IsSpace(s[0]) then
      assert Blank(s) <==> Blank(s[1..]) by { assert forall i :: 1 <= i < |s| ==> s[i] == s[1..][i - 1]; }
      StripLeft(s[1..])
    else s
  }

  function StripRight(s: string): (r: string)
    ensures r != "" ==> !IsSpace(r[|r| - 1])
    ensures |r| <= |s| && r == s[..|r|]
    ensures s != "" && !IsSpace(s[0]) ==> r != ""
  {
    if s == "" then ""
    else if IsSpace(s[|s| - 1]) then StripRight(s[..|s| - 1])
    else s
  }

  function Strip(s: string): (r: string)
    ensures r == "" <==> Blank(s)
    ensures r != "" ==> !IsSpace(r[0]) && !IsSpace(r[|r| - 1])
    ensures r != "" && StripLeft(s) != "" ==> r[0] == StripLeft(s)[0]
    ensures forall c :: c in r ==> c in s
  {
    StripRight(StripLeft(s))
  }

  lemma StripIdle(s: string)
    requires s != "" && !IsSpace(s[0]) && !IsSpace(s[|s| - 1])
    ensures Strip(s) == s && StripLeft(s) == s
  {
  }

  /** Everything before the first occurrence of a character, or all of it. */
  function Before(s: string, c: char): (r: string)
    ensures |r| <= |s| && r == s[..|r|] && c !in r
    ensures c in s ==> |r| < |s| && s[|r|] == c
    ensures c !in s ==> r == s
  {
    if s == "" || s[0] == c then "" else [s[0]] + Before(s[1..], c)
  }

  lemma {:induction false} BeforeIs(a: string, c: char, b: string)
    requires c !in a
    ensures Before(a + [c] + b, c) == a
  {
    if a != "" {
      assert (a + [c] + b)[1..] == a[1..] + [c] + b;
      BeforeIs(a[1..], c, b);
    }
  }

  // ----- lines

  /** s.split("\n"): the pieces between newlines, at least one. */
  function Split(s: string): (lines: seq<string>)
    ensures |lines| >= 1
    ensures forall i :: 0 <= i < |lines| ==> '\n' !in lines[i]
  {
    var first := Before(s, '\n');
    if |first| == |s| then [s] else [first] + Split(s[|first| + 1..])
  }

  /** Every line followed by a newline. */
  function Unlines(lines: seq<string>): string {
    if lines == [] then "" else lines[0] + "\n" + Unlines(lines[1..])
  }

  lemma SplitLine(line: string, rest: string)
    requires '\n' !in line
    ensures Split(line + "\n" + rest) == [line] + Split(rest)
  {
    var s := line + ['\n'] + rest;
    BeforeIs(line, '\n', rest);
    assert s[|line| + 1..] == rest;
  }

  /** Printed lines are read back as they were, and one empty line. */
  lemma {:induction false} SplitUnlines(lines: seq<string>)
    requires forall i :: 0 <= i < |lines| ==> '\n' !in lines[i]
    ensures Split(Unlines(lines)) == lines + [""]
  {
    hide Split;
    if lines == [] {
      SplitEmpty();
    } else {
      SplitUnlines(lines[1..]);
      SplitLine(lines[0], Unlines(lines[1..]));
    }
  }

  lemma SplitEmpty()
    ensures Split("") == [""]
  {
  }

  lemma {:induction false} UnlinesConcat(a: seq<string>, b: seq<string>)
    ensures Unlines(a + b) == Unlines(a) + Unlines(b)
  {
    if a == [] {
      assert a + b == b;
    } else {
      assert (a + b)[1..] == a[1..] + b;
      UnlinesConcat(a[1..], b);
    }
  }

  // ----- sorted names

  /** Code point order, a shorter string before its extensions. */
  predicate Less(a: string, b: string) {
    if b == "" then false
    else if a == "" then true
    else a[0] < b[0] || (a[0] == b[0] && Less(a[1..], b[1..]))
  }

  lemma {:induction false} LessTotal(a: string, b: string)
    ensures a == b || Less(a, b) || Less(b, a)
  {
    if a != "" && b != "" && a[0] == b[0] {
      LessTotal(a[1..], b[1..]);
      if a[1..] == b[1..] { assert a == [a[0]] + a[1..] && b == [b[0]] + b[1..]; }
    }
  }

  lemma {:induction false} LessTransitive(a: string, b: string, c: string)
    requires Less(a, b) && Less(b, c)
    ensures Less(a, c)
  {
    if a != "" && a[0] == b[0] == c[0] { LessTransitive(a[1..], b[1..], c[1..]); }
  }

  lemma {:induction false} LessIrreflexive(a: string)
    ensures !Less(a, a)
  {
    if a != "" { LessIrreflexive(a[1..]); }
  }

  ghost predicate Increasing(ks: seq<string>) {
    forall i, j :: 0 <= i < j < |ks| ==> Less(ks[i], ks[j])
  }

  /** Every name of the set once, in order. */
  ghost predicate Enumerates(ks: seq<string>, names: set<string>) {
    Increasing(ks) && forall k :: k in ks <==> k in names
  }

  /** There is only one such order. */
  lemma {:induction false} EnumeratesUnique(a: seq<string>, b: seq<string>, names: set<string>)
    requires Enumerates(a, names) && Enumerates(b, names)
    ensures a == b
    decreases |a|
  {
    hide Less;
    if a == [] {
      if b != [] { FirstIsSmallest(b, a, names); }
    } else {
      var k := a[0];
      assert k in a;
      FirstIsSmallest(a, b, names);
      EnumeratesTail(a, names);
      EnumeratesTail(b, names);
      EnumeratesUnique(a[1..], b[1..], names - {k});
      assert a == [k] + a[1..] && b == [k] + b[1..];
    }
  }

  lemma FirstIsSmallest(a: seq<string>, b: seq<string>, names: set<string>)
    requires Enumerates(a, names) && Enumerates(b, names) && a != []
    ensures b != [] && b[0] == a[0]
  {
    hide Less;
    assert a[0] in a && a[0] in b;
    assert b[0] in b && b[0] in a;
    var i :| 0 <= i < |b| && b[i] == a[0];
    var j :| 0 <= j < |a| && a[j] == b[0];
    if i > 0 && j > 0 {
      assert Less(b[0], b[i]) && Less(a[0], a[j]);
      LessTransitive(a[0], b[0], a[0]);
      LessIrreflexive(a[0]);
    }
  }

  lemma EnumeratesTail(a: seq<string>, names: set<string>)
    requires Enumerates(a, names) && a != []
    ensures Enumerates(a[1..], names - {a[0]})
  {
    hide Less;
    forall k ensures k in a[1..] <==> k in names && k != a[0] {
      if k in a[1..] {
        var i :| 1 <= i < |a| && a[i] == k;
        assert Less(a[0], a[i]);
        LessIrreflexive(k);
      }
    }
  }

  method Smallest(names: set<string>) returns (least: string)
    requires names != {}
    ensures least in names && forall k :: k in names && k != least ==> Less(least, k)
  {
    least :| least in names;
    var todo := names - {least};
    while todo != {}
      invariant todo <= names && least in names && least !in todo
      invariant forall k :: k in names - todo && k != least ==> Less(least, k)
    {
      var k :| k in todo;
      LessTotal(least, k);
      if Less(k, least) {
        forall q | q in names - todo && q != least ensures Less(k, q) { LessTransitive(k, least, q); }
        least := k;
      }
      todo := todo - {k};
    }
  }

  method SortedNames(names: set<string>) returns (ks: seq<string>)
    ensures Enumerates(ks, names)
  {
    ks := [];
    var todo := names;
    while todo != {}
      invariant todo <= names && Increasing(ks)
      invariant forall k :: k in ks <==> k in names - todo
      invariant forall k, q :: k in ks && q in todo ==> Less(k, q)
    {
      var k := Smallest(todo);
      ks := ks + [k];
      todo := todo - {k};
    }
  }
}
