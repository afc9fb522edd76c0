/** A text file as Python reads it line by line: a carriage return, a newline, or the two together
    end a line. */
module FileText {
  import opened Text

  /** Line ends translated to newlines. */
  function Universal(s: string): (u: string)
    ensures '\r' !in u
  {
    if s == "" then ""
    else if s[0] == '\r' then "\n" + Universal(if |s| > 1 && s[1] == '\n' then s[2..] else s[1..])
    else [s[0]] + Universal(s[1..])
  }

  /** The lines of a file, the last one only if it is not empty. */
  function FileLines(text: string): seq<string> {
    var pieces := Split(Universal(text));
    if pieces[|pieces| - 1] == "" then pieces[..|pieces| - 1] else pieces
  }

  predicate OneLine(s: string) {
    '\n' !in s && '\r' !in s
  }

  ghost predicate OneLines(lines: seq<string>) {
    forall i :: 0 <= i < |lines| ==> OneLine(lines[i])
  }

  lemma {:induction false} SplitKeeps(s: string, c: char)
    requires c !in s
    ensures forall i :: 0 <= i < |Split(s)| ==> c !in Split(s)[i]
  {
    var first := Before(s, '\n');
    if |first| < |s| { SplitKeeps(s[|first| + 1..], c); }
  }

  /** Whatever is read is one line. */
  lemma FileLinesOneLine(text: string)
    ensures OneLines(FileLines(text))
  {
    SplitKeeps(Universal(text), '\r');
  }

  // ----- a newline separates what is read before it from what is read after it

  lemma {:induction false} UniversalLine(a: string, b: string)
    ensures Universal(a + "\n" + b) == Universal(a + "\n") + Universal(b)
    ensures Universal(a + "\n") != "" && Universal(a + "\n")[|Universal(a + "\n")| - 1] == '\n'
    decreases |a|
  {
    var s, t := a + "\n" + b, a + "\n";
    if a == "" {
      assert s[1..] == b && t[1..] == "";
      assert Universal(t) == "\n" && Universal(s) == "\n" + Universal(b);
    } else if a[0] == '\r' && |a| == 1 {
      assert s[2..] == b && t[2..] == "";
      assert Universal(t) == "\n" && Universal(s) == "\n" + Universal(b);
    } else if a[0] == '\r' && a[1] == '\n' {
      assert s[2..] == a[2..] + "\n" + b && t[2..] == a[2..] + "\n";
      UniversalLine(a[2..], b);
    } else {
      assert s[1..] == a[1..] + "\n" + b && t[1..] == a[1..] + "\n";
      UniversalLine(a[1..], b);
    }
  }

  lemma {:induction false} SplitConcat(u: string, v: string)
    requires u != "" && u[|u| - 1] == '\n'
    ensures |Split(u)| >= 2 && Split(u)[|Split(u)| - 1] == ""
    ensures Split(u + v) == Split(u)[..|Split(u)| - 1] + Split(v)
    decreases |u|
  {
    hide Split, Before;
    var first := Before(u, '\n');
    var rest := u[|first| + 1..];
    assert u == first + "\n" + rest && u + v == first + "\n" + (rest + v);
    SplitLine(first, rest);
    SplitLine(first, rest + v);
    var r := Split(rest);
    assert ([first] + r)[..|r|] == [first] + r[..|r| - 1];
    if rest == "" {
      SplitEmpty();
      assert rest + v == v;
    } else {
      SplitConcat(rest, v);
    }
  }

  lemma FileLinesConcat(a: string, b: string)
    ensures FileLines(a + "\n" + b) == FileLines(a + "\n") + FileLines(b)
  {
    hide Split;
    UniversalLine(a, b);
    SplitConcat(Universal(a + "\n"), Universal(b));
    var x, y := Split(Universal(a + "\n")), Split(Universal(b));
    var xs := x[..|x| - 1];
    assert (xs + y)[|xs + y| - 1] == y[|y| - 1];
    assert (xs + y)[..|xs + y| - 1] == xs + y[..|y| - 1];
  }

  // ----- the lines a printed line is read as

  function Pieces(line: string): seq<string> {
    FileLines(line + "\n")
  }

  function AllPieces(lines: seq<string>): seq<string> {
    if lines == [] then [] else Pieces(lines[0]) + AllPieces(lines[1..])
  }

  /** A printed file is read as the pieces of its lines. */
  lemma {:induction false} FileLinesUnlines(lines: seq<string>)
    ensures FileLines(Unlines(lines)) == AllPieces(lines)
  {
    if lines == [] {
      SplitEmpty();
    } else {
      hide FileLines;
      FileLinesConcat(lines[0], Unlines(lines[1..]));
      FileLinesUnlines(lines[1..]);
    }
  }

  lemma {:induction false} AllPiecesConcat(a: seq<string>, b: seq<string>)
    ensures AllPieces(a + b) == AllPieces(a) + AllPieces(b)
  {
    hide Pieces;
    if a == [] {
      assert a + b == b;
    } else {
      assert (a + b)[1..] == a[1..] + b;
      AllPiecesConcat(a[1..], b);
    }
  }

  lemma {:induction false} UniversalIdle(s: string)
    requires '\r' !in s
    ensures Universal(s) == s
  {
    if s != "" { UniversalIdle(s[1..]); }
  }

  lemma OneLinePieces(line: string)
    requires OneLine(line)
    ensures Pieces(line) == [line]
  {
    UniversalIdle(line + "\n");
    SplitLine(line, "");
    assert line + "\n" + "" == line + "\n";
    SplitEmpty();
  }

  lemma {:induction false} AllPiecesIdle(lines: seq<string>)
    requires OneLines(lines)
    ensures AllPieces(lines) == lines
  {
    hide Pieces;
    if lines != [] {
      OneLinePieces(lines[0]);
      AllPiecesIdle(lines[1..]);
    }
  }

  lemma {:induction false} AllPiecesOneLine(lines: seq<string>)
    ensures OneLines(AllPieces(lines))
  {
    if lines != [] {
      FileLinesOneLine(lines[0] + "\n");
      hide FileLines, OneLine;
      AllPiecesOneLine(lines[1..]);
    }
  }
}
