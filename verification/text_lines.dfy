/** Texts as lists of lines. A line ends with a break, with a carriage return and a break, or with the text. */
module TextLines {
  import opened Bytes

  // ---------- Reading and writing lines ----------

  /** The index of the first line break, or the length. */
  function Break(t: string): (n: nat)
    ensures n <= |t| && '\n' !in t[..n] && (n < |t| ==> t[n] == '\n')
  {
    if t == "" || t[0] == '\n' then 0
    else
      var n := 1 + Break(t[1..]);
      assert t[..n] == [t[0]] + t[1..][..n - 1];
      n
  }

  predicate EndsInReturn(line: string) {
    line != "" && line[|line| - 1] == '\r'
  }

  function StripReturn(line: string): string {
    if EndsInReturn(line) then line[..|line| - 1] else line
  }

  /** A line ends with a break, with one carriage return before it dropped, or with the text. */
  function Lines(t: string): seq<string> {
    if t == "" then []
    else
      var n := Break(t);
      if n == |t| then [t] else [StripReturn(t[..n])] + Lines(t[n + 1..])
  }

  function Unlines(lines: seq<string>): string {
    if lines == [] then "" else lines[0] + ("\n" + Unlines(lines[1..]))
  }

  predicate Terminated(t: string) {
    t == "" || t[|t| - 1] == '\n'
  }

  /** A line that is read back as it was written. */
  predicate Plain(line: string) {
    '\n' !in line && !EndsInReturn(line)
  }

  lemma ConsLine<T>(line: seq<T>, lines: seq<seq<T>>)
    ensures ([line] + lines)[0] == line && ([line] + lines)[1..] == lines
  {
  }

  lemma UnlinesCons(line: string, lines: seq<string>)
    ensures Unlines([line] + lines) == line + ("\n" + Unlines(lines))
  {
    ConsLine(line, lines);
  }

  lemma {:induction false} BreakOfLine(line: string, t: string)
    requires '\n' !in line
    ensures Break(line + ("\n" + t)) == |line|
  {
    if line != "" {
      assert (line + ("\n" + t))[1..] == line[1..] + ("\n" + t);
      BreakOfLine(line[1..], t);
    }
  }

  lemma LinesOfLine(line: string, t: string)
    requires '\n' !in line
    ensures Lines(line + ("\n" + t)) == [StripReturn(line)] + Lines(t)
  {
    var all := line + ("\n" + t);
    BreakOfLine(line, t);
    assert all[..|line|] == line && all[|line| + 1..] == t;
  }

  lemma SplitAtElement<T>(t: seq<T>, n: nat)
    requires n < |t|
    ensures t == t[..n] + ([t[n]] + t[n + 1..])
    ensures t[n + 1..] != [] ==> t[n + 1..][|t| - n - 2] == t[|t| - 1]
  {
  }

  /** A text up to its first line break, and behind it. */
  lemma SplitFirst(t: string)
    requires Break(t) < |t|
    ensures t == t[..Break(t)] + ("\n" + t[Break(t) + 1..])
    ensures Lines(t) == [StripReturn(t[..Break(t)])] + Lines(t[Break(t) + 1..])
    ensures Terminated(t) <==> Terminated(t[Break(t) + 1..])
  {
    hide StripReturn;
    SplitAtElement(t, Break(t));
  }

  lemma TerminatedHasBreak(t: string)
    ensures Terminated(t) && t != "" ==> Break(t) < |t|
  {
    if t != "" && Break(t) == |t| {
      assert t[..Break(t)] == t && t[|t| - 1] in t;
    }
  }

  lemma {:induction false} LinesConcat(a: string, t: string)
    requires Terminated(a)
    ensures Lines(a + t) == Lines(a) + Lines(t)
    decreases |a|
  {
    if a == "" {
      assert a + t == t && [] + Lines(t) == Lines(t);
    } else {
      TerminatedHasBreak(a);
      SplitFirst(a);
      var line, rest := a[..Break(a)], a[Break(a) + 1..];
      AppendAssoc(line, "\n" + rest, t);
      AppendAssoc("\n", rest, t);
      LinesOfLine(line, rest + t);
      LinesConcat(rest, t);
      AppendAssoc([StripReturn(line)], Lines(rest), Lines(t));
    }
  }

  lemma {:induction false} UnlinesConcat(a: seq<string>, b: seq<string>)
    ensures Unlines(a + b) == Unlines(a) + Unlines(b)
  {
    if a == [] {
      assert a + b == b && "" + Unlines(b) == Unlines(b);
    } else {
      assert a + b == [a[0]] + (a[1..] + b);
      UnlinesCons(a[0], a[1..] + b);
      UnlinesConcat(a[1..], b);
      AppendAssoc("\n", Unlines(a[1..]), Unlines(b));
      AppendAssoc(a[0], "\n" + Unlines(a[1..]), Unlines(b));
    }
  }

  lemma {:induction false} UnlinesTerminated(lines: seq<string>)
    ensures Terminated(Unlines(lines))
  {
    if lines != [] {
      UnlinesTerminated(lines[1..]);
      var rest := Unlines(lines[1..]);
      if rest != "" {
        assert Unlines(lines)[|Unlines(lines)| - 1] == rest[|rest| - 1];
      }
    }
  }

  function StripAll(lines: seq<string>): seq<string> {
    if lines == [] then [] else [StripReturn(lines[0])] + StripAll(lines[1..])
  }

  /** Lines without breaks are read back, without the carriage return at their end. */
  lemma {:induction false} LinesOfUnlines(lines: seq<string>)
    requires forall l :: l in lines ==> '\n' !in l
    ensures Lines(Unlines(lines)) == StripAll(lines)
  {
    hide StripReturn, Lines;
    if lines == [] {
      NoLines();
    } else {
      LinesOfLine(lines[0], Unlines(lines[1..]));
      LinesOfUnlines(lines[1..]);
    }
  }

  lemma NoLines()
    ensures Lines("") == [] && Unlines([]) == ""
  {
  }

  /** Stripping shortens exactly the lists with a line that ends in a carriage return. */
  lemma {:induction false} StripShortens(lines: seq<string>)
    ensures |StripAll(lines)| == |lines| && |Unlines(StripAll(lines))| <= |Unlines(lines)|
    ensures |Unlines(StripAll(lines))| == |Unlines(lines)| <==> forall l :: l in lines ==> !EndsInReturn(l)
    ensures (forall l :: l in lines ==> !EndsInReturn(l)) ==> StripAll(lines) == lines
  {
    if lines != [] {
      StripShortens(lines[1..]);
      UnlinesCons(StripReturn(lines[0]), StripAll(lines[1..]));
      assert lines == [lines[0]] + lines[1..];
      assert forall l :: l in lines <==> l == lines[0] || l in lines[1..];
    }
  }

  lemma PlainLinesAreReadBack(lines: seq<string>)
    requires forall l :: l in lines ==> Plain(l)
    ensures Lines(Unlines(lines)) == lines
  {
    hide StripReturn, Lines, Unlines;
    LinesOfUnlines(lines);
    StripShortens(lines);
  }

  lemma {:induction false} LinesHaveNoBreak(t: string)
    ensures forall l :: l in Lines(t) ==> '\n' !in l
    decreases |t|
  {
    if Break(t) < |t| {
      LinesHaveNoBreak(t[Break(t) + 1..]);
      SplitFirst(t);
    } else {
      assert t[..Break(t)] == t;
    }
  }

  // ---------- Counting breaks ----------

  function Breaks(t: string): nat {
    if t == "" then 0 else (if t[0] == '\n' then 1 else 0) + Breaks(t[1..])
  }

  lemma {:induction false} BreaksConcat(a: string, b: string)
    ensures Breaks(a + b) == Breaks(a) + Breaks(b)
  {
    if a == "" {
      assert a + b == b;
    } else {
      assert (a + b)[1..] == a[1..] + b;
      BreaksConcat(a[1..], b);
    }
  }

  lemma {:induction false} NoBreaksIff(t: string)
    ensures Breaks(t) == 0 <==> '\n' !in t
  {
    if t != "" {
      assert t == [t[0]] + t[1..];
      NoBreaksIff(t[1..]);
    }
  }

  /** A terminated text has a line for each break. */
  lemma {:induction false} LineCount(t: string)
    requires Terminated(t)
    ensures |Lines(t)| == Breaks(t)
    decreases |t|
  {
    hide Lines, StripReturn;
    if t == "" {
      NoLines();
    } else {
      TerminatedHasBreak(t);
      SplitFirst(t);
      var line, rest := t[..Break(t)], t[Break(t) + 1..];
      BreaksConcat(line, "\n" + rest);
      NoBreaksIff(line);
      assert ("\n" + rest)[1..] == rest;
      LineCount(rest);
    }
  }

  lemma {:induction false} BreaksOfUnlines(lines: seq<string>)
    ensures Breaks(Unlines(lines)) >= |lines|
    ensures Breaks(Unlines(lines)) == |lines| <==> forall l :: l in lines ==> '\n' !in l
  {
    if lines != [] {
      var rest := Unlines(lines[1..]);
      BreaksConcat(lines[0], "\n" + rest);
      assert ("\n" + rest)[1..] == rest;
      NoBreaksIff(lines[0]);
      BreaksOfUnlines(lines[1..]);
      assert forall l :: l in lines <==> l == lines[0] || l in lines[1..];
    }
  }

  // ---------- Normal texts ----------

  /** The text with every line terminated by a break alone. */
  function Normalize(t: string): string {
    Unlines(Lines(t))
  }

  predicate HasCrLf(t: string) {
    exists i :: 0 <= i < |t| - 1 && t[i] == '\r' && t[i + 1] == '\n'
  }

  predicate Normal(t: string) {
    Terminated(t) && !HasCrLf(t)
  }

  lemma CrLfIsFound(line: string, rest: string)
    requires EndsInReturn(line) || HasCrLf(rest)
    ensures HasCrLf(line + ("\n" + rest))
  {
    var t, n := line + ("\n" + rest), |line|;
    if EndsInReturn(line) {
      assert t[n - 1] == '\r' && t[n - 1 + 1] == '\n';
    } else {
      var i :| 0 <= i < |rest| - 1 && rest[i] == '\r' && rest[i + 1] == '\n';
      assert t[n + 1 + i] == '\r' && t[n + 1 + i + 1] == '\n';
    }
  }

  lemma CrLfCameFrom(line: string, rest: string, i: nat)
    requires '\n' !in line
    requires var t := line + ("\n" + rest); i < |t| - 1 && t[i] == '\r' && t[i + 1] == '\n'
    ensures EndsInReturn(line) || HasCrLf(rest)
  {
    var t, n := line + ("\n" + rest), |line|;
    if i > n {
      assert rest[i - n - 1] == '\r' && rest[i - n - 1 + 1] == '\n';
    }
  }

  lemma NoCrLf(line: string, rest: string)
    requires '\n' !in line && !EndsInReturn(line) && !HasCrLf(rest)
    ensures !HasCrLf(line + ("\n" + rest))
  {
    hide EndsInReturn;
    var t := line + ("\n" + rest);
    forall i | 0 <= i < |t| - 1 && t[i] == '\r' ensures t[i + 1] != '\n' {
      if t[i + 1] == '\n' {
        CrLfCameFrom(line, rest, i);
      }
    }
  }

  lemma NormalSplit(t: string)
    requires Break(t) < |t|
    ensures Normal(t) <==> !EndsInReturn(t[..Break(t)]) && Normal(t[Break(t) + 1..])
  {
    hide HasCrLf, EndsInReturn, Lines, Terminated;
    SplitFirst(t);
    var line, rest := t[..Break(t)], t[Break(t) + 1..];
    if EndsInReturn(line) || HasCrLf(rest) {
      CrLfIsFound(line, rest);
    } else {
      NoCrLf(line, rest);
    }
  }

  /** Reading and writing the lines of a text gives it back exactly when it is normal. */
  lemma {:induction false} NormalIff(t: string)
    ensures Normalize(t) == t <==> Normal(t)
    decreases |t|
  {
    var n := Break(t);
    if t == "" {
    } else if n == |t| {
      assert t[..n] == t;
      assert t[|t| - 1] in t;
      assert Unlines([t]) == t + ("\n" + "");
    } else {
      NormalSplit(t);
      SplitFirst(t);
      var line, rest := t[..n], t[n + 1..];
      NormalIff(rest);
      UnlinesCons(StripReturn(line), Lines(rest));
      SameLine(line, StripReturn(line), rest, Normalize(rest));
    }
  }

  lemma SameLine(a: string, b: string, restA: string, restB: string)
    requires '\n' !in a && b == StripReturn(a)
    ensures b + ("\n" + restB) == a + ("\n" + restA) <==> b == a && restB == restA
  {
    var x, y := a + ("\n" + restA), b + ("\n" + restB);
    if b == a {
      assert x[|a| + 1..] == restA && y[|a| + 1..] == restB;
    } else {
      assert x[|b|] == a[|b|] == '\r' && y[|b|] == '\n';
    }
  }

  /** Normalizing a terminated text makes it no longer. */
  lemma {:induction false} NormalizeShortens(t: string)
    requires Terminated(t)
    ensures |Normalize(t)| <= |t|
    decreases |t|
  {
    hide Lines;
    if t == "" {
      NoLines();
    } else {
      TerminatedHasBreak(t);
      SplitFirst(t);
      var line, rest := t[..Break(t)], t[Break(t) + 1..];
      UnlinesCons(StripReturn(line), Lines(rest));
      NormalizeShortens(rest);
    }
  }

  lemma {:induction false} StripAllIff(lines: seq<string>, line: string)
    ensures line in StripAll(lines) <==> exists l :: l in lines && StripReturn(l) == line
  {
    hide StripReturn;
    if lines != [] {
      StripAllIff(lines[1..], line);
      assert forall l :: l in lines <==> l == lines[0] || l in lines[1..];
    }
  }
}
