/** Adding the VPN's lines to resolv.conf, and taking them out again. */
module ResolvConf {
  import opened Bytes
  import opened TextLines

  // ---------- The lines ----------

  function SpaceForSemicolon(s: string): (r: string)
    ensures |r| == |s| && forall i :: 0 <= i < |s| ==> r[i] == if s[i] == ';' then ' ' else s[i]
  {
    seq(|s|, i requires 0 <= i < |s| => if s[i] == ';' then ' ' else s[i])
  }

  function ServerLines(servers: seq<string>): seq<string> {
    if servers == [] then [] else ["nameserver " + servers[0]] + ServerLines(servers[1..])
  }

  /** A name server per line, then the search domains unless there are none. */
  function DnsLines(servers: seq<string>, searchDomain: Option<string>): seq<string> {
    ServerLines(servers)
    + if searchDomain.Some? && searchDomain.value != "" then ["search " + SpaceForSemicolon(searchDomain.value)] else []
  }

  function NotIn(lines: seq<string>, existing: seq<string>): seq<string> {
    if lines == [] then []
    else if lines[0] in existing then NotIn(lines[1..], existing) else [lines[0]] + NotIn(lines[1..], existing)
  }

  /** The name servers come in the configured order, then the search domains. */
  lemma {:induction false} ServerLinesInOrder(servers: seq<string>)
    ensures |ServerLines(servers)| == |servers|
    ensures forall i :: 0 <= i < |servers| ==> ServerLines(servers)[i] == "nameserver " + servers[i]
  {
    if servers != [] {
      ServerLinesInOrder(servers[1..]);
    }
  }

  /** What is filtered keeps its order: a list in two parts is filtered part by part. */
  lemma {:induction false} NotInKeepsOrder(a: seq<string>, b: seq<string>, existing: seq<string>)
    ensures NotIn(a + b, existing) == NotIn(a, existing) + NotIn(b, existing)
  {
    if a == [] {
      assert a + b == b && [] + NotIn(b, existing) == NotIn(b, existing);
    } else {
      assert (a + b)[0] == a[0] && (a + b)[1..] == a[1..] + b;
      NotInKeepsOrder(a[1..], b, existing);
      AppendAssoc([a[0]], NotIn(a[1..], existing), NotIn(b, existing));
    }
  }

  /** The lines to add are in the order of the servers, the search line last, and none is lost but for one there. */
  lemma LinesToAddInOrder(original: string, servers: seq<string>, searchDomain: Option<string>, k: nat)
    requires k <= |servers|
    ensures DnsLinesToAdd(original, servers, searchDomain) ==
            NotIn(ServerLines(servers[..k]), Lines(original))
            + DnsLinesToAdd(original, servers[k..], searchDomain)
    ensures k < |servers| && "nameserver " + servers[k] !in Lines(original) ==>
              var rest := DnsLinesToAdd(original, servers[k..], searchDomain);
              rest != [] && rest[0] == "nameserver " + servers[k]
  {
    hide Lines, NotIn;
    ServerLinesConcat(servers[..k], servers[k..]);
    assert servers == servers[..k] + servers[k..];
    var search := DnsLines([], searchDomain);
    AppendAssoc(ServerLines(servers[..k]), ServerLines(servers[k..]), search);
    SearchIsLast(servers, searchDomain);
    SearchIsLast(servers[k..], searchDomain);
    NotInKeepsOrder(ServerLines(servers[..k]), DnsLines(servers[k..], searchDomain), Lines(original));
    if k < |servers| {
      FirstStays(DnsLines(servers[k..], searchDomain), Lines(original));
    }
  }

  lemma FirstStays(lines: seq<string>, existing: seq<string>)
    ensures lines != [] && lines[0] !in existing ==>
              NotIn(lines, existing) != [] && NotIn(lines, existing)[0] == lines[0]
  {
  }

  lemma SearchIsLast(servers: seq<string>, searchDomain: Option<string>)
    ensures DnsLines(servers, searchDomain) == ServerLines(servers) + DnsLines([], searchDomain)
    ensures DnsLines([], searchDomain) ==
            match searchDomain
            case None => []
            case Some(s) => if s == "" then [] else ["search " + SpaceForSemicolon(s)]
  {
    assert [] + DnsLines([], searchDomain) == DnsLines([], searchDomain);
  }

  lemma {:induction false} ServerLinesConcat(a: seq<string>, b: seq<string>)
    ensures ServerLines(a + b) == ServerLines(a) + ServerLines(b)
  {
    if a == [] {
      assert a + b == b && [] + ServerLines(b) == ServerLines(b);
    } else {
      assert (a + b)[0] == a[0] && (a + b)[1..] == a[1..] + b;
      ServerLinesConcat(a[1..], b);
      AppendAssoc(["nameserver " + a[0]], ServerLines(a[1..]), ServerLines(b));
    }
  }

  function DnsLinesToAdd(original: string, servers: seq<string>, searchDomain: Option<string>): seq<string> {
    NotIn(DnsLines(servers, searchDomain), Lines(original))
  }

  lemma {:induction false} NotInIff(lines: seq<string>, existing: seq<string>, l: string)
    ensures l in NotIn(lines, existing) <==> l in lines && l !in existing
  {
    if lines != [] {
      assert lines == [lines[0]] + lines[1..];
      NotInIff(lines[1..], existing, l);
    }
  }

  method PrependDnsLines(original: string, added: seq<string>) returns (out: string)
    ensures out == Unlines(added) + original
  {
    out := "";
    assert added[..0] == [];
    for i := 0 to |added|
      invariant out == Unlines(added[..i])
    {
      assert added[..i + 1] == added[..i] + [added[i]];
      UnlinesConcat(added[..i], [added[i]]);
      UnlinesOne(added[i]);
      AppendAssoc(out, added[i], "\n");
      out := out + added[i] + "\n";
    }
    assert added[..|added|] == added;
    out := out + original;
  }

  lemma UnlinesOne(line: string)
    ensures Unlines([line]) == line + "\n"
  {
    assert [line][1..] == [];
    assert "\n" + "" == "\n";
  }

  // ---------- Removal ----------

  /** The lines kept and dropped so far, and the added lines that were not met yet. */
  datatype Removal = Removal(kept: seq<string>, dropped: seq<string>, pending: seq<string>)

  /** The index of the first equal line, or the length. */
  function Position(lines: seq<string>, line: string): (pos: nat)
    ensures pos <= |lines| && line !in lines[..pos] && (pos < |lines| ==> lines[pos] == line)
  {
    if lines == [] || lines[0] == line then 0
    else
      var pos := 1 + Position(lines[1..], line);
      assert lines[..pos] == [lines[0]] + lines[1..][..pos - 1];
      pos
  }

  function Step(r: Removal, line: string): Removal {
    var pos := Position(r.pending, line);
    if pos < |r.pending| then Removal(r.kept, r.dropped + [line], r.pending[..pos] + r.pending[pos + 1..])
    else Removal(r.kept + [line], r.dropped, r.pending)
  }

  function Remove(lines: seq<string>, added: seq<string>): Removal {
    if lines == [] then Removal([], [], added)
    else Step(Remove(lines[..|lines| - 1], added), lines[|lines| - 1])
  }

  method RemoveAddedDnsLines(current: string, added: seq<string>) returns (out: string)
    ensures out == Unlines(Remove(Lines(current), added).kept)
  {
    hide Lines, Position;
    var pending, lines := added, Lines(current);
    out := "";
    assert lines[..0] == [];
    for i := 0 to |lines|
      invariant out == Unlines(Remove(lines[..i], added).kept) && pending == Remove(lines[..i], added).pending
    {
      var line := lines[i];
      assert lines[..i + 1][..i] == lines[..i];
      var pos := Position(pending, line);
      if pos < |pending| {
        pending := pending[..pos] + pending[pos + 1..];
      } else {
        UnlinesConcat(Remove(lines[..i], added).kept, [line]);
        UnlinesOne(line);
        AppendAssoc(out, line, "\n");
        out := out + line + "\n";
      }
    }
    assert lines[..|lines|] == lines;
  }

  // ---------- What is removed ----------

  /** The lines that were met before at least as often as they were added. */
  function Surplus(lines: seq<string>, added: seq<string>): seq<string> {
    if lines == [] then []
    else
      var init, last := lines[..|lines| - 1], lines[|lines| - 1];
      if multiset(init)[last] < multiset(added)[last] then Surplus(init, added) else Surplus(init, added) + [last]
  }

  lemma SnocCount(lines: seq<string>, x: string)
    requires lines != []
    ensures var init, last := lines[..|lines| - 1], lines[|lines| - 1];
            multiset(lines)[x] == multiset(init)[x] + if x == last then 1 else 0
  {
    SnocOf(lines);
  }

  lemma RemovedCount(lines: seq<string>, pos: nat, x: string)
    requires pos < |lines|
    ensures multiset(lines[..pos] + lines[pos + 1..])[x] == multiset(lines)[x] - if x == lines[pos] then 1 else 0
  {
    assert lines == lines[..pos] + ([lines[pos]] + lines[pos + 1..]);
    assert multiset(lines) == multiset(lines[..pos]) + multiset([lines[pos]]) + multiset(lines[pos + 1..]);
  }

  lemma PositionIffIn(lines: seq<string>, line: string)
    ensures Position(lines, line) < |lines| <==> line in lines
  {
    if Position(lines, line) == |lines| {
      assert lines[..|lines|] == lines;
    }
  }

  /** Of every line value exactly the first occurrences go, as many as were added; the rest keep their order. */
  lemma {:induction false} RemovesFirstOccurrences(lines: seq<string>, added: seq<string>)
    ensures Remove(lines, added).kept == Surplus(lines, added)
    ensures forall x :: multiset(Remove(lines, added).pending)[x] ==
                        if multiset(lines)[x] <= multiset(added)[x] then multiset(added)[x] - multiset(lines)[x] else 0
  {
    hide Position;
    if lines != [] {
      var init, last := lines[..|lines| - 1], lines[|lines| - 1];
      RemovesFirstOccurrences(init, added);
      var before := Remove(init, added);
      var pos := Position(before.pending, last);
      PositionIffIn(before.pending, last);
      assert last in before.pending <==> multiset(before.pending)[last] > 0;
      forall x
        ensures multiset(Remove(lines, added).pending)[x] ==
                if multiset(lines)[x] <= multiset(added)[x] then multiset(added)[x] - multiset(lines)[x] else 0
      {
        SnocCount(lines, x);
        if pos < |before.pending| {
          RemovedCount(before.pending, pos, x);
        }
      }
    }
  }

  // ---------- Undoing ----------

  /** What the removal leaves of a file. */
  function Undone(current: string, added: seq<string>): string {
    Unlines(Remove(Lines(current), added).kept)
  }

  lemma StepOnFirst(r: Removal, line: string)
    requires r.pending != [] && r.pending[0] == line
    ensures Step(r, line) == Removal(r.kept, r.dropped + [line], r.pending[1..])
  {
    assert r.pending[..0] + r.pending[1..] == r.pending[1..];
  }

  lemma {:induction false} AddedLinesGo(added: seq<string>, i: nat)
    requires i <= |added|
    ensures Remove(added[..i], added) == Removal([], added[..i], added[i..])
  {
    hide Step;
    if i > 0 {
      AddedLinesGo(added, i - 1);
      StepOnFirst(Removal([], added[..i - 1], added[i - 1..]), added[i - 1]);
      assert added[..i][..i - 1] == added[..i - 1];
      assert added[..i] == added[..i - 1] + [added[i - 1]];
    }
  }

  lemma {:induction false} OtherLinesStay(added: seq<string>, rest: seq<string>)
    ensures Remove(added + rest, added).kept == rest && Remove(added + rest, added).pending == []
  {
    if rest == [] {
      AddedLinesGo(added, |added|);
      assert added[..|added|] == added == added + rest;
    } else {
      var init := rest[..|rest| - 1];
      OtherLinesStay(added, init);
      assert (added + rest)[..|added + rest| - 1] == added + init;
      SnocOf(rest);
    }
  }

  lemma LinesOfPrepended(added: seq<string>, rest: string)
    ensures Lines(Unlines(added) + rest) == Lines(Unlines(added)) + Lines(rest)
  {
    UnlinesTerminated(added);
    LinesConcat(Unlines(added), rest);
  }

  predicate AllPlain(lines: seq<string>) {
    forall l :: l in lines ==> Plain(l)
  }

  lemma PlainIsUndone(added: seq<string>, rest: string)
    requires AllPlain(added)
    ensures Undone(Unlines(added) + rest, added) == Normalize(rest)
  {
    hide Lines, Unlines, Remove, Plain;
    LinesOfPrepended(added, rest);
    PlainLinesAreReadBack(added);
    OtherLinesStay(added, Lines(rest));
  }

  /** Every line read is kept or dropped, and every line added is met or still pending. */
  lemma {:induction false} NothingIsLost(lines: seq<string>, added: seq<string>)
    ensures var r := Remove(lines, added);
            && |r.kept| + |r.dropped| == |lines| && |r.dropped| + |r.pending| == |added|
            && |Unlines(r.kept)| + |Unlines(r.dropped)| == |Unlines(lines)|
            && |Unlines(r.dropped)| + |Unlines(r.pending)| == |Unlines(added)|
            && forall l :: l in r.kept ==> l in lines
  {
    hide Position, Unlines;
    if lines == [] {
      NoLines();
    } else {
      var init, last := lines[..|lines| - 1], lines[|lines| - 1];
      NothingIsLost(init, added);
      SnocOf(lines);
      UnlinesConcat(init, [last]);
      var before := Remove(init, added);
      var pos := Position(before.pending, last);
      if pos < |before.pending| {
        UnlinesConcat(before.dropped, [last]);
        SizeWithout(before.pending, pos);
      } else {
        UnlinesConcat(before.kept, [last]);
      }
    }
  }

  lemma SizeWithout(lines: seq<string>, pos: nat)
    requires pos < |lines|
    ensures |Unlines(lines[..pos] + lines[pos + 1..])| + |Unlines([lines[pos]])| == |Unlines(lines)|
  {
    hide Unlines;
    assert lines == lines[..pos] + ([lines[pos]] + lines[pos + 1..]);
    UnlinesConcat(lines[..pos], [lines[pos]] + lines[pos + 1..]);
    UnlinesConcat([lines[pos]], lines[pos + 1..]);
    UnlinesConcat(lines[..pos], lines[pos + 1..]);
  }

  /** If as many and as long lines are kept as the rest of the file had, all added lines were plain. */
  lemma SameSizeMeansPlain(added: seq<string>, rest: string)
    requires var kept := Remove(Lines(Unlines(added) + rest), added).kept;
             |kept| == |Lines(rest)| && |Unlines(kept)| >= |Normalize(rest)|
    ensures AllPlain(added) && |Unlines(Remove(Lines(Unlines(added) + rest), added).kept)| == |Normalize(rest)|
  {
    hide Lines, Unlines, Remove;
    var a, o := Lines(Unlines(added)), Lines(rest);
    var r := Remove(a + o, added);
    LinesOfPrepended(added, rest);
    NothingIsLost(a + o, added);
    UnlinesConcat(a, o);
    UnlinesTerminated(added);
    LineCount(Unlines(added));
    BreaksOfUnlines(added);
    assert |r.dropped| == |a| && r.pending == [];
    NoLines();
    LinesOfUnlines(added);
    StripShortens(added);
    assert |Unlines(r.dropped)| == |Unlines(added)| && |Unlines(a)| <= |Unlines(added)|;
    assert |Unlines(r.kept)| == |Unlines(o)| && |Unlines(a)| == |Unlines(added)|;
  }

  lemma KeptHasNoBreak(t: string, added: seq<string>)
    ensures var kept := Remove(Lines(t), added).kept;
            Breaks(Unlines(kept)) == |kept|
  {
    hide Lines, Unlines, Remove;
    LinesHaveNoBreak(t);
    NothingIsLost(Lines(t), added);
    BreaksOfUnlines(Remove(Lines(t), added).kept);
  }

  /**
   * Taking the added lines out of the file, to which more may have been appended since, leaves the other lines
   * as they were exactly when every added line is plain.
   */
  lemma UndoKeepsLinesIff(original: string, more: string, added: seq<string>)
    ensures Undone(Unlines(added) + original + more, added) == Normalize(original + more) <==> AllPlain(added)
  {
    hide Lines, Unlines, Remove, Plain, Breaks;
    var rest := original + more;
    AppendAssoc(Unlines(added), original, more);
    if AllPlain(added) {
      PlainIsUndone(added, rest);
    }
    if Undone(Unlines(added) + rest, added) == Normalize(rest) {
      KeptHasNoBreak(Unlines(added) + rest, added);
      LinesHaveNoBreak(rest);
      BreaksOfUnlines(Lines(rest));
      SameSizeMeansPlain(added, rest);
    }
  }

  /** It gives the very text back exactly when, besides, that text was normal. */
  lemma UndoRestoresIff(original: string, more: string, added: seq<string>)
    ensures Undone(Unlines(added) + original + more, added) == original + more <==>
            AllPlain(added) && Normal(original + more)
  {
    hide Lines, Unlines, Remove, Plain, Breaks, Normal, Terminated;
    var rest := original + more;
    AppendAssoc(Unlines(added), original, more);
    NormalIff(rest);
    if AllPlain(added) {
      PlainIsUndone(added, rest);
    }
    if Undone(Unlines(added) + rest, added) == rest {
      KeptHasNoBreak(Unlines(added) + rest, added);
      UnlinesTerminated(Remove(Lines(Unlines(added) + rest), added).kept);
      LineCount(rest);
      NormalizeShortens(rest);
      SameSizeMeansPlain(added, rest);
      PlainIsUndone(added, rest);
    }
  }

  // ---------- Adding once ----------

  lemma NothingToAddIff(lines: seq<string>, existing: seq<string>)
    ensures NotIn(lines, existing) == [] <==> forall l :: l in lines ==> l in existing
  {
    hide NotIn;
    forall l ensures l in NotIn(lines, existing) <==> l in lines && l !in existing {
      NotInIff(lines, existing, l);
    }
    if NotIn(lines, existing) != [] {
      assert NotIn(lines, existing)[0] in NotIn(lines, existing);
    }
  }

  function Longest(lines: seq<string>): nat {
    if lines == [] then 0 else if |lines[0]| > Longest(lines[1..]) then |lines[0]| else Longest(lines[1..])
  }

  lemma {:induction false} LongestIsLongest(lines: seq<string>, l: string)
    requires l in lines
    ensures |l| <= Longest(lines)
  {
    if l != lines[0] {
      LongestIsLongest(lines[1..], l);
    }
  }

  /** Each line with a carriage return at its end would need a longer one to be read back from. */
  lemma {:induction false} NoReturns(lines: seq<string>, l: string)
    requires l in lines && forall x :: x in lines ==> x in StripAll(lines)
    ensures !EndsInReturn(l)
    decreases Longest(lines) - |l|
  {
    LongestIsLongest(lines, l);
    StripAllIff(lines, l);
    var m :| m in lines && StripReturn(m) == l;
    LongestIsLongest(lines, m);
    if EndsInReturn(m) {
      NoReturns(lines, m);
    }
  }

  /** Once the lines are in the file nothing is left to add exactly when all that were added are plain. */
  lemma NothingLeftToAddIff(original: string, servers: seq<string>, searchDomain: Option<string>)
    ensures var added := DnsLinesToAdd(original, servers, searchDomain);
            DnsLinesToAdd(Unlines(added) + original, servers, searchDomain) == [] <==> AllPlain(added)
  {
    hide Lines, Unlines, DnsLines, NotIn, Plain, EndsInReturn;
    var lines, existing := DnsLines(servers, searchDomain), Lines(original);
    var added := NotIn(lines, existing);
    var now := Lines(Unlines(added) + original);
    LinesOfPrepended(added, original);
    NothingToAddIff(lines, now);
    forall l ensures l in added <==> l in lines && l !in existing {
      NotInIff(lines, existing, l);
    }
    if AllPlain(added) {
      PlainLinesAreReadBack(added);
    }
    if forall l :: l in lines ==> l in now {
      AddedAreReadBack(added);
    }
  }

  lemma AddedAreReadBack(added: seq<string>)
    requires forall l :: l in added ==> l in Lines(Unlines(added))
    ensures AllPlain(added)
  {
    hide Lines, Unlines, EndsInReturn;
    LinesHaveNoBreak(Unlines(added));
    LinesOfUnlines(added);
    forall l | l in added ensures Plain(l) {
      NoReturns(added, l);
    }
  }

  lemma {:induction false} ServerLinesPlainIff(servers: seq<string>)
    ensures AllPlain(ServerLines(servers)) <==> AllPlain(servers)
  {
    if servers != [] {
      hide Plain;
      ServerLinesPlainIff(servers[1..]);
      PrefixPlainIff("nameserver ", servers[0]);
      assert forall l :: l in servers <==> l == servers[0] || l in servers[1..];
      var first, others := "nameserver " + servers[0], ServerLines(servers[1..]);
      assert forall l :: l in [first] + others <==> l == first || l in others;
    }
  }

  lemma PrefixPlainIff(prefix: string, s: string)
    requires '\n' !in prefix && prefix != "" && prefix[|prefix| - 1] != '\r'
    ensures Plain(prefix + s) <==> Plain(s)
  {
    assert forall c :: c in prefix + s <==> c in prefix || c in s;
    if s != "" {
      assert (prefix + s)[|prefix + s| - 1] == s[|s| - 1];
    } else {
      assert prefix + s == prefix;
    }
  }

  lemma SpacesPlainIff(s: string)
    ensures Plain(SpaceForSemicolon(s)) <==> Plain(s)
  {
    var r := SpaceForSemicolon(s);
    if '\n' in s {
      var i :| 0 <= i < |s| && s[i] == '\n';
      assert r[i] in r;
    }
    if '\n' in r {
      var i :| 0 <= i < |r| && r[i] == '\n';
      assert s[i] in s;
    }
  }

  /** The lines are plain exactly when the configured servers and search domains are. */
  lemma DnsLinesPlainIff(servers: seq<string>, searchDomain: Option<string>)
    ensures AllPlain(DnsLines(servers, searchDomain)) <==>
            AllPlain(servers) && (searchDomain.Some? ==> Plain(searchDomain.value))
  {
    hide Plain;
    ServerLinesPlainIff(servers);
    EmptyIsPlain();
    if searchDomain.Some? && searchDomain.value != "" {
      var search := "search " + SpaceForSemicolon(searchDomain.value);
      PrefixPlainIff("search ", SpaceForSemicolon(searchDomain.value));
      SpacesPlainIff(searchDomain.value);
      assert forall l :: l in DnsLines(servers, searchDomain) <==> l in ServerLines(servers) || l == search;
    } else {
      assert DnsLines(servers, searchDomain) == ServerLines(servers);
    }
  }

  lemma EmptyIsPlain()
    ensures Plain("")
  {
  }
}
