/** What the style fixer keeps of a line, and what its guards and checks mean, without its own functions. */
module StyleMeaning {
  import opened StyleLines
  import opened StyleFile

  // ----- lines without their surrounding space

  /** `line` is `core` with only white space around it. */
  ghost predicate Surrounds(line: string, core: string) {
    exists a, b :: Blank(a) && Blank(b) && line == a + core + b
  }

  /** No printable character of ASCII is white space; blanks, tabs and line ends are. */
  lemma SpaceIs(c: char)
    ensures '!' <= c <= '~' ==> !IsSpace(c)
    ensures c == ' ' || c == '\t' || c == '\n' || c == '\r' || c == '\U{0B}' || c == '\U{0C}' ==> IsSpace(c)
  {
  }

  lemma StripMeans(line: string, core: string)
    requires Trim(core)
    ensures Strip(line) == core <==> Surrounds(line, core)
  {
    if Strip(line) == core {
      var a, b := StripSplits(line);
    }
    if Surrounds(line, core) {
      var a, b :| Blank(a) && Blank(b) && line == a + core + b;
      StripCore(a, core, b);
    }
  }

  ghost predicate IsOn(line: string) {
    Surrounds(line, "// clang-format on") || Surrounds(line, "# cmake-format: on") || Surrounds(line, "# fmt: on")
  }

  ghost predicate IsOff(line: string) {
    Surrounds(line, "// clang-format off") || Surrounds(line, "# cmake-format: off") || Surrounds(line, "# fmt: off")
  }

  lemma GuardMeans(line: string)
    ensures Strip(line) in GUARD_ON <==> IsOn(line)
    ensures Strip(line) in GUARD_OFF <==> IsOff(line)
    ensures !(IsOn(line) && IsOff(line))
  {
    GuardTexts();
    hide Strip, Surrounds, IsSpace;
    StripMeans(line, "// clang-format on");
    StripMeans(line, "# cmake-format: on");
    StripMeans(line, "# fmt: on");
    StripMeans(line, "// clang-format off");
    StripMeans(line, "# cmake-format: off");
    StripMeans(line, "# fmt: off");
  }

  lemma GuardTexts()
    ensures Trim("// clang-format on") && Trim("# cmake-format: on") && Trim("# fmt: on")
    ensures Trim("// clang-format off") && Trim("# cmake-format: off") && Trim("# fmt: off")
    ensures forall g :: g in GUARD_ON ==> g !in GUARD_OFF
  {
    var off, on := "// clang-format off", "// clang-format on";
    assert |"// clang-format on"| == 18 && |"// clang-format off"| == 19;
    assert |"# cmake-format: on"| == 18 && |"# cmake-format: off"| == 19;
    assert |"# fmt: on"| == 9 && |"# fmt: off"| == 10;
  }

  // ----- which lines are passed over

  /** The last guard before line `i` switches formatting off. */
  ghost predicate SwitchedOff(lines: seq<string>, i: nat)
    requires i <= |lines|
  {
    exists j :: 0 <= j < i && IsOff(lines[j]) && forall m :: j < m < i ==> !IsOn(lines[m])
  }

  lemma {:induction false} SkippedGeneral(enabled: bool, lines: seq<string>, i: nat)
    requires i < |lines|
    ensures SkippedLines(true, enabled, lines)[i] <==>
              && !IsOn(lines[i]) && !IsOff(lines[i])
              && (SwitchedOff(lines, i) || (!enabled && forall m :: 0 <= m < i ==> !IsOn(lines[m])))
    decreases lines
  {
    hide IsOn, IsOff, Strip;
    GuardMeans(lines[0]);
    if i == 0 {
    } else {
      var rest := lines[1..];
      var enabled' := Next(true, enabled, lines[0]);
      SkippedGeneral(enabled', rest, i - 1);
      assert forall m :: 0 <= m < i - 1 ==> rest[m] == lines[m + 1];
      if SwitchedOff(lines, i) {
        var j :| 0 <= j < i && IsOff(lines[j]) && forall m :: j < m < i ==> !IsOn(lines[m]);
        if j > 0 {
          assert IsOff(rest[j - 1]) && forall m :: j - 1 < m < i - 1 ==> !IsOn(rest[m]);
        } else {
          assert forall m :: 0 <= m < i - 1 ==> !IsOn(rest[m]);
        }
      }
      if SwitchedOff(rest, i - 1) {
        var j :| 0 <= j < i - 1 && IsOff(rest[j]) && forall m :: j < m < i - 1 ==> !IsOn(rest[m]);
        assert IsOff(lines[j + 1]);
        forall m | j + 1 < m < i
          ensures !IsOn(lines[m])
        {
          assert !IsOn(rest[m - 1]);
        }
      }
      if forall m :: 0 <= m < i - 1 ==> !IsOn(rest[m]) {
        forall m | 0 < m < i
          ensures !IsOn(lines[m])
        {
          assert !IsOn(rest[m - 1]);
        }
      }
    }
  }

  /** With guards respected, a line is passed over exactly when it is no guard and the last guard before it switches
      off. */
  lemma SkippedMeans(respect: bool, lines: seq<string>, i: nat)
    requires i < |lines|
    ensures SkippedLines(respect, true, lines)[i] <==>
              respect && !IsOn(lines[i]) && !IsOff(lines[i]) && SwitchedOff(lines, i)
  {
    if respect {
      SkippedGeneral(true, lines, i);
    } else {
      NothingSkipped(lines);
    }
  }

  // ----- what the checks mean

  /** No tabs; or, for the whitespace check, a line end after no other white space. */
  ghost predicate IsClean(check: Check, line: string) {
    match check
    case Tabs => forall i :: 0 <= i < |line| ==> line[i] != '\t'
    case Whitespace =>
      |line| > 0 && line[|line| - 1] == '\n' && (|line| > 1 ==> !IsSpace(line[|line| - 2]))
  }

  lemma CompliantMeans(check: Check, line: string)
    ensures LineCompliant(check, line) <==> IsClean(check, line)
  {
    match check {
      case Tabs =>
      case Whitespace =>
        var r := RStrip(line);
        RStripSplits(line);
        if LineCompliant(check, line) {
          assert (r + "\n")[|r|] == '\n';
          assert |r| > 0 ==> (r + "\n")[|r| - 1] == r[|r| - 1];
        }
        if IsClean(check, line) {
          var front := line[..|line| - 1];
          assert line == front + "\n" && Blank("\n");
          RStripDrops(front, "\n");
          assert RStrip(front) == front;
        }
    }
  }

  lemma {:induction false} ComplyGeneral(check: Check, respect: bool, enabled: bool, lines: seq<string>)
    ensures AllComply(check, respect, enabled, lines) <==>
              forall i :: 0 <= i < |lines| ==> SkippedLines(respect, enabled, lines)[i] || IsClean(check, lines[i])
    decreases lines
  {
    hide IsClean, LineCompliant, Skipped, Next;
    if lines != [] {
      CompliantMeans(check, lines[0]);
      var next := Next(respect, enabled, lines[0]);
      ComplyGeneral(check, respect, next, lines[1..]);
      var all, rest := SkippedLines(respect, enabled, lines), SkippedLines(respect, next, lines[1..]);
      assert all == [Skipped(respect, enabled, lines[0])] + rest;
      forall i | 0 <= i < |lines[1..]|
        ensures rest[i] == all[i + 1] && lines[1..][i] == lines[i + 1]
      {
      }
      if forall i :: 0 <= i < |lines| ==> all[i] || IsClean(check, lines[i]) {
        forall i | 0 <= i < |lines[1..]|
          ensures rest[i] || IsClean(check, lines[1..][i])
        {
          assert all[i + 1] || IsClean(check, lines[i + 1]);
        }
      }
      if AllComply(check, respect, enabled, lines) {
        forall i | 0 <= i < |lines|
          ensures all[i] || IsClean(check, lines[i])
        {
          if i > 0 {
            assert rest[i - 1] || IsClean(check, lines[1..][i - 1]);
          }
        }
      }
    }
  }

  // ----- what a fixed line keeps

  /** The white space at the end of the line, and nothing else, has been replaced by a line end. */
  ghost predicate OnlyTrailingCut(line: string, fixed: string) {
    exists m :: 0 <= m <= |line| && fixed == line[..m] + "\n" && Blank(line[m..]) && (m > 0 ==> !IsSpace(line[m - 1]))
  }

  lemma WhitespaceKeeps(line: string)
    ensures OnlyTrailingCut(line, LineFixed(Whitespace, line))
  {
    RStripSplits(line);
    var m := |RStrip(line)|;
    assert LineFixed(Whitespace, line) == line[..m] + "\n";
  }

  /** The column at which character `i` is shown, with tab stops every four columns. */
  function ShownAt(s: string, i: nat): nat
    requires i <= |s|
  {
    if i == 0 || s[i - 1] == '\n' || s[i - 1] == '\r' then 0
    else if s[i - 1] == '\t' then (ShownAt(s, i - 1) / 4 + 1) * 4
    else ShownAt(s, i - 1) + 1
  }

  /** `places[i]` is where character `i` of the line has gone: nothing else but tabs is lost, nothing but blanks is
      added, and every character, as well as the end of the line, is shown where it was. */
  ghost predicate Moves(line: string, fixed: string, places: seq<nat>) {
    && |places| == |line|
    && (forall i, j :: 0 <= i < j < |places| ==> places[i] < places[j])
    && (forall i :: 0 <= i < |line| ==>
          places[i] < |fixed| && fixed[places[i]] == (if line[i] == '\t' then ' ' else line[i]))
    && (forall p :: 0 <= p < |fixed| && p !in places ==> fixed[p] == ' ')
    && (forall i :: 0 <= i < |line| ==> ShownAt(fixed, places[i]) == ShownAt(line, i))
    && ShownAt(fixed, |fixed|) == ShownAt(line, |line|)
  }

  lemma NextStop(column: nat)
    ensures column + TAB_SIZE - column % TAB_SIZE == (column / 4 + 1) * 4
  {
  }

  lemma {:induction false} ColumnIsShown(s: string, i: nat)
    requires i <= |s|
    ensures ColumnAfter(s[..i], 0) == ShownAt(s, i)
  {
    if i > 0 {
      ColumnIsShown(s, i - 1);
      ColumnSnoc(s[..i - 1], s[i - 1], 0);
      assert s[..i] == s[..i - 1] + [s[i - 1]];
      NextStop(ShownAt(s, i - 1));
    }
  }

  lemma {:induction false} ColumnSnoc(s: string, c: char, column: nat)
    ensures ColumnAfter(s + [c], column) == Advance(c, ColumnAfter(s, column))
  {
    if s == [] {
      assert [] + [c] == [c] && [c][1..] == [];
    } else {
      assert (s + [c])[1..] == s[1..] + [c];
      ColumnSnoc(s[1..], c, Advance(s[0], column));
    }
  }

  lemma {:induction false} ColumnJoin(s: string, t: string, column: nat)
    ensures ColumnAfter(s + t, column) == ColumnAfter(t, ColumnAfter(s, column))
  {
    if s == [] {
      assert s + t == t;
    } else {
      assert (s + t)[1..] == s[1..] + t;
      ColumnJoin(s[1..], t, Advance(s[0], column));
    }
  }

  lemma {:induction false} BlanksAdvance(n: nat, column: nat)
    ensures ColumnAfter(Spaces(n), column) == column + n
  {
    if n > 0 {
      assert Spaces(n)[1..] == Spaces(n - 1);
      BlanksAdvance(n - 1, column + 1);
    }
  }

  lemma {:induction false} ExpandedColumn(s: string, column: nat)
    ensures ColumnAfter(ExpandFrom(s, column), column) == ColumnAfter(s, column)
  {
    if s != [] {
      var head := if s[0] == '\t' then Spaces(TAB_SIZE - column % TAB_SIZE) else [s[0]];
      var next := Advance(s[0], column);
      ExpandedColumn(s[1..], next);
      ColumnJoin(head, ExpandFrom(s[1..], next), column);
      if s[0] == '\t' {
        BlanksAdvance(TAB_SIZE - column % TAB_SIZE, column);
      } else {
        assert head[1..] == [];
      }
    }
  }

  /** Expanding up to a character, and that character. */
  lemma ExpandSplits(s: string, i: nat)
    requires i < |s|
    ensures
      var a, column := ExpandTabs(s[..i]), ShownAt(s, i);
      var c := if s[i] == '\t' then Spaces(4 - column % 4) else [s[i]];
      ExpandTabs(s[..i + 1]) == a + c && ExpandTabs(s) == a + c + ExpandFrom(s[i + 1..], ColumnAfter(s[..i + 1], 0))
  {
    ColumnIsShown(s, i);
    assert s == s[..i + 1] + s[i + 1..] && s[..i + 1] == s[..i] + [s[i]];
    ExpandJoin(s[..i], [s[i]], 0);
    ExpandJoin(s[..i + 1], s[i + 1..], 0);
    assert [s[i]][1..] == [];
    var column := ShownAt(s, i);
    var c := if s[i] == '\t' then Spaces(4 - column % 4) else [s[i]];
    assert ExpandFrom([s[i]], column) == c + [];
  }

  ghost function Places(line: string): (places: seq<nat>)
    ensures |places| == |line| && forall i :: 0 <= i < |line| ==> places[i] == |ExpandTabs(line[..i])|
  {
    seq(|line|, i requires 0 <= i < |line| => |ExpandTabs(line[..i])|)
  }

  lemma {:induction false} PlacesIncrease(line: string, i: nat, j: nat)
    requires i <= j <= |line|
    ensures |ExpandTabs(line[..j])| >= |ExpandTabs(line[..i])| + (j - i)
    decreases j
  {
    hide ExpandFrom;
    if i < j {
      PlacesIncrease(line, i, j - 1);
      ExpandSplits(line, j - 1);
    }
  }

  lemma PlaceOf(line: string, i: nat)
    requires i < |line|
    ensures
      var fixed, p := ExpandTabs(line), |ExpandTabs(line[..i])|;
      && p < |fixed| && fixed[p] == (if line[i] == '\t' then ' ' else line[i]) && fixed[..p] == ExpandTabs(line[..i])
      && ShownAt(fixed, p) == ShownAt(line, i)
      && |ExpandTabs(line[..i + 1])| <= |fixed|
      && forall q :: p < q < |ExpandTabs(line[..i + 1])| ==> fixed[q] == ' '
  {
    hide ExpandFrom, ShownAt;
    ExpandSplits(line, i);
    var fixed, a := ExpandTabs(line), ExpandTabs(line[..i]);
    var column := ShownAt(line, i);
    var c := if line[i] == '\t' then Spaces(4 - column % 4) else [line[i]];
    assert fixed[..|a|] == a;
    assert forall q :: 0 <= q < |c| ==> fixed[|a| + q] == c[q];
    ExpandedColumn(line[..i], 0);
    ColumnIsShown(line, i);
    ColumnIsShown(fixed, |a|);
  }

  /** Which character a place of the expanded line belongs to. */
  lemma {:induction false} Owner(line: string, n: nat, q: nat) returns (i: nat)
    requires n <= |line| && q < |ExpandTabs(line[..n])|
    ensures i < n && |ExpandTabs(line[..i])| <= q < |ExpandTabs(line[..i + 1])|
    decreases n
  {
    assert line[..0] == [];
    if q >= |ExpandTabs(line[..n - 1])| {
      i := n - 1;
    } else {
      i := Owner(line, n - 1, q);
    }
  }

  lemma TabsKeep(line: string)
    ensures Moves(line, ExpandTabs(line), Places(line))
  {
    hide ExpandTabs, ShownAt;
    var fixed, places := ExpandTabs(line), Places(line);
    forall i, j | 0 <= i < j < |places|
      ensures places[i] < places[j]
    {
      PlacesIncrease(line, i, j);
    }
    forall i | 0 <= i < |line|
      ensures places[i] < |fixed| && fixed[places[i]] == (if line[i] == '\t' then ' ' else line[i])
      ensures ShownAt(fixed, places[i]) == ShownAt(line, i)
    {
      PlaceOf(line, i);
    }
    assert line[..|line|] == line && fixed[..|fixed|] == fixed;
    forall q | 0 <= q < |fixed| && q !in places
      ensures fixed[q] == ' '
    {
      var i := Owner(line, |line|, q);
      assert places[i] in places;
      PlaceOf(line, i);
    }
    EndShown(line);
  }

  lemma EndShown(line: string)
    ensures ShownAt(ExpandTabs(line), |ExpandTabs(line)|) == ShownAt(line, |line|)
  {
    var fixed := ExpandTabs(line);
    assert line[..|line|] == line && fixed[..|fixed|] == fixed;
    ExpandedColumn(line, 0);
    ColumnIsShown(line, |line|);
    ColumnIsShown(fixed, |fixed|);
  }

  /** What the fixer makes of a line that it does not pass over. */
  ghost predicate Keeps(check: Check, line: string, fixed: string) {
    match check
    case Tabs => exists places :: Moves(line, fixed, places)
    case Whitespace => OnlyTrailingCut(line, fixed)
  }

  lemma FixedKeeps(check: Check, line: string)
    ensures Keeps(check, line, LineFixed(check, line))
  {
    hide Moves, OnlyTrailingCut;
    match check {
      case Tabs =>
        TabsKeep(line);
        if '\t' !in line {
          ExpandKeeps(line, 0);
        }
      case Whitespace => WhitespaceKeeps(line);
    }
  }

  // ----- the file

  /** `after` is what a fixing run leaves of `before`: lines passed over and clean lines stay, every other line becomes
      clean and keeps all but the white space that the check is about. */
  ghost predicate Rewritten(check: Check, respect: bool, before: seq<string>, after: seq<string>) {
    && |after| == |before|
    && forall i :: 0 <= i < |before| ==>
         if PassedOver(respect, before, i) || IsClean(check, before[i]) then after[i] == before[i]
         else IsClean(check, after[i]) && Keeps(check, before[i], after[i])
  }

  ghost predicate PassedOver(respect: bool, lines: seq<string>, i: nat)
    requires i < |lines|
  {
    respect && !IsOn(lines[i]) && !IsOff(lines[i]) && SwitchedOff(lines, i)
  }

  lemma {:induction false} FixAllAt(check: Check, respect: bool, enabled: bool, lines: seq<string>, i: nat)
    requires i < |lines|
    ensures FixAll(check, respect, enabled, lines)[i] ==
              if SkippedLines(respect, enabled, lines)[i] || LineCompliant(check, lines[i]) then lines[i]
              else LineFixed(check, lines[i])
    decreases lines
  {
    hide LineCompliant, LineFixed, Skipped, Next;
    if i > 0 {
      var next := Next(respect, enabled, lines[0]);
      FixAllAt(check, respect, next, lines[1..], i - 1);
      assert FixAll(check, respect, enabled, lines)[1..] == FixAll(check, respect, next, lines[1..]);
      assert SkippedLines(respect, enabled, lines)[1..] == SkippedLines(respect, next, lines[1..]);
    }
  }

  lemma FixAllRewrites(check: Check, respect: bool, lines: seq<string>)
    ensures Rewritten(check, respect, lines, FixAll(check, respect, true, lines))
  {
    hide IsClean, Keeps, LineCompliant, LineFixed, IsOn, IsOff, SwitchedOff;
    forall i | 0 <= i < |lines|
      ensures
        var after := FixAll(check, respect, true, lines);
        if PassedOver(respect, lines, i) || IsClean(check, lines[i]) then after[i] == lines[i]
        else IsClean(check, after[i]) && Keeps(check, lines[i], after[i])
    {
      FixAllAt(check, respect, true, lines, i);
      SkippedMeans(respect, lines, i);
      CompliantMeans(check, lines[i]);
      FixedComplies(check, lines[i]);
      CompliantMeans(check, LineFixed(check, lines[i]));
      FixedKeeps(check, lines[i]);
    }
  }

  /** Reading a file as lines loses nothing. */
  lemma {:induction false} JoinRead(s: string)
    ensures Join(ReadLines(s)) == s
    decreases |s|
  {
    if s != [] {
      var line := FirstLine(s);
      JoinRead(s[|line|..]);
      assert ([line] + ReadLines(s[|line|..]))[1..] == ReadLines(s[|line|..]);
    }
  }

  /** One call, of a file's old and new content: it reports whether every line that is not passed over is clean; and
      unless it only checks, or there is nothing to fix, it rewrites the file line by line. */
  method CheckOrFix(file: File, check: Check, fix: bool, verbose: bool, respect: bool) returns (compliant: bool)
    modifies file
    ensures
      var before := ReadLines(old(file.content));
      && Lines(before) && Join(before) == old(file.content)
      && (compliant <==> forall i :: 0 <= i < |before| ==> PassedOver(respect, before, i) || IsClean(check, before[i]))
    ensures !fix || compliant ==> file.content == old(file.content)
    ensures fix ==> Rewritten(check, respect, ReadLines(old(file.content)), ReadLines(file.content))
  {
    hide IsClean, PassedOver, Rewritten, ReadLines, Join, Lines, FixAll, AllComply, SkippedLines;
    ghost var content := file.content;
    FileMeaning(check, respect, content);
    compliant := file.CheckManuallyFile(check, fix, verbose, respect);
  }

  lemma FileMeaning(check: Check, respect: bool, content: string)
    ensures
      var lines := ReadLines(content);
      var fixed := FixAll(check, respect, true, lines);
      && Lines(lines) && Join(lines) == content && ReadLines(Join(fixed)) == fixed
      && (AllComply(check, respect, true, lines) <==>
            forall i :: 0 <= i < |lines| ==> PassedOver(respect, lines, i) || IsClean(check, lines[i]))
      && Rewritten(check, respect, lines, fixed)
      && (AllComply(check, respect, true, lines) ==> Rewritten(check, respect, lines, lines))
  {
    var lines := ReadLines(content);
    ReadLinesAreLines(content);
    JoinRead(content);
    FixAllAreLines(check, respect, true, lines);
    ReadJoin(FixAll(check, respect, true, lines));
    hide IsClean, ReadLines, Join, Lines, FixAll, AllComply, SkippedLines, SwitchedOff, IsOn, IsOff;
    ComplyGeneral(check, respect, true, lines);
    forall i | 0 <= i < |lines|
      ensures SkippedLines(respect, true, lines)[i] <==> PassedOver(respect, lines, i)
    {
      SkippedMeans(respect, lines, i);
    }
    FixAllRewrites(check, respect, lines);
  }
}
