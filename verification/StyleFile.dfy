/** Checking and fixing a whole file, with format guards, and what a second run finds. */
module StyleFile {
  import opened StyleLines

  // ----- a file as lines

  function FirstLine(s: string): (line: string)
    requires s != []
    ensures 0 < |line| <= |s| && line == s[..|line|]
  {
    if s[0] == '\n' || |s| == 1 then [s[0]] else [s[0]] + FirstLine(s[1..])
  }

  /** Lines keep their line end; the last one may have none. */
  function ReadLines(s: string): seq<string> {
    if s == [] then [] else [FirstLine(s)] + ReadLines(s[|FirstLine(s)|..])
  }

  function Join(lines: seq<string>): string {
    if lines == [] then [] else lines[0] + Join(lines[1..])
  }

  /** A line with its line end at the end and nowhere else. */
  predicate Ended(line: string) {
    line != [] && line[|line| - 1] == '\n' && '\n' !in line[..|line| - 1]
  }

  /** Every line is ended, except that the last may lack its line end. */
  predicate Lines(lines: seq<string>) {
    lines != [] ==> (Ended(lines[0]) || (|lines| == 1 && lines[0] != [] && '\n' !in lines[0])) && Lines(lines[1..])
  }

  lemma {:induction false} FirstLineEnds(s: string)
    requires s != []
    ensures Ended(FirstLine(s)) || (FirstLine(s) == s && '\n' !in s)
  {
    if s[0] == '\n' {
      assert FirstLine(s)[..0] == [];
    } else if |s| > 1 {
      FirstLineEnds(s[1..]);
      var rest := FirstLine(s[1..]);
      assert s == [s[0]] + s[1..] && FirstLine(s) == [s[0]] + rest;
      if Ended(rest) {
        assert FirstLine(s)[..|rest|] == [s[0]] + rest[..|rest| - 1];
      }
    }
  }

  lemma {:induction false} ReadLinesAreLines(s: string)
    ensures Lines(ReadLines(s))
    decreases |s|
  {
    if s != [] {
      FirstLineEnds(s);
      ReadLinesAreLines(s[|FirstLine(s)|..]);
    }
  }

  lemma {:induction false} FirstLineIs(line: string, rest: string)
    requires Ended(line) || (line != [] && '\n' !in line && rest == [])
    ensures line + rest != [] && FirstLine(line + rest) == line
    decreases |line|
  {
    var s := line + rest;
    if |line| > 1 {
      assert s[1..] == line[1..] + rest && s[0] == line[0];
      if Ended(line) {
        assert line[1..][..|line| - 2] == line[..|line| - 1][1..];
        assert line[0] == line[..|line| - 1][0];
      }
      FirstLineIs(line[1..], rest);
    }
  }

  /** Writing lines and reading them back yields the same lines. */
  lemma {:induction false} ReadJoin(lines: seq<string>)
    requires Lines(lines)
    ensures ReadLines(Join(lines)) == lines
  {
    if lines != [] {
      ReadJoin(lines[1..]);
      var rest := Join(lines[1..]);
      FirstLineIs(lines[0], rest);
      assert (lines[0] + rest)[|lines[0]|..] == rest;
    }
  }

  // ----- one pass over the lines

  /** Whether formatting is enabled after the guard check on `line`. */
  predicate EnabledAfter(enabled: bool, line: string) {
    if Strip(line) in GUARD_ON then true else if Strip(line) in GUARD_OFF then false else enabled
  }

  /** The line is passed over: it lies in a disabled region and is no guard. */
  predicate Skipped(respect: bool, enabled: bool, line: string) {
    respect && !EnabledAfter(enabled, line) && !IsGuard(line)
  }

  predicate Next(respect: bool, enabled: bool, line: string) {
    if respect then EnabledAfter(enabled, line) else enabled
  }

  function FixOne(check: Check, respect: bool, enabled: bool, line: string): string {
    if Skipped(respect, enabled, line) || LineCompliant(check, line) then line else LineFixed(check, line)
  }

  function FixAll(check: Check, respect: bool, enabled: bool, lines: seq<string>): (fixed: seq<string>)
    ensures |fixed| == |lines|
    decreases lines
  {
    if lines == [] then []
    else
      [FixOne(check, respect, enabled, lines[0])] + FixAll(check, respect, Next(respect, enabled, lines[0]), lines[1..])
  }

  predicate AllComply(check: Check, respect: bool, enabled: bool, lines: seq<string>)
    decreases lines
  {
    lines != [] ==>
      && (Skipped(respect, enabled, lines[0]) || LineCompliant(check, lines[0]))
      && AllComply(check, respect, Next(respect, enabled, lines[0]), lines[1..])
  }

  /** The lines that are passed over. */
  function SkippedLines(respect: bool, enabled: bool, lines: seq<string>): (skipped: seq<bool>)
    ensures |skipped| == |lines|
    decreases lines
  {
    if lines == [] then []
    else [Skipped(respect, enabled, lines[0])] + SkippedLines(respect, Next(respect, enabled, lines[0]), lines[1..])
  }

  class File {
    var content: string

    /** check_manually_file. In check mode without verbose output the loop stops at the first bad line. */
    method CheckManuallyFile(check: Check, fix: bool, verbose: bool, respect: bool) returns (compliant: bool)
      modifies this
      ensures compliant <==> AllComply(check, respect, true, ReadLines(old(content)))
      ensures content ==
                if fix && !compliant then Join(FixAll(check, respect, true, ReadLines(old(content)))) else old(content)
    {
      hide SoFar, FixAll, AllComply, LineCompliant, LineFixed, Strip, ReadLines, Join;
      var lines := ReadLines(content);
      var fileLines := new string[|lines|](i requires 0 <= i < |lines| => lines[i]);
      compliant := true;
      var enabled := true;
      var i := 0;
      ghost var done: seq<string> := [];
      assert lines[0..] == lines;
      NothingYet(check, respect, lines);
      while i < fileLines.Length
        invariant i <= fileLines.Length == |lines| && content == old(content)
        invariant fileLines[..i] == done && fileLines[i..] == lines[i..]
        invariant SoFar(check, respect, lines, i, enabled, compliant, done)
      {
        var line := fileLines[i];
        assert line == lines[i] by { assert fileLines[i..][0] == lines[i..][0]; }
        OneMore(check, respect, lines, i, enabled, compliant, done);
        done := done + [FixOne(check, respect, enabled, line)];
        if respect {
          if Strip(line) in GUARD_ON {
            enabled := true;
          } else if Strip(line) in GUARD_OFF {
            enabled := false;
          }
        }
        if respect && !enabled && Strip(line) !in GUARD_ON + GUARD_OFF {
          i := i + 1;
          continue;
        }
        if !LineCompliant(check, line) {
          compliant := false;
          fileLines[i] := LineFixed(check, line);
          if !fix && !verbose {
            AtEnd(check, respect, lines, i + 1, enabled, compliant, done);
            return;
          }
        }
        i := i + 1;
      }
      AtEnd(check, respect, lines, i, enabled, compliant, done);
      assert fileLines[..] == fileLines[..i];
      if fix && !compliant {
        content := Join(fileLines[..]);
      }
    }
  }

  /** After the lines below `i`, which have become `done`. */
  ghost predicate SoFar(check: Check, respect: bool, lines: seq<string>, i: nat, enabled: bool, compliant: bool,
                        done: seq<string>) {
    && i <= |lines| && (!respect ==> enabled)
    && done + FixAll(check, respect, enabled, lines[i..]) == FixAll(check, respect, true, lines)
    && (AllComply(check, respect, true, lines) <==> compliant && AllComply(check, respect, enabled, lines[i..]))
  }

  lemma NothingYet(check: Check, respect: bool, lines: seq<string>)
    ensures SoFar(check, respect, lines, 0, true, true, [])
  {
    hide FixAll, AllComply;
    assert lines[0..] == lines && [] + FixAll(check, respect, true, lines) == FixAll(check, respect, true, lines);
  }

  lemma OneMore(check: Check, respect: bool, lines: seq<string>, i: nat, enabled: bool, compliant: bool,
                done: seq<string>)
    requires SoFar(check, respect, lines, i, enabled, compliant, done) && i < |lines|
    ensures SoFar(check, respect, lines, i + 1, Next(respect, enabled, lines[i]),
                  compliant && (Skipped(respect, enabled, lines[i]) || LineCompliant(check, lines[i])),
                  done + [FixOne(check, respect, enabled, lines[i])])
  {
    hide FixOne, Skipped, LineCompliant, EnabledAfter;
    assert lines[i..][0] == lines[i] && lines[i..][1..] == lines[i + 1..];
    var rest := FixAll(check, respect, Next(respect, enabled, lines[i]), lines[i + 1..]);
    assert done + ([FixOne(check, respect, enabled, lines[i])] + rest) ==
           done + [FixOne(check, respect, enabled, lines[i])] + rest;
  }

  lemma AtEnd(check: Check, respect: bool, lines: seq<string>, i: nat, enabled: bool, compliant: bool,
              done: seq<string>)
    requires SoFar(check, respect, lines, i, enabled, compliant, done)
    ensures !compliant ==> !AllComply(check, respect, true, lines)
    ensures i == |lines| ==>
              done == FixAll(check, respect, true, lines) && (AllComply(check, respect, true, lines) <==> compliant)
  {
    if i == |lines| {
      assert lines[i..] == [] && done + [] == done;
    }
  }

  // ----- the second pass

  /** Fixing keeps each line a line. */
  lemma FixedIsLine(check: Check, line: string, last: bool)
    requires Ended(line) || (last && line != [] && '\n' !in line)
    ensures Ended(LineFixed(check, line)) || (last && LineFixed(check, line) != [] && '\n' !in LineFixed(check, line))
  {
    match check {
      case Tabs =>
        if Ended(line) {
          var body := line[..|line| - 1];
          assert line == body + "\n";
          ExpandJoin(body, "\n", 0);
          ExpandClears(body, 0);
          var e := ExpandFrom(body, 0);
          assert ExpandFrom("\n", ColumnAfter(body, 0)) == "\n";
          assert ExpandTabs(line) == e + "\n" && (e + "\n")[..|e|] == e;
        } else {
          ExpandClears(line, 0);
        }
      case Whitespace =>
        var r := RStrip(line);
        RStripSplits(line);
        if Ended(line) {
          assert r == RStrip(line[..|line| - 1]);
          RStripSplits(line[..|line| - 1]);
        }
        assert '\n' !in r;
        assert (r + "\n")[..|r|] == r;
    }
  }

  lemma {:induction false} FixAllAreLines(check: Check, respect: bool, enabled: bool, lines: seq<string>)
    requires Lines(lines)
    ensures Lines(FixAll(check, respect, enabled, lines))
    decreases lines
  {
    if lines != [] {
      FixAllAreLines(check, respect, Next(respect, enabled, lines[0]), lines[1..]);
      FixedIsLine(check, lines[0], |lines| == 1);
      var rest := FixAll(check, respect, Next(respect, enabled, lines[0]), lines[1..]);
      assert FixAll(check, respect, enabled, lines)[1..] == rest;
    }
  }

  /** The second pass is enabled on no line where the first was not: guards survive fixing, and a line that becomes a
      guard was itself in an enabled region. */
  lemma EnabledShrinks(check: Check, respect: bool, first: bool, second: bool, line: string)
    requires second ==> first
    ensures Next(respect, second, FixOne(check, respect, first, line)) ==> Next(respect, first, line)
    ensures Skipped(respect, first, line) ==>
              FixOne(check, respect, first, line) == line && Skipped(respect, second, line)
    ensures Skipped(respect, second, FixOne(check, respect, first, line)) ||
            LineCompliant(check, FixOne(check, respect, first, line))
  {
    if IsGuard(line) {
      FixedKeepsGuard(check, line);
    }
    FixedComplies(check, line);
  }

  lemma {:induction false} SecondPassComplies(check: Check, respect: bool, first: bool, second: bool,
                                              lines: seq<string>)
    requires second ==> first
    ensures AllComply(check, respect, second, FixAll(check, respect, first, lines))
    decreases lines
  {
    hide FixOne, Skipped, Next, LineCompliant;
    if lines != [] {
      EnabledShrinks(check, respect, first, second, lines[0]);
      var f := FixOne(check, respect, first, lines[0]);
      SecondPassComplies(check, respect, Next(respect, first, lines[0]), Next(respect, second, f), lines[1..]);
      var fixed := FixAll(check, respect, first, lines);
      assert fixed[0] == f && fixed[1..] == FixAll(check, respect, Next(respect, first, lines[0]), lines[1..]);
    }
  }

  /** A line passed over is kept as it is and passed over again. */
  lemma {:induction false} SkippedStaysSkipped(check: Check, respect: bool, first: bool, second: bool,
                                               lines: seq<string>, i: nat)
    requires (second ==> first) && i < |lines| && SkippedLines(respect, first, lines)[i]
    ensures
      var fixed := FixAll(check, respect, first, lines);
      fixed[i] == lines[i] && SkippedLines(respect, second, fixed)[i]
    decreases lines
  {
    hide FixOne, Skipped, Next, LineCompliant;
    EnabledShrinks(check, respect, first, second, lines[0]);
    var f := FixOne(check, respect, first, lines[0]);
    if i > 0 {
      SkippedStaysSkipped(check, respect, Next(respect, first, lines[0]), Next(respect, second, f), lines[1..], i - 1);
      assert FixAll(check, respect, first, lines)[1..] ==
             FixAll(check, respect, Next(respect, first, lines[0]), lines[1..]);
    }
  }

  /** What a fixing run writes, a checking run accepts; and lines in a format-off region are neither changed nor looked
      at. */
  lemma FixThenCheck(check: Check, respect: bool, content: string)
    ensures
      var lines := ReadLines(content);
      var fixed := FixAll(check, respect, true, lines);
      && ReadLines(Join(fixed)) == fixed
      && AllComply(check, respect, true, ReadLines(Join(fixed)))
      && forall i :: 0 <= i < |lines| && SkippedLines(respect, true, lines)[i] ==>
           fixed[i] == lines[i] && SkippedLines(respect, true, fixed)[i]
  {
    var lines := ReadLines(content);
    ReadLinesAreLines(content);
    FixAllAreLines(check, respect, true, lines);
    ReadJoin(FixAll(check, respect, true, lines));
    SecondPassComplies(check, respect, true, true, lines);
    forall i | 0 <= i < |lines| && SkippedLines(respect, true, lines)[i]
      ensures
        var fixed := FixAll(check, respect, true, lines);
        fixed[i] == lines[i] && SkippedLines(respect, true, fixed)[i]
    {
      SkippedStaysSkipped(check, respect, true, true, lines, i);
    }
  }

  /** A fixing run followed by a checking run, with any setting of the other flags. */
  method FixAndRecheck(file: File, check: Check, respect: bool, verbose: bool) returns (compliant: bool)
    modifies file
    ensures compliant
  {
    var first := file.CheckManuallyFile(check, true, verbose, respect);
    FixThenCheck(check, respect, old(file.content));
    compliant := file.CheckManuallyFile(check, false, verbose, respect);
  }

  // ----- when both passes look at the same lines

  /** Fixing makes the first line, in an enabled region, a guard that disables, and leaves no guard after it. */
  predicate Disables(check: Check, enabled: bool, lines: seq<string>) {
    && |lines| > 1 && enabled && !IsGuard(lines[0])
    && Strip(FixOne(check, true, true, lines[0])) in GUARD_OFF && !IsGuard(FixOne(check, true, true, lines[1]))
  }

  predicate NeverDisables(check: Check, enabled: bool, lines: seq<string>)
    decreases lines
  {
    lines != [] ==> !Disables(check, enabled, lines) && NeverDisables(check, Next(true, enabled, lines[0]), lines[1..])
  }

  lemma {:induction false} PassesAgree(check: Check, first: bool, second: bool, lines: seq<string>)
    requires second ==> first
    ensures SkippedLines(true, second, FixAll(check, true, first, lines)) == SkippedLines(true, first, lines) <==>
              && (second == first || lines == [] || IsGuard(FixOne(check, true, first, lines[0])))
              && NeverDisables(check, first, lines)
    decreases lines
  {
    hide FixOne, Skipped, Next, IsGuard, Strip, Disables;
    if lines != [] {
      var f := FixOne(check, true, first, lines[0]);
      var first', second' := Next(true, first, lines[0]), Next(true, second, f);
      EnabledShrinks(check, true, first, second, lines[0]);
      PassesAgree(check, first', second', lines[1..]);
      OneLine(check, first, second, lines);
      var fixed, rest := FixAll(check, true, first, lines), FixAll(check, true, first', lines[1..]);
      assert fixed[0] == f && fixed[1..] == rest;
      SplitsHead(Skipped(true, second, f), SkippedLines(true, second', rest),
                 Skipped(true, first, lines[0]), SkippedLines(true, first', lines[1..]));
    }
  }

  lemma SplitsHead(x: bool, s: seq<bool>, y: bool, t: seq<bool>)
    ensures [x] + s == [y] + t <==> x == y && s == t
  {
    assert ([x] + s)[0] == x && ([x] + s)[1..] == s && ([y] + t)[0] == y && ([y] + t)[1..] == t;
  }

  /** What one line does to both passes. */
  lemma OneLine(check: Check, first: bool, second: bool, lines: seq<string>)
    requires (second ==> first) && lines != []
    ensures
      var f := FixOne(check, true, first, lines[0]);
      var first', second' := Next(true, first, lines[0]), Next(true, second, f);
      && (Skipped(true, second, f) == Skipped(true, first, lines[0]) <==> second == first || IsGuard(f))
      && (second == first || IsGuard(f) ==>
            (Disables(check, first, lines) <==>
               !(second' == first' || lines[1..] == [] || IsGuard(FixOne(check, true, first', lines[1])))))
  {
    hide Strip, LineCompliant, LineFixed;
    if IsGuard(lines[0]) {
      FixedKeepsGuard(check, lines[0]);
    }
  }

  /** A checking run after a fixing run passes over the same lines exactly when guards are ignored or no line of an
      enabled region becomes a guard that disables with no guard right after it. */
  lemma SameLinesSkipped(check: Check, respect: bool, content: string)
    ensures
      var lines := ReadLines(content);
      SkippedLines(respect, true, ReadLines(Join(FixAll(check, respect, true, lines)))) ==
        SkippedLines(respect, true, lines) <==>
        !respect || NeverDisables(check, true, lines)
  {
    hide NeverDisables;
    var lines := ReadLines(content);
    ReadLinesAreLines(content);
    FixAllAreLines(check, respect, true, lines);
    ReadJoin(FixAll(check, respect, true, lines));
    if respect {
      PassesAgree(check, true, true, lines);
    } else {
      NothingSkipped(FixAll(check, respect, true, lines));
      NothingSkipped(lines);
    }
  }

  lemma {:induction false} NothingSkipped(lines: seq<string>)
    ensures SkippedLines(false, true, lines) == seq(|lines|, _ => false)
  {
    if lines != [] {
      NothingSkipped(lines[1..]);
    }
  }

  /** Tab expansion can turn a line into a guard that was none: the second pass skips the line after it, the first did
      not. */
  lemma ExpansionDisables(next: string)
    requires !IsGuard(next) && !IsGuard(FixOne(Tabs, true, true, next))
    ensures
      var lines: seq<string> := [" //" + "\t" + "clang-format off\n", next];
      SkippedLines(true, true, lines) == [false, false] &&
        SkippedLines(true, true, FixAll(Tabs, true, true, lines)) == [false, true]
  {
    hide ExpandFrom, Strip, IsSpace, ColumnAfter, LineFixed;
    var line: string := " //" + "\t" + "clang-format off\n";
    TabInside();
    BecomesGuard();
    TwoLines(Tabs, true, true, line, next);
    TwoLines(Tabs, true, true, FixOne(Tabs, true, true, line), FixOne(Tabs, true, true, next));
  }

  lemma TwoLines(check: Check, respect: bool, enabled: bool, x: string, y: string)
    ensures SkippedLines(respect, enabled, [x, y]) ==
            [Skipped(respect, enabled, x), Skipped(respect, Next(respect, enabled, x), y)]
    ensures FixAll(check, respect, enabled, [x, y]) ==
            [FixOne(check, respect, enabled, x), FixOne(check, respect, Next(respect, enabled, x), y)]
  {
    hide Skipped, Next, FixOne;
    assert [x, y][1..] == [y] && [y][1..] == [];
  }

  lemma BecomesGuard()
    ensures
      var line: string := " //" + "\t" + "clang-format off\n";
      Strip(FixOne(Tabs, true, true, line)) in GUARD_OFF && IsGuard(FixOne(Tabs, true, true, line))
  {
    hide ExpandFrom, Strip, IsSpace, ColumnAfter;
    TabAtThree("clang-format off\n");
    GuardSpaced();
    var line: string := " //" + "\t" + "clang-format off\n";
    assert line[3] == '\t';
  }

  lemma TabInside()
    ensures var line: string := " //" + "\t" + "clang-format off\n"; !IsGuard(line)
  {
    var core: string := "//\tclang-format off";
    var line: string := " //" + "\t" + "clang-format off\n";
    assert line == " " + core + "\n";
    StripCore(" ", core, "\n");
    assert core[2] == '\t';
    if core in GUARD_ON || core in GUARD_OFF {
      GuardsHaveNoTab(core);
    }
  }

  lemma GuardSpaced()
    ensures Strip(" //" + " " + "clang-format off\n") in GUARD_OFF
  {
    var core: string := "// clang-format off";
    assert " //" + " " + "clang-format off\n" == " " + core + "\n";
    StripCore(" ", core, "\n");
  }

  lemma TabAtThree(rest: string)
    requires '\t' !in rest
    ensures ExpandTabs(" //" + "\t" + rest) == " //" + " " + rest
  {
    hide ExpandFrom, ColumnAfter;
    var a: string := " //";
    assert a + "\t" + rest == a + ("\t" + rest);
    ExpandJoin(a, "\t" + rest, 0);
    ExpandKeeps(a, 0);
    ThreeColumns();
    ExpandJoin("\t", rest, 3);
    ExpandKeeps(rest, ColumnAfter("\t", 3));
  }

  lemma ThreeColumns()
    ensures ColumnAfter(" //", 0) == 3 && ExpandFrom("\t", 3) == " "
  {
    var a: string := " //";
    assert a[1..] == "//" && a[1..][1..] == "/" && a[1..][1..][1..] == "";
    assert "\t"[1..] == "" && Spaces(1) == " ";
  }
}
