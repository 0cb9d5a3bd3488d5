/** One line at a time: stripping, tab expansion, format guards, and the tab and whitespace checks. */
module StyleLines {

  const TAB_SIZE := 4

  /** The characters that Python's strip removes. */
  predicate IsSpace(c: char) {
    || c == ' ' || '\t' <= c <= '\r' || '\U{1C}' <= c <= '\U{1F}' || c == '\U{85}' || c == '\U{A0}'
    || c == '\U{1680}' || '\U{2000}' <= c <= '\U{200A}' || c == '\U{2028}' || c == '\U{2029}' || c == '\U{202F}'
    || c == '\U{205F}' || c == '\U{3000}'
  }

  function RStrip(s: string): string {
    if s != [] && IsSpace(s[|s| - 1]) then RStrip(s[..|s| - 1]) else s
  }

  function LStrip(s: string): string {
    if s != [] && IsSpace(s[0]) then LStrip(s[1..]) else s
  }

  function Strip(s: string): string {
    LStrip(RStrip(s))
  }

  function Spaces(n: nat): (s: string)
    ensures |s| == n && forall i :: 0 <= i < n ==> s[i] == ' '
  {
    seq(n, _ => ' ')
  }

  /** Where the next character lands; a line end returns to column 0. */
  function Advance(c: char, column: nat): nat {
    if c == '\n' || c == '\r' then 0 else if c == '\t' then column + TAB_SIZE - column % TAB_SIZE else column + 1
  }

  function ExpandFrom(s: string, column: nat): string {
    if s == [] then []
    else
      (if s[0] == '\t' then Spaces(TAB_SIZE - column % TAB_SIZE) else [s[0]])
      + ExpandFrom(s[1..], Advance(s[0], column))
  }

  function ExpandTabs(s: string): string {
    ExpandFrom(s, 0)
  }

  const GUARD_ON := ["// clang-format on", "# cmake-format: on", "# fmt: on"]
  const GUARD_OFF := ["// clang-format off", "# cmake-format: off", "# fmt: off"]

  predicate IsGuard(line: string) {
    Strip(line) in GUARD_ON || Strip(line) in GUARD_OFF
  }

  datatype Check = Tabs | Whitespace

  predicate LineCompliant(check: Check, line: string) {
    match check
    case Tabs => '\t' !in line
    case Whitespace => RStrip(line) + "\n" == line
  }

  function LineFixed(check: Check, line: string): string {
    match check
    case Tabs => if '\t' in line then ExpandTabs(line) else line
    case Whitespace => RStrip(line) + "\n"
  }

  predicate Blank(s: string) {
    forall i :: 0 <= i < |s| ==> IsSpace(s[i])
  }

  // ----- stripping

  lemma {:induction false} RStripSplits(s: string)
    ensures |RStrip(s)| <= |s| && RStrip(s) == s[..|RStrip(s)|] && Blank(s[|RStrip(s)|..])
    ensures RStrip(s) != [] ==> !IsSpace(RStrip(s)[|RStrip(s)| - 1])
  {
    if s != [] && IsSpace(s[|s| - 1]) {
      var front := s[..|s| - 1];
      RStripSplits(front);
      assert front[..|RStrip(front)|] == s[..|RStrip(front)|];
      forall i | 0 <= i < |s[|RStrip(s)|..]|
        ensures IsSpace(s[|RStrip(s)|..][i])
      {
        if |RStrip(s)| + i < |s| - 1 {
          assert front[|RStrip(s)|..][i] == s[|RStrip(s)| + i];
        }
      }
    }
  }

  lemma {:induction false} LStripSplits(s: string)
    ensures |LStrip(s)| <= |s| && LStrip(s) == s[|s| - |LStrip(s)|..] && Blank(s[..|s| - |LStrip(s)|])
    ensures LStrip(s) != [] ==> !IsSpace(LStrip(s)[0])
  {
    if s != [] && IsSpace(s[0]) {
      LStripSplits(s[1..]);
      var k := |s| - |LStrip(s)|;
      forall i | 0 <= i < k
        ensures IsSpace(s[..k][i])
      {
        if i > 0 {
          assert s[1..][..k - 1][i - 1] == s[i];
        }
      }
    }
  }

  /** A core that is empty or has no space at either end. */
  predicate Trim(s: string) {
    s == [] || (!IsSpace(s[0]) && !IsSpace(s[|s| - 1]))
  }

  lemma {:induction false} RStripDrops(s: string, b: string)
    requires Blank(b)
    ensures RStrip(s + b) == RStrip(s)
    decreases |b|
  {
    if b == [] {
      assert s + b == s;
    } else {
      assert (s + b)[..|s + b| - 1] == s + b[..|b| - 1];
      RStripDrops(s, b[..|b| - 1]);
    }
  }

  lemma {:induction false} LStripDrops(a: string, s: string)
    requires Blank(a)
    ensures LStrip(a + s) == LStrip(s)
    decreases |a|
  {
    if a == [] {
      assert a + s == s;
    } else {
      assert (a + s)[1..] == a[1..] + s;
      LStripDrops(a[1..], s);
    }
  }

  /** Stripping spaces around a core gives the core. */
  lemma StripCore(a: string, core: string, b: string)
    requires Blank(a) && Blank(b) && Trim(core)
    ensures Strip(a + core + b) == core
  {
    RStripDrops(a + core, b);
    if core == [] {
      assert a + core == [] + a;
      RStripDrops([], a);
    } else {
      assert (a + core)[|a + core| - 1] == core[|core| - 1];
      LStripDrops(a, core);
    }
  }

  /** Every line is spaces, its stripped core, and spaces. */
  lemma StripSplits(s: string) returns (a: string, b: string)
    ensures s == a + Strip(s) + b && Blank(a) && Blank(b) && Trim(Strip(s))
  {
    var r := RStrip(s);
    RStripSplits(s);
    LStripSplits(r);
    var core := LStrip(r);
    a, b := r[..|r| - |core|], s[|r|..];
    if core != [] {
      assert core[|core| - 1] == r[|r| - 1];
    }
  }

  // ----- tab expansion

  function ColumnAfter(s: string, column: nat): nat {
    if s == [] then column else ColumnAfter(s[1..], Advance(s[0], column))
  }

  lemma {:induction false} ExpandJoin(s: string, t: string, column: nat)
    ensures ExpandFrom(s + t, column) == ExpandFrom(s, column) + ExpandFrom(t, ColumnAfter(s, column))
  {
    if s == [] {
      assert s + t == t;
    } else {
      assert (s + t)[1..] == s[1..] + t;
      ExpandJoin(s[1..], t, Advance(s[0], column));
    }
  }

  lemma {:induction false} ExpandKeeps(s: string, column: nat)
    requires '\t' !in s
    ensures ExpandFrom(s, column) == s
  {
    if s != [] {
      ExpandKeeps(s[1..], Advance(s[0], column));
    }
  }

  lemma {:induction false} ExpandBlank(s: string, column: nat)
    requires Blank(s)
    ensures Blank(ExpandFrom(s, column))
  {
    if s != [] {
      ExpandBlank(s[1..], Advance(s[0], column));
    }
  }

  /** Expansion removes every tab, adds no line end, and never shortens. */
  lemma {:induction false} ExpandClears(s: string, column: nat)
    ensures '\t' !in ExpandFrom(s, column) && |ExpandFrom(s, column)| >= |s|
    ensures '\n' in ExpandFrom(s, column) ==> '\n' in s
  {
    if s != [] {
      ExpandClears(s[1..], Advance(s[0], column));
      var head := if s[0] == '\t' then Spaces(TAB_SIZE - column % TAB_SIZE) else [s[0]];
      assert '\t' !in head && ('\n' in head ==> s[0] == '\n');
      assert ExpandFrom(s, column) == head + ExpandFrom(s[1..], Advance(s[0], column));
      assert s == [s[0]] + s[1..];
    }
  }

  /** Expanding tabs outside a tab-free core leaves the core as it is. */
  lemma ExpandKeepsCore(s: string)
    requires '\t' !in Strip(s)
    ensures Strip(ExpandTabs(s)) == Strip(s)
  {
    var core := Strip(s);
    var a, b := StripSplits(s);
    ExpandJoin(a + core, b, 0);
    ExpandJoin(a, core, 0);
    ExpandKeeps(core, ColumnAfter(a, 0));
    ExpandBlank(a, 0);
    ExpandBlank(b, ColumnAfter(a + core, 0));
    StripCore(ExpandFrom(a, 0), core, ExpandFrom(b, ColumnAfter(a + core, 0)));
  }

  // ----- fixing a line

  /** A fixed line passes its check. */
  lemma FixedComplies(check: Check, line: string)
    ensures LineCompliant(check, LineFixed(check, line))
  {
    match check {
      case Tabs => ExpandClears(line, 0);
      case Whitespace =>
        RStripSplits(line);
        var r := RStrip(line);
        RStripDrops(r, "\n");
        assert r == [] || !IsSpace(r[|r| - 1]);
    }
  }

  /** Fixing a guard leaves it the guard it was: no guard contains a tab. */
  lemma FixedKeepsGuard(check: Check, line: string)
    requires IsGuard(line)
    ensures Strip(LineFixed(check, line)) == Strip(line)
  {
    match check {
      case Tabs =>
        GuardsHaveNoTab(Strip(line));
        ExpandKeepsCore(line);
      case Whitespace =>
        var a, b := StripSplits(line);
        RStripSplits(line);
        RStripDrops(RStrip(line), "\n");
        var r := RStrip(line);
        assert r == [] || !IsSpace(r[|r| - 1]);
    }
  }

  lemma GuardsHaveNoTab(g: string)
    requires g in GUARD_ON || g in GUARD_OFF
    ensures '\t' !in g
  {
  }
}
