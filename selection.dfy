/**
 * The selection rules: how a menu's answer, the first line matching a
 * filter pattern or a random line of the emoji list becomes the selected
 * emoji and description (`App.select_command_emoji`,
 * `App.update_selected_emoji`, `App.select_by_filter`,
 * `App.select_by_random`), and the exit status `main` derives from the
 * outcome.
 */
module Selection {
  import opened Wrappers
  import opened Text
  import opened Lists
  import opened Corpus

  /**
   * What a strategy hands to `update_selected_emoji`: `None`, or a list
   * whose items may themselves be `None` (the `(None, None)` pair of a menu
   * answer without a space).
   */
  datatype Candidate = NoCandidate | Fields(fields: seq<Option<string>>)

  /** The characters the menu answer is stripped of. */
  const MenuTrim: set<char> := {' ', '\n'}

  /** The characters `update_selected_emoji` strips from both halves. */
  const LineBreak: set<char> := {'\n'}

  /**
   * The emoji and description `update_selected_emoji` keeps: present
   * exactly when the candidate has two leading items that are strings;
   * any other candidate raises an error the method catches.
   */
  function Chosen(c: Candidate): (r: Option<(string, string)>)
    ensures r.Some? <==> c.Fields? && |c.fields| >= 2 && c.fields[0].Some? && c.fields[1].Some?
    ensures r.Some? ==> |r.value.0| <= |c.fields[0].value| && |r.value.1| <= |c.fields[1].value|
    ensures r.Some? ==> (r.value.0 == "" || (r.value.0[0] != '\n' && r.value.0[|r.value.0| - 1] != '\n'))
    ensures r.Some? ==> (r.value.1 == "" || (r.value.1[0] != '\n' && r.value.1[|r.value.1| - 1] != '\n'))
  {
    if c.Fields? && |c.fields| >= 2 && c.fields[0].Some? && c.fields[1].Some? then
      Some((Strip(c.fields[0].value, LineBreak), Strip(c.fields[1].value, LineBreak)))
    else
      None
  }

  /** A list of strings as a candidate. */
  function FromParts(parts: seq<string>): (c: Candidate)
    ensures c.Fields? && |c.fields| == |parts|
    ensures forall i | 0 <= i < |parts| :: c.fields[i] == Some(parts[i])
  {
    Fields(seq(|parts|, i requires 0 <= i < |parts| => Some(parts[i])))
  }

  /** A line of the emoji list as a candidate: `line.split(' ', 1)`. */
  function LineCandidate(line: string): (c: Candidate)
    ensures c.Fields? && 1 <= |c.fields| <= 2
  {
    FromParts(SplitOnce(line))
  }

  /** A line without a space selects nothing. */
  lemma LineWithoutSpace(line: string)
    requires ' ' !in line
    ensures Chosen(LineCandidate(line)) == None
  {
  }

  /**
   * A line `e + ' ' + d` whose first word `e` has no space selects `e` and
   * `d`, each without surrounding line breaks.
   */
  lemma LineSelects(e: string, d: string)
    requires ' ' !in e
    ensures Chosen(LineCandidate(e + " " + d)) == Some((Strip(e, LineBreak), Strip(d, LineBreak)))
  {
    SplitOnceJoin(e, d);
  }

  /**
   * The menu's standard output as a candidate: the pair `(None, None)`
   * when it is empty or has no space, else the text before and after the
   * first space, each without surrounding spaces and line breaks.
   */
  function MenuAnswer(stdout: string): (c: Candidate)
    ensures c.Fields? && |c.fields| == 2
    ensures c.fields[0].Some? <==> ' ' in stdout
    ensures c.fields[1].Some? <==> ' ' in stdout
    ensures c.fields[0].Some? ==> ' ' !in c.fields[0].value
    ensures c.fields[1].Some? ==> |c.fields[1].value| < |stdout|
  {
    var parts := SplitOnce(stdout);
    if stdout == "" || |parts| != 2 then
      Fields([None, None])
    else
      Fields([Some(Strip(parts[0], MenuTrim)), Some(Strip(parts[1], MenuTrim))])
  }

  /**
   * A menu answer `e + ' ' + d` whose first word `e` has no space gives
   * `e` and `d`, each without surrounding spaces and line breaks, and
   * selects both as they are.
   */
  lemma MenuSplits(e: string, d: string)
    requires ' ' !in e
    ensures MenuAnswer(e + " " + d) == Fields([Some(Strip(e, MenuTrim)), Some(Strip(d, MenuTrim))])
    ensures Chosen(MenuAnswer(e + " " + d)) == Some((Strip(e, MenuTrim), Strip(d, MenuTrim)))
  {
    SplitOnceJoin(e, d);
    var e', d' := Strip(e, MenuTrim), Strip(d, MenuTrim);
    ChosenFields(e', d');
    StripUntouched(e', LineBreak);
    StripUntouched(d', LineBreak);
  }

  /** Surrounding spaces of the description are dropped from a menu answer: `a` with `"  b "` gives `a` and `b`. */
  lemma MenuDropsSpaces()
    ensures Chosen(MenuAnswer("a" + " " + "  b ")) == Some(("a", "b"))
  {
    MenuSplits("a", "  b ");
    PlainA();
    SpacesAroundB();
  }

  /** `"a".strip(' \n')` is `"a"`. */
  lemma PlainA()
    ensures Strip("a", MenuTrim) == "a"
  {
    var s := "a";
    assert |s| == 1 && s[0] == 'a' && s[0] !in MenuTrim;
    assert TrimStart(s, MenuTrim) == s;
  }

  /** `"  b ".strip(' \n')` is `"b"`. */
  lemma SpacesAroundB()
    ensures Strip("  b ", MenuTrim) == "b"
  {
    var s, t, u := "  b ", "b ", "b";
    assert s[0] in MenuTrim && s[1..][0] in MenuTrim && s[1..][1..] == t;
    assert t[0] !in MenuTrim && t[|t| - 1] in MenuTrim && t[..|t| - 1] == u;
    assert u[0] !in MenuTrim && |u| == 1;
    calc {
      TrimStart(s, MenuTrim);
      TrimStart(s[1..], MenuTrim);
      TrimStart(t, MenuTrim);
      t;
    }
    calc {
      TrimEnd(t, MenuTrim);
      TrimEnd(u, MenuTrim);
      u;
    }
  }

  /**
   * A menu that echoes the line `e + ' ' + d`, with or without a final
   * line break, selects exactly `e` and `d` when neither carries a line
   * break and `d` has no surrounding spaces.
   */
  lemma MenuEcho(e: string, d: string, newline: bool)
    requires ' ' !in e && '\n' !in e && '\n' !in d
    requires d == "" || (d[0] != ' ' && d[|d| - 1] != ' ')
    ensures var out := e + " " + d + (if newline then "\n" else "");
      && MenuAnswer(out) == Fields([Some(e), Some(d)])
      && Chosen(MenuAnswer(out)) == Some((e, d))
  {
    var tail := d + (if newline then "\n" else "");
    var out := e + " " + d + (if newline then "\n" else "");
    assert MenuAnswer(out) == Fields([Some(e), Some(d)]) by {
      assert out == e + " " + tail;
      SplitOnceJoin(e, tail);
      StripNone(e, MenuTrim);
      StripTail(d, newline);
    }
    ChosenPair(e, d);
  }

  /** Two strings without line breaks are kept as they are. */
  lemma ChosenPair(e: string, d: string)
    requires '\n' !in e && '\n' !in d
    ensures Chosen(Fields([Some(e), Some(d)])) == Some((e, d))
  {
    ChosenFields(e, d);
    StripNone(e, LineBreak);
    StripNone(d, LineBreak);
  }

  /** Two strings as a candidate select both, stripped of line breaks. */
  lemma ChosenFields(e: string, d: string)
    ensures Chosen(Fields([Some(e), Some(d)])) == Some((Strip(e, LineBreak), Strip(d, LineBreak)))
  {
    var c := Fields([Some(e), Some(d)]);
    assert c.fields[0] == Some(e) && c.fields[1] == Some(d);
  }

  /** A description with no surrounding spaces survives stripping of spaces and one final line break. */
  lemma StripTail(d: string, newline: bool)
    requires '\n' !in d
    requires d == "" || (d[0] != ' ' && d[|d| - 1] != ' ')
    ensures Strip(d + (if newline then "\n" else ""), MenuTrim) == d
  {
    var tail := d + (if newline then "\n" else "");
    if newline {
      if d == "" {
        assert TrimStart(tail, MenuTrim) == "";
      } else {
        assert TrimStart(tail, MenuTrim) == tail;
        assert tail[..|tail| - 1] == d;
        assert TrimEnd(tail, MenuTrim) == TrimEnd(d, MenuTrim);
        StripUntouched(d, MenuTrim);
      }
    } else {
      assert tail == d;
      StripUntouched(d, MenuTrim);
    }
  }

  /** `pattern in line`, on lowercased copies when case is ignored. */
  predicate Matches(line: string, pattern: string, ignoreCase: bool) {
    if ignoreCase then Contains(Lower(line), Lower(pattern)) else Contains(line, pattern)
  }

  /** The lines that match, in list order: the filter comprehension of `select_by_filter`. */
  function Matching(lines: seq<string>, pattern: string, ignoreCase: bool): (r: seq<string>)
    ensures forall x | x in r :: x in lines && Matches(x, pattern, ignoreCase)
    ensures forall x | x in lines && Matches(x, pattern, ignoreCase) :: x in r
    decreases |lines|
  {
    if lines == [] then []
    else (if Matches(lines[0], pattern, ignoreCase) then [lines[0]] else []) + Matching(lines[1..], pattern, ignoreCase)
  }

  /** The first matching line heads the matches. */
  lemma {:induction false} MatchingFirst(lines: seq<string>, pattern: string, ignoreCase: bool, k: int)
    requires 0 <= k < |lines| && Matches(lines[k], pattern, ignoreCase)
    requires forall j | 0 <= j < k :: !Matches(lines[j], pattern, ignoreCase)
    ensures Matching(lines, pattern, ignoreCase) != [] && Matching(lines, pattern, ignoreCase)[0] == lines[k]
    decreases k
  {
    if k > 0 {
      MatchingFirst(lines[1..], pattern, ignoreCase, k - 1);
    }
  }

  /** What `select_by_filter` hands on: nothing when no line matches, else the first match split at its first space. */
  function FilterCandidate(lines: seq<string>, pattern: string, ignoreCase: bool): (c: Candidate)
    ensures c == NoCandidate <==> forall x | x in lines :: !Matches(x, pattern, ignoreCase)
  {
    var m := Matching(lines, pattern, ignoreCase);
    if m == [] then NoCandidate else assert m[0] in m; LineCandidate(m[0])
  }

  /** The filter selects from the first line that matches, whatever follows it. */
  lemma FilterPicksFirst(lines: seq<string>, pattern: string, ignoreCase: bool, k: int)
    requires 0 <= k < |lines| && Matches(lines[k], pattern, ignoreCase)
    requires forall j | 0 <= j < k :: !Matches(lines[j], pattern, ignoreCase)
    ensures FilterCandidate(lines, pattern, ignoreCase) == LineCandidate(lines[k])
  {
    MatchingFirst(lines, pattern, ignoreCase, k);
  }

  /**
   * An empty pattern matches every line, so on a list that is empty or
   * starts with the empty line (as every merged list does) it selects
   * nothing.
   */
  lemma EmptyPatternSelectsNothing(lines: seq<string>, ignoreCase: bool)
    requires lines == [] || lines[0] == ""
    ensures Chosen(FilterCandidate(lines, "", ignoreCase)) == None
  {
    if lines != [] {
      ContainsEmpty(lines[0]);
      assert Lower("") == "";
      FilterPicksFirst(lines, "", ignoreCase, 0);
      LineWithoutSpace(lines[0]);
    }
  }

  /** The lines `select_by_random` draws from: every line of the list except the empty one. */
  function RandomPool(lines: seq<string>): (pool: set<string>)
    ensures forall x | x in pool :: x in lines && x != ""
    ensures forall x | x in lines && x != "" :: x in pool
  {
    set x | x in lines && x != ""
  }

  /**
   * `select_by_random` on the merged list draws from exactly the non-empty
   * lines among the recents shown, the favorites and the catalog.
   */
  lemma RandomPoolOfMerge(recents: string, favorites: string, catalog: string, size: int)
    ensures RandomPool(Merge(recents, favorites, catalog, size))
      == set x | x in RecentsTop(recents, size) + SplitLines(favorites) + SplitLines(catalog) && x != ""
  {
    var m, top := Merge(recents, favorites, catalog, size), RecentsTop(recents, size);
    var f, c := SplitLines(favorites), SplitLines(catalog);
    MergeLayout(recents, favorites, catalog, size);
    JoinEmptyLines(top);
    assert favorites == "" ==> f == [];
    assert catalog == "" ==> c == [];
    PoolOfMergeShape(top, f, c, m);
  }

  /** Helper for `RandomPoolOfMerge`: the two shapes `MergeLayout` allows. */
  lemma PoolOfMergeShape(top: seq<string>, f: seq<string>, c: seq<string>, m: seq<string>)
    requires (m == [] && (top == [] || top == [""]) && f == [] && c == []) || (m != [] && m == Dedup([""] + top + f + c))
    ensures RandomPool(m) == set x | x in top + f + c && x != ""
  {
    if m == [] {
      PoolOfNothing(top + f + c);
    } else {
      PoolOfSources(top, f, c, m);
    }
  }

  /** Helper for `RandomPoolOfMerge`: the deduplicated sources behind a blank line. */
  lemma PoolOfSources(top: seq<string>, f: seq<string>, c: seq<string>, m: seq<string>)
    requires m == Dedup([""] + top + f + c)
    ensures RandomPool(m) == set x | x in top + f + c && x != ""
  {
    var s := [""] + top + f + c;
    assert s == [""] + (top + f + c);
    forall x | x != "" ensures x in m <==> x in top + f + c {
      assert x in m <==> x in s;
    }
  }

  /** Helper for `RandomPoolOfMerge`: no line or one empty line gives nothing to draw from. */
  lemma PoolOfNothing(lines: seq<string>)
    requires forall x | x in lines :: x == ""
    ensures RandomPool([]) == set x | x in lines && x != ""
  {
  }

  /** The menu strategies `main` dispatches to. */
  datatype Menu = Rofi | Dmenu | Pmenu | Fzf | Filter | Random | NoMenu

  /** How a run ends: a strategy raised a subprocess error, or it finished with this selection and output result. */
  datatype Outcome = StrategyFailed | Finished(selected: Option<string>, outputFailed: bool)

  /** A selection `main` sends to the outputs: a non-empty emoji. */
  predicate Truthy(selected: Option<string>) {
    selected.Some? && selected.value != ""
  }

  /**
   * The exit status of `main`: 1 when the strategy failed, 3 when an
   * output step failed for a selection, 2 when nothing was selected with a
   * menu other than `none`, and 0 otherwise.
   */
  function ExitStatus(menu: Menu, outcome: Outcome): (code: int)
    ensures 0 <= code <= 3
    ensures code == 1 <==> outcome == StrategyFailed
    ensures code == 3 <==> outcome.Finished? && Truthy(outcome.selected) && outcome.outputFailed
    ensures code == 2 <==> outcome.Finished? && !Truthy(outcome.selected) && menu != NoMenu
  {
    match outcome
    case StrategyFailed => 1
    case Finished(selected, outputFailed) =>
      if Truthy(selected) then (if outputFailed then 3 else 0)
      else if menu == NoMenu then 0
      else 2
  }
}
