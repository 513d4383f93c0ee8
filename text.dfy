/**
 * The Python string operations the emoji pipeline relies on, on `string`
 * (a sequence of Unicode scalar values): `sub in s`, `strip`, `splitlines`
 * (built on `Split`, the pieces between line breaks), `'\n'.join`,
 * `split(' ', 1)`, `lower` and the UTF-8 size of a text file.
 */
module Text {

  /** `p` is a prefix of `s`. */
  predicate StartsWith(s: string, p: string) {
    |p| <= |s| && s[..|p|] == p
  }

  /** Python's `sub in s`: `sub` occurs as a contiguous slice of `s`. */
  predicate Contains(s: string, sub: string)
    decreases |s|
  {
    StartsWith(s, sub) || (|s| > 0 && Contains(s[1..], sub))
  }

  /** `sub` occurs in `s` starting at index `i`. */
  predicate OccursAt(s: string, sub: string, i: int) {
    0 <= i <= |s| - |sub| && s[i..i + |sub|] == sub
  }

  /** `Contains` is the window test: some slice of `s` of the length of `sub` equals `sub`. */
  lemma {:induction false} ContainsSlice(s: string, sub: string)
    ensures Contains(s, sub) <==> exists i :: OccursAt(s, sub, i)
    decreases |s|
  {
    if StartsWith(s, sub) {
      assert OccursAt(s, sub, 0);
    } else if |s| > 0 {
      ContainsSlice(s[1..], sub);
      if Contains(s[1..], sub) {
        var i :| OccursAt(s[1..], sub, i);
        assert OccursAt(s, sub, i + 1);
      }
      if exists i :: OccursAt(s, sub, i) {
        var i :| OccursAt(s, sub, i);
        assert i != 0;
        assert OccursAt(s[1..], sub, i - 1);
      }
    }
  }

  /** The empty string occurs in every string. */
  lemma ContainsEmpty(s: string)
    ensures Contains(s, "")
  {
  }

  /** The characters Python's `str.isspace` accepts, which `str.strip()` removes. */
  const Whitespace: set<char> := {
    '\t', '\n', '\U{B}', '\U{C}', '\r', '\U{1C}', '\U{1D}', '\U{1E}', '\U{1F}', ' ',
    '\U{85}', '\U{A0}', '\U{1680}',
    '\U{2000}', '\U{2001}', '\U{2002}', '\U{2003}', '\U{2004}', '\U{2005}',
    '\U{2006}', '\U{2007}', '\U{2008}', '\U{2009}', '\U{200A}',
    '\U{2028}', '\U{2029}', '\U{202F}', '\U{205F}', '\U{3000}'
  }

  /** Python's `s.lstrip(chars)`: drops the longest prefix made of `cs`. */
  function TrimStart(s: string, cs: set<char>): (r: string)
    ensures |r| <= |s| && r == s[|s| - |r|..]
    ensures r == [] || r[0] !in cs
    ensures forall i | 0 <= i < |s| - |r| :: s[i] in cs
    decreases |s|
  {
    if |s| > 0 && s[0] in cs then TrimStart(s[1..], cs) else s
  }

  /** Python's `s.rstrip(chars)`: drops the longest suffix made of `cs`. */
  function TrimEnd(s: string, cs: set<char>): (r: string)
    ensures |r| <= |s| && r == s[..|r|]
    ensures r == [] || r[|r| - 1] !in cs
    ensures forall i | |r| <= i < |s| :: s[i] in cs
    decreases |s|
  {
    if |s| > 0 && s[|s| - 1] in cs then TrimEnd(s[..|s| - 1], cs) else s
  }

  /** Python's `s.strip(chars)`: drops the longest prefix and suffix made of `cs`. */
  function Strip(s: string, cs: set<char>): (r: string)
    ensures |r| <= |s|
    ensures r == [] || (r[0] !in cs && r[|r| - 1] !in cs)
    ensures forall c | c in r :: c in s
    ensures exists k :: DropsEnds(s, cs, k, r)
  {
    var t := TrimStart(s, cs);
    var r := TrimEnd(t, cs);
    StripShape(s, t, r, cs);
    r
  }

  /** The trimmed ends of a string: a suffix whose first character is kept, then a prefix of it whose last one is. */
  lemma StripShape(s: string, t: string, r: string, cs: set<char>)
    requires |t| <= |s| && t == s[|s| - |t|..] && (t == [] || t[0] !in cs)
    requires |r| <= |t| && r == t[..|r|] && (r == [] || r[|r| - 1] !in cs)
    requires forall i | 0 <= i < |s| - |t| :: s[i] in cs
    requires forall i | |r| <= i < |t| :: t[i] in cs
    ensures |r| <= |s|
    ensures r == [] || (r[0] !in cs && r[|r| - 1] !in cs)
    ensures forall c | c in r :: c in s
    ensures exists k :: DropsEnds(s, cs, k, r)
  {
    if r != [] {
      assert r[0] == t[0];
    }
    SliceMembers(s, t, |s| - |t|);
    SliceMembers(t, r, 0);
    var k := |s| - |t|;
    assert r == s[k..k + |r|];
    forall i | k + |r| <= i < |s| ensures s[i] in cs {
      assert s[i] == t[i - k];
    }
    assert DropsEnds(s, cs, k, r);
  }

  /** `r` is `s` without its first `k` characters and without those after `k + |r|`, all of which are in `cs`. */
  predicate DropsEnds(s: string, cs: set<char>, k: int, r: string) {
    && 0 <= k <= |s| - |r| && r == s[k..k + |r|]
    && (forall i | 0 <= i < k :: s[i] in cs)
    && (forall i | k + |r| <= i < |s| :: s[i] in cs)
  }

  /** The characters of a slice are characters of the whole. */
  lemma SliceMembers(s: string, t: string, k: int)
    requires 0 <= k <= k + |t| <= |s| && t == s[k..k + |t|]
    ensures forall c | c in t :: c in s
  {
    forall c | c in t ensures c in s {
      var i :| 0 <= i < |t| && t[i] == c;
      assert s[k + i] == c;
    }
  }

  /** A stripped string neither begins nor ends with a stripped character, and holds a character only if the original does. */
  lemma StripDropsEnds(s: string, cs: set<char>, c: char)
    requires c in cs
    ensures var r := Strip(s, cs);
      && (r == "" || (r[0] != c && r[|r| - 1] != c))
      && (c !in s ==> c !in r)
  {
  }

  /** A string whose ends are not in `cs` is left alone by `Strip`. */
  lemma StripUntouched(s: string, cs: set<char>)
    requires s == [] || (s[0] !in cs && s[|s| - 1] !in cs)
    ensures Strip(s, cs) == s
  {
  }

  /** A string with no character of `cs` in it is left alone by `Strip`. */
  lemma StripNone(s: string, cs: set<char>)
    requires forall i | 0 <= i < |s| :: s[i] !in cs
    ensures Strip(s, cs) == s
  {
    StripUntouched(s, cs);
  }

  /** Python's `'\n'.join(lines)`. */
  function Join(lines: seq<string>): string {
    if |lines| == 0 then ""
    else if |lines| == 1 then lines[0]
    else lines[0] + "\n" + Join(lines[1..])
  }

  /** A join ends with the last character of its last line, when that line is not empty. */
  lemma {:induction false} JoinLastChar(lines: seq<string>)
    requires lines != [] && lines[|lines| - 1] != ""
    ensures Join(lines) != "" && Join(lines)[|Join(lines)| - 1] == lines[|lines| - 1][|lines[|lines| - 1]| - 1]
    decreases |lines|
  {
    if |lines| > 1 {
      JoinLastChar(lines[1..]);
    }
  }

  /** Exactly no lines, or one empty line, join to the empty text. */
  lemma JoinEmptyLines(lines: seq<string>)
    ensures Join(lines) == "" <==> lines == [] || lines == [""]
  {
    if |lines| >= 2 {
      assert |Join(lines)| == |lines[0]| + 1 + |Join(lines[1..])|;
    } else if |lines| == 1 {
      assert lines == [lines[0]];
    }
  }

  /** No line holds a line break. */
  predicate SingleLines(lines: seq<string>) {
    forall i | 0 <= i < |lines| :: '\n' !in lines[i]
  }

  /** The pieces between line breaks, at least one: the helper `SplitLines` is built on (it behaves as `s.split('\n')`). */
  function Split(s: string): (r: seq<string>)
    ensures |r| >= 1 && SingleLines(r)
    decreases |s|
  {
    if |s| == 0 then [""]
    else
      var rest := Split(s[1..]);
      if s[0] == '\n' then [""] + rest
      else [[s[0]] + rest[0]] + rest[1..]
  }

  /** Joining the pieces of a split gives the string back. */
  lemma {:induction false} JoinSplit(s: string)
    ensures Join(Split(s)) == s
    decreases |s|
  {
    if |s| > 0 {
      var rest := Split(s[1..]);
      JoinSplit(s[1..]);
      if s[0] != '\n' {
        var r := Split(s);
        assert r[1..] == rest[1..];
        if |rest| == 1 {
          assert Join(r) == [s[0]] + rest[0];
        } else {
          assert Join(rest) == rest[0] + "\n" + Join(rest[1..]);
          assert Join(r) == [s[0]] + rest[0] + "\n" + Join(rest[1..]);
        }
      } else {
        assert Join([""] + rest) == "" + "\n" + Join(rest);
      }
    }
  }

  /** A string without line breaks splits into itself. */
  lemma {:induction false} SplitSingle(s: string)
    requires '\n' !in s
    ensures Split(s) == [s]
    decreases |s|
  {
    if |s| > 0 {
      SplitSingle(s[1..]);
      assert [s[0]] + s[1..] == s;
    }
  }

  /** Splitting distributes over a line break. */
  lemma {:induction false} SplitAppend(a: string, b: string)
    ensures Split(a + "\n" + b) == Split(a) + Split(b)
    decreases |a|
  {
    if |a| == 0 {
      var s := a + "\n" + b;
      assert s[1..] == b;
      SplitHead(s);
    } else {
      SplitAppend(a[1..], b);
      assert a == [a[0]] + a[1..];
      SplitAppendStep(a[0], a[1..], b);
    }
  }

  /** Helper for `SplitAppend`: the step from `t` to `[c] + t`. */
  lemma SplitAppendStep(c: char, t: string, b: string)
    requires Split(t + "\n" + b) == Split(t) + Split(b)
    ensures Split([c] + t + "\n" + b) == Split([c] + t) + Split(b)
  {
    var u := t + "\n" + b;
    assert [c] + t + "\n" + b == [c] + u;
    SplitCons(c, u);
    SplitCons(c, t);
    if c == '\n' {
      EmptyFirstLine(t, b);
    } else {
      FirstLineJoins([c], Split(t), Split(b));
    }
  }

  /** Helper for `SplitAppendStep`: extending the first line commutes with appending lines. */
  lemma FirstLineJoins(c: string, ra: seq<string>, rb: seq<string>)
    requires |ra| >= 1
    ensures [c + (ra + rb)[0]] + (ra + rb)[1..] == [c + ra[0]] + ra[1..] + rb
  {
    assert (ra + rb)[0] == ra[0] && (ra + rb)[1..] == ra[1..] + rb;
  }

  /** Helper for `SplitAppendStep`: an empty first line in front of appended lines. */
  lemma EmptyFirstLine(t: string, b: string)
    requires Split(t + "\n" + b) == Split(t) + Split(b)
    ensures [""] + Split(t + "\n" + b) == [""] + Split(t) + Split(b)
  {
  }

  /** `Split` on a string with a known first character. */
  lemma SplitCons(c: char, t: string)
    ensures Split([c] + t) == if c == '\n' then [""] + Split(t) else [[c] + Split(t)[0]] + Split(t)[1..]
  {
    assert ([c] + t)[1..] == t;
  }

  /** One step of `Split`. */
  lemma SplitHead(s: string)
    requires |s| > 0
    ensures Split(s) == if s[0] == '\n' then [""] + Split(s[1..]) else [[s[0]] + Split(s[1..])[0]] + Split(s[1..])[1..]
  {
  }

  /** Splitting a join of single lines gives the lines back. */
  lemma {:induction false} SplitJoin(lines: seq<string>)
    requires |lines| >= 1 && SingleLines(lines)
    ensures Split(Join(lines)) == lines
    decreases |lines|
  {
    SplitSingle(lines[0]);
    if |lines| > 1 {
      SplitJoin(lines[1..]);
      SplitAppend(lines[0], Join(lines[1..]));
      assert [lines[0]] + lines[1..] == lines;
    }
  }

  /** A join of non-empty lines begins with the first line's first character and ends with the last line's last. */
  lemma {:induction false} JoinEnds(lines: seq<string>)
    requires lines != [] && forall i | 0 <= i < |lines| :: lines[i] != ""
    ensures Join(lines) != ""
    ensures Join(lines)[0] == lines[0][0]
    ensures Join(lines)[|Join(lines)| - 1] == lines[|lines| - 1][|lines[|lines| - 1]| - 1]
    decreases |lines|
  {
    if |lines| > 1 {
      JoinEnds(lines[1..]);
    }
  }

  /** Python's `s.splitlines()`, with `'\n'` as the only line boundary. */
  function SplitLines(s: string): (r: seq<string>)
    ensures SingleLines(r)
  {
    if s == "" then []
    else
      var parts := Split(s);
      if parts[|parts| - 1] == "" then parts[..|parts| - 1] else parts
  }

  /** A non-empty string not ending in a line break ends in a non-empty piece. */
  lemma {:induction false} SplitLastNonEmpty(s: string)
    requires s != "" && s[|s| - 1] != '\n'
    ensures Split(s)[|Split(s)| - 1] != ""
    decreases |s|
  {
    if |s| > 1 {
      SplitLastNonEmpty(s[1..]);
    }
  }

  /** A text that does not end in a line break has a non-empty last line. */
  lemma SplitLinesLastNonEmpty(s: string)
    requires s != "" && s[|s| - 1] != '\n'
    ensures SplitLines(s) == Split(s)
    ensures SplitLines(s)[|SplitLines(s)| - 1] != ""
  {
    SplitLastNonEmpty(s);
  }

  /** `splitlines` of a join of single lines whose last line is not blank gives the lines back. */
  lemma SplitLinesJoin(lines: seq<string>)
    requires SingleLines(lines)
    requires lines == [] || lines[|lines| - 1] != ""
    ensures SplitLines(Join(lines)) == lines
  {
    if lines != [] {
      SplitJoin(lines);
    }
  }

  /** `splitlines` loses at most one final line break: joining its lines gives the text back. */
  lemma SplitLinesInverse(s: string)
    ensures Join(SplitLines(s)) + (if s != "" && s[|s| - 1] == '\n' then "\n" else "") == s
  {
    if s != "" {
      var parts := Split(s);
      JoinSplit(s);
      if parts[|parts| - 1] == "" {
        var init := parts[..|parts| - 1];
        assert init + [""] == parts;
        JoinSnoc(init, "");
      } else if s[|s| - 1] == '\n' {
        SplitLastPieceAfterBreak(s);
      }
    }
  }

  /** A text ending in a line break and a single non-empty line keeps that line last once line breaks around it are stripped. */
  lemma StripKeepsLastLine(s: string, line: string)
    requires line != "" && '\n' !in line
    ensures var lines := SplitLines(Strip(s + "\n" + line, {'\n'}));
      lines != [] && lines[|lines| - 1] == line
  {
    var r := Strip(s + "\n" + line, {'\n'});
    StripEndsWithLine(s, line);
    SplitLinesEndingWith(r, line);
  }

  /** Stripping line breaks around `s + '\n' + line` leaves `line`, or a text ending in a break and `line`. */
  lemma StripEndsWithLine(s: string, line: string)
    requires line != "" && '\n' !in line
    ensures var r := Strip(s + "\n" + line, {'\n'});
      |r| >= |line| && r[|r| - |line|..] == line && (|r| > |line| ==> r[|r| - |line| - 1] == '\n')
  {
    var u := s + "\n" + line;
    var r := TrimStart(u, {'\n'});
    assert u[|u| - |line|] == line[0] && line[0] !in {'\n'};
    assert |r| >= |line|;
    assert r[|r| - 1] == line[|line| - 1] && line[|line| - 1] !in {'\n'};
    var t := TrimEnd(r, {'\n'});
    assert |t| == |r|;
    assert t == r;
    assert r[|r| - |line|..] == u[|u| - |line|..] == line;
    if |r| > |line| {
      assert r[|r| - |line| - 1] == u[|u| - |line| - 1];
    }
  }

  /** A text ending in a break and a single non-empty line, or that line alone, has it as its last line. */
  lemma SplitLinesEndingWith(r: string, line: string)
    requires line != "" && '\n' !in line
    requires |r| >= |line| && r[|r| - |line|..] == line && (|r| > |line| ==> r[|r| - |line| - 1] == '\n')
    ensures SplitLines(r) != [] && SplitLines(r)[|SplitLines(r)| - 1] == line
  {
    SplitSingle(line);
    if |r| == |line| {
      assert r == line;
    } else {
      var x := r[..|r| - |line| - 1];
      assert r == x + "\n" + line;
      SplitAppend(x, line);
    }
  }

  /** Joining a sequence with one more line adds a break and that line. */
  lemma {:induction false} JoinSnoc(lines: seq<string>, last: string)
    requires |lines| >= 1
    ensures Join(lines + [last]) == Join(lines) + "\n" + last
    decreases |lines|
  {
    if |lines| > 1 {
      JoinSnoc(lines[1..], last);
      assert (lines + [last])[1..] == lines[1..] + [last];
    }
  }

  /** The last piece of a string ending in a line break is empty. */
  lemma {:induction false} SplitLastPieceAfterBreak(s: string)
    requires s != "" && s[|s| - 1] == '\n'
    ensures Split(s)[|Split(s)| - 1] == ""
    decreases |s|
  {
    if |s| > 1 {
      SplitLastPieceAfterBreak(s[1..]);
    }
  }

  /** The result of Python's `s.split(' ', 1)`. */
  function SplitOnce(s: string): (r: seq<string>)
    ensures |r| == 1 <==> ' ' !in s
    ensures |r| == 1 ==> r == [s]
    ensures |r| == 2 ==> ' ' !in r[0] && r[0] + " " + r[1] == s
    ensures |r| == 1 || |r| == 2
    decreases |s|
  {
    if |s| == 0 then [s]
    else if s[0] == ' ' then ["", s[1..]]
    else
      var rest := SplitOnce(s[1..]);
      if |rest| == 1 then [s]
      else [[s[0]] + rest[0], rest[1]]
  }

  /** `split(' ', 1)` is undone by putting the space back: a first field without spaces is recovered. */
  lemma {:induction false} SplitOnceJoin(first: string, rest: string)
    requires ' ' !in first
    ensures SplitOnce(first + " " + rest) == [first, rest]
    decreases |first|
  {
    var s := first + " " + rest;
    if |first| == 0 {
      assert s[1..] == rest;
    } else {
      assert s[1..] == first[1..] + " " + rest;
      SplitOnceJoin(first[1..], rest);
      assert [first[0]] + first[1..] == first;
    }
  }

  /** The ASCII lower-case of a character. */
  function LowerChar(c: char): char {
    if 'A' <= c <= 'Z' then (c as int + 32) as char else c
  }

  /** Python's `s.lower()`, on ASCII letters only. */
  function Lower(s: string): (r: string)
    ensures |r| == |s|
    ensures forall i | 0 <= i < |r| :: !('A' <= r[i] <= 'Z')
    ensures forall i | 0 <= i < |s| && 'A' <= s[i] <= 'Z' :: r[i] as int == s[i] as int + 32
    ensures forall i | 0 <= i < |s| && !('A' <= s[i] <= 'Z') :: r[i] == s[i]
  {
    seq(|s|, i requires 0 <= i < |s| => LowerChar(s[i]))
  }

  /** The number of bytes UTF-8 uses for one character. */
  function Utf8Width(c: char): nat {
    if c as int < 0x80 then 1
    else if c as int < 0x800 then 2
    else if c as int < 0x1_0000 then 3
    else 4
  }

  /** The size in bytes of a text written as UTF-8 (a file's `st_size`). */
  function Utf8Size(s: string): (r: nat)
    ensures |s| <= r <= 4 * |s|
    ensures (forall i | 0 <= i < |s| :: s[i] as int < 0x80) ==> r == |s|
    decreases |s|
  {
    if s == [] then 0 else Utf8Width(s[0]) + Utf8Size(s[1..])
  }
}
