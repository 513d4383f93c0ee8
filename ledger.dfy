/**
 * The recency ledger (`App.append_recents`, `App.trim_recents_file`): each
 * selection is appended as one line; before appending to an existing file,
 * a file larger than 4096 bytes is compacted to its 50 most recent distinct
 * lines, oldest first.
 */
module Ledger {
  import opened Wrappers
  import opened Text
  import opened Lists
  import opened Corpus

  /** A recents file above this many bytes is compacted. */
  const MaxByteSize: nat := 4096

  /** A compacted recents file keeps at most this many lines. */
  const MaxListEntries: nat := 50

  /** Compaction on lines: reverse, keep each line's most recent occurrence, keep 50, reverse back. */
  function CompactLines(lines: seq<string>): seq<string> {
    Reverse(Take(Dedup(Reverse(lines)), MaxListEntries))
  }

  /** The text `trim_recents_file` writes back for a file with this content. */
  function Compacted(content: string): string {
    Join(CompactLines(SplitLines(Strip(content, {'\n'}))))
  }

  /** The content of the recents file after `trim_recents_file`. */
  function Trimmed(content: string): string {
    if Utf8Size(content) > MaxByteSize then Compacted(content) else content
  }

  /** The content of the recents file after appending `line`: trimmed first, then a line break, when it existed. */
  function Appended(file: Option<string>, line: string): string {
    match file
    case None => line
    case Some(content) => Trimmed(content) + "\n" + line
  }

  /** The recents file after `append_recents` with this selection. */
  function Record(enabled: bool, file: Option<string>, emoji: string, desc: string): Option<string> {
    if enabled && emoji != "" && desc != "" then Some(Appended(file, emoji + " " + desc)) else file
  }

  /** Compaction keeps at most 50 lines, none twice, all from the file. */
  lemma CompactBounded(lines: seq<string>)
    ensures var r := CompactLines(lines);
      |r| <= MaxListEntries && NoDup(r) && forall x | x in r :: x in lines
  {
    var d := Dedup(Reverse(lines));
    var t := Take(d, MaxListEntries);
    ReverseNoDup(t);
    forall x | x in Reverse(t) ensures x in lines {
      ReverseMembers(t, x);
      assert x in d;
      ReverseMembers(lines, x);
    }
  }

  /** Compaction keeps the lines in the order of their most recent occurrences, oldest first. */
  lemma CompactChronological(lines: seq<string>, i: int, j: int)
    requires 0 <= i < j < |CompactLines(lines)|
    ensures CompactLines(lines)[i] in lines && CompactLines(lines)[j] in lines
    ensures LastIndex(lines, CompactLines(lines)[i]) < LastIndex(lines, CompactLines(lines)[j])
  {
    KeptChronological(lines, MaxListEntries, i, j);
  }

  /** Helper for `CompactChronological`, for any element type and count. */
  lemma KeptChronological<T>(s: seq<T>, n: int, i: int, j: int)
    requires 0 <= i < j < |Reverse(Take(Dedup(Reverse(s)), n))|
    ensures var r := Reverse(Take(Dedup(Reverse(s)), n));
      r[i] in s && r[j] in s && LastIndex(s, r[i]) < LastIndex(s, r[j])
  {
    var d := Dedup(Reverse(s));
    var k := |Take(d, n)|;
    var a, b := k - 1 - j, k - 1 - i;
    ReverseTakeIndex(d, n, i, b);
    ReverseTakeIndex(d, n, j, a);
    DedupChronological(s, a, b);
  }

  /** Helper for `KeptChronological`: element `i` of the reversed prefix is element `a` of the list. */
  lemma ReverseTakeIndex<T>(d: seq<T>, n: int, i: int, a: int)
    requires 0 <= i < |Reverse(Take(d, n))| && a == |Take(d, n)| - 1 - i
    ensures 0 <= a < |d| && Reverse(Take(d, n))[i] == d[a]
  {
  }

  /** A line is dropped only when 50 distinct lines, each more recent than it, are kept. */
  lemma CompactKeepsMostRecent(lines: seq<string>, x: string)
    requires x in lines && x !in CompactLines(lines)
    ensures |CompactLines(lines)| == MaxListEntries
    ensures forall y | y in CompactLines(lines) :: y in lines && LastIndex(lines, x) < LastIndex(lines, y)
  {
    KeptMostRecent(lines, MaxListEntries, x);
  }

  /** Helper for `CompactKeepsMostRecent`, for any element type and count. */
  lemma KeptMostRecent<T>(s: seq<T>, n: nat, x: T)
    requires x in s && x !in Reverse(Take(Dedup(Reverse(s)), n))
    ensures var r := Reverse(Take(Dedup(Reverse(s)), n));
      |r| == n && forall y | y in r :: y in s && LastIndex(s, x) < LastIndex(s, y)
  {
    var t := Take(Dedup(Reverse(s)), n);
    ReverseMembers(t, x);
    TakeRecentOlder(s, n, x);
    forall y | y in Reverse(t) ensures y in s && LastIndex(s, x) < LastIndex(s, y) {
      ReverseMembers(t, y);
    }
  }

  /** Compacting a compacted list changes nothing. */
  lemma CompactIdempotent(lines: seq<string>)
    ensures CompactLines(CompactLines(lines)) == CompactLines(lines)
  {
    var t := Take(Dedup(Reverse(lines)), MaxListEntries);
    ReverseReverse(t);
    DedupNoDup(t);
  }

  /** The last line of a compacted list is the last line of the file. */
  lemma CompactLast(lines: seq<string>)
    requires lines != []
    ensures var r := CompactLines(lines); r != [] && r[|r| - 1] == lines[|lines| - 1]
  {
    DedupHead(Reverse(lines));
  }

  /** The lines of a file read without surrounding line breaks end with a non-empty line. */
  lemma StrippedLastLine(content: string)
    ensures var lines := SplitLines(Strip(content, {'\n'}));
      lines == [] || lines[|lines| - 1] != ""
  {
    var s := Strip(content, {'\n'});
    if s != "" {
      assert s[|s| - 1] != '\n';
      SplitLinesLastNonEmpty(s);
    }
  }

  /** The compacted file, read back line by line, is the compacted list: at most 50 lines, none twice. */
  lemma CompactedReadsBack(content: string)
    ensures SplitLines(Compacted(content)) == CompactLines(SplitLines(Strip(content, {'\n'})))
    ensures |SplitLines(Compacted(content))| <= MaxListEntries && NoDup(SplitLines(Compacted(content)))
  {
    var lines := SplitLines(Strip(content, {'\n'}));
    var r := CompactLines(lines);
    CompactBounded(lines);
    forall i | 0 <= i < |r| ensures '\n' !in r[i] {
      assert r[i] in lines;
    }
    StrippedLastLine(content);
    if lines != [] {
      CompactLast(lines);
    }
    SplitLinesJoin(r);
  }

  /**
   * Trimming twice is trimming once, unless the compacted file begins with
   * a blank line (a later read strips it).
   */
  lemma TrimIdempotent(content: string)
    requires Compacted(content) == "" || Compacted(content)[0] != '\n'
    ensures Trimmed(Trimmed(content)) == Trimmed(content)
  {
    if Utf8Size(content) > MaxByteSize {
      var t := Compacted(content);
      var lines := SplitLines(Strip(content, {'\n'}));
      var r := CompactLines(lines);
      assert t == Join(r);
      assert SplitLines(t) == r by {
        CompactedReadsBack(content);
      }
      assert Strip(t, {'\n'}) == t by {
        if t != "" {
          StrippedLastLine(content);
          CompactLast(lines);
          JoinLastChar(r);
          StripUntouched(t, {'\n'});
        } else {
          StripNone(t, {'\n'});
        }
      }
      assert CompactLines(r) == r by {
        CompactIdempotent(lines);
      }
      assert Compacted(t) == t;
    }
  }

  /** The appended line is the last line of the recents file as `load_emoji_list` reads it. */
  lemma AppendedLastLine(file: Option<string>, line: string)
    requires line != "" && '\n' !in line
    ensures var lines := SplitLines(Strip(Appended(file, line), {'\n'}));
      lines != [] && lines[|lines| - 1] == line
  {
    var r := Strip(Appended(file, line), {'\n'});
    if file.None? {
      assert r == line by {
        StripNone(line, {'\n'});
      }
      assert line[|line| - |line|..] == line;
      SplitLinesEndingWith(r, line);
    } else {
      var t := Trimmed(file.value);
      assert r == Strip(t + "\n" + line, {'\n'});
      StripKeepsLastLine(t, line);
    }
  }

  /**
   * After a selection is recorded, the next merged list shows it first,
   * right after the leading empty line, whatever the favorites and the
   * catalog hold.
   */
  lemma RecordedShownFirst(file: Option<string>, emoji: string, desc: string, favorites: string, catalog: string, size: int)
    requires emoji != "" && desc != "" && '\n' !in emoji && '\n' !in desc && size > 0
    ensures var f := Record(true, file, emoji, desc);
      && f.Some?
      && var m := Merge(SourceText(true, f), favorites, catalog, size);
      |m| >= 2 && m[1] == emoji + " " + desc
  {
    var line := emoji + " " + desc;
    assert line != "" && '\n' !in line;
    var f := Record(true, file, emoji, desc);
    assert f == Some(Appended(file, line));
    var text := SourceText(true, f);
    assert text == Strip(Appended(file, line), {'\n'});
    AppendedLastLine(file, line);
    MergeShowsLatest(text, favorites, catalog, size);
  }
}
