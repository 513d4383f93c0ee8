/**
 * The corpus merger (`App.load_emoji_list`): the recents, most recent first,
 * without repeats and cut to the configured count, then the favorites, then
 * the cached catalog; the three are joined into one text, each non-empty
 * source behind a line break, and the lines of that text are deduplicated
 * keeping first occurrences. The leading line break makes the list start
 * with an empty line.
 */
module Corpus {
  import opened Wrappers
  import opened Text
  import opened Lists

  /** What a source contributes: the file text without surrounding line breaks, or nothing when disabled or missing. */
  function SourceText(enabled: bool, file: Option<string>): string {
    if enabled && file.Some? then Strip(file.value, {'\n'}) else ""
  }

  /** The recents shown: the lines reversed, each kept at its first (most recent) occurrence, then `[0:size]`. */
  function RecentsTop(recents: string, size: int): seq<string> {
    Take(Dedup(Reverse(SplitLines(recents))), size)
  }

  /** `'\n' + part` when the part is not empty, else nothing. */
  function Piece(part: string): string {
    if part == "" then "" else "\n" + part
  }

  /** The text `emoji_list` built from the three sources. */
  function EmojiListText(recents: string, favorites: string, catalog: string, size: int): string {
    Piece(Join(RecentsTop(recents, size))) + Piece(favorites) + Piece(catalog)
  }

  /** `load_emoji_list(aslist=True)`. */
  function Merge(recents: string, favorites: string, catalog: string, size: int): seq<string> {
    Dedup(SplitLines(EmojiListText(recents, favorites, catalog, size)))
  }

  /** `load_emoji_list()`: the list joined by line breaks, leading line breaks removed. */
  function MergeText(recents: string, favorites: string, catalog: string, size: int): string {
    TrimStart(Join(Merge(recents, favorites, catalog, size)), {'\n'})
  }

  /**
   * The recents shown are at most `size` lines of the recents file, without
   * repeats, most recent first; below the cap no distinct line is lost,
   * and a line left out is older than every line shown, which fill the cap.
   */
  lemma RecentsTopSpec(recents: string, size: int)
    ensures var lines, top := SplitLines(recents), RecentsTop(recents, size);
      && (size >= 0 ==> |top| <= size)
      && NoDup(top)
      && (forall x | x in top :: x in lines)
      && (forall i, j | 0 <= i < j < |top| :: LastIndex(lines, top[i]) > LastIndex(lines, top[j]))
      && (0 <= |top| < size ==> forall x | x in lines :: x in top)
      && (size >= 0 ==> forall x | x in lines && x !in top ::
            |top| == size && forall y | y in top :: LastIndex(lines, x) < LastIndex(lines, y))
  {
    var lines, top := SplitLines(recents), RecentsTop(recents, size);
    var d := Dedup(Reverse(lines));
    forall x | x in top ensures x in lines {
      assert x in d;
    }
    forall i, j | 0 <= i < j < |top| ensures LastIndex(lines, top[i]) > LastIndex(lines, top[j]) {
      DedupOrder(Reverse(lines), i, j);
      FirstIndexReverse(lines, top[i]);
      FirstIndexReverse(lines, top[j]);
    }
    if 0 <= |top| < size {
      forall x | x in lines ensures x in top {
        var k :| 0 <= k < |lines| && lines[k] == x;
        assert Reverse(lines)[|lines| - 1 - k] == x;
      }
    }
    if size >= 0 {
      forall x | x in lines && x !in top
        ensures |top| == size && forall y | y in top :: LastIndex(lines, x) < LastIndex(lines, y)
      {
        TakeRecentOlder(lines, size, x);
      }
    }
  }

  /** The contribution of one non-empty source: its pieces. */
  function Contrib(part: string): seq<string> {
    if part == "" then [] else Split(part)
  }

  /** The pieces of a text after its first one. */
  function Tail(text: string): seq<string> {
    if text == "" then [] else Split(text)[1..]
  }

  /** A text that starts with a line break splits into an empty piece and the rest. */
  lemma SplitBreakFirst(text: string)
    requires text != "" && text[0] == '\n'
    ensures Split(text) == [""] + Split(text[1..])
  {
    SplitAppend("", text[1..]);
    assert "" + "\n" + text[1..] == text;
  }

  /** A piece in front of a text that is empty or starts with a line break: its pieces come first. */
  lemma SplitPiece(part: string, rest: string)
    requires rest == "" || rest[0] == '\n'
    ensures Piece(part) + rest == "" || (Piece(part) + rest)[0] == '\n'
    ensures Tail(Piece(part) + rest) == Contrib(part) + Tail(rest)
  {
    if part == "" {
      assert Piece(part) + rest == rest;
    } else if rest == "" {
      assert Piece(part) + rest == "\n" + part;
      PieceLast(part);
    } else {
      assert Piece(part) + rest == "\n" + part + rest;
      PieceBefore(part, rest);
    }
  }

  /** Helper for `SplitPiece`: a last piece. */
  lemma PieceLast(part: string)
    ensures Tail("\n" + part) == Split(part)
  {
    var t := "\n" + part;
    SplitBreakFirst(t);
    assert t[1..] == part;
  }

  /** Helper for `SplitPiece`: a piece followed by a text that starts with a line break. */
  lemma PieceBefore(part: string, rest: string)
    requires rest != "" && rest[0] == '\n'
    ensures Tail("\n" + part + rest) == Split(part) + Tail(rest)
  {
    var t, u := "\n" + part + rest, part + "\n" + rest[1..];
    assert Split(t) == [""] + Split(u) by {
      assert t == "" + "\n" + u;
      SplitAppend("", u);
    }
    assert Split(rest) == [""] + Split(rest[1..]) by {
      assert rest == "" + "\n" + rest[1..];
      SplitAppend("", rest[1..]);
    }
    SplitAppend(part, rest[1..]);
  }

  /** `Join` is empty only for no line or one empty line. */
  lemma JoinEmpty(lines: seq<string>)
    requires Join(lines) == ""
    ensures Without(lines, "") == []
  {
    if |lines| == 1 {
      assert lines == [] + [lines[0]];
    }
  }

  /** Trailing empty pieces do not matter once blanks are removed. */
  lemma WithoutSplitLines(text: string)
    ensures Without(Contrib(text), "") == Without(SplitLines(text), "")
  {
    if text != "" {
      var parts := Split(text);
      if parts[|parts| - 1] == "" {
        assert parts == parts[..|parts| - 1] + [""];
      }
    }
  }

  /** The pieces of the merged text after its leading empty one are the sources' contributions, in order. */
  lemma TextPieces(r: string, favorites: string, catalog: string)
    ensures var text := Piece(r) + Piece(favorites) + Piece(catalog);
      && (text == "" <==> r == "" && favorites == "" && catalog == "")
      && (text != "" ==> text[0] == '\n')
      && (text != "" ==> Split(text) == [""] + (Contrib(r) + (Contrib(favorites) + Contrib(catalog))))
  {
    var c := Piece(catalog);
    var fc := Piece(favorites) + c;
    var text := Piece(r) + fc;
    assert text == Piece(r) + Piece(favorites) + Piece(catalog);
    SplitPiece(catalog, "");
    SplitPiece(favorites, c);
    SplitPiece(r, fc);
    if text != "" {
      SplitBreakFirst(text);
    }
  }

  /** Deduplicating the lines of a text that starts with a line break: a trailing empty piece does not matter. */
  lemma DedupLinesOfBrokenText(text: string)
    requires text != "" && text[0] == '\n'
    ensures Dedup(SplitLines(text)) == Dedup(Split(text))
  {
    SplitBreakFirst(text);
    DedupBlankTail(Split(text));
  }

  /** Helper for `DedupLinesOfBrokenText`: behind a leading empty line, a trailing one vanishes under `Dedup`. */
  lemma DedupBlankTail(parts: seq<string>)
    requires |parts| >= 2 && parts[0] == ""
    ensures Dedup(if parts[|parts| - 1] == "" then parts[..|parts| - 1] else parts) == Dedup(parts)
  {
    if parts[|parts| - 1] == "" {
      var init := parts[..|parts| - 1];
      assert init[0] == "" && parts == init + [""];
      DedupDropLast(init, "");
    }
  }

  /** Once the leading empty line is there, each source may be read by `split` or by `splitlines`. */
  lemma ContribAsLines(recents: string, favorites: string, catalog: string, size: int)
    ensures var top := RecentsTop(recents, size);
      Dedup([""] + (Contrib(Join(top)) + (Contrib(favorites) + Contrib(catalog))))
        == Dedup([""] + top + SplitLines(favorites) + SplitLines(catalog))
  {
    var top := RecentsTop(recents, size);
    var r := Join(top);
    WithoutSplitLines(favorites);
    WithoutSplitLines(catalog);
    if r == "" {
      JoinEmpty(top);
    } else {
      RecentsSingleLines(recents, size);
      SplitJoin(top);
    }
    DedupBlankSources("", Contrib(r), top, Contrib(favorites), SplitLines(favorites), Contrib(catalog), SplitLines(catalog));
  }

  /**
   * Layout of the merged list: empty exactly when every source contributes
   * nothing; otherwise an empty line, then the recents shown, then the
   * favorites lines, then the catalog lines, with every repeat removed.
   */
  lemma MergeLayout(recents: string, favorites: string, catalog: string, size: int)
    ensures var top := RecentsTop(recents, size);
      (Merge(recents, favorites, catalog, size) == [])
        <==> (Join(top) == "" && favorites == "" && catalog == "")
    ensures var top := RecentsTop(recents, size);
      Merge(recents, favorites, catalog, size) != [] ==>
        Merge(recents, favorites, catalog, size) == Dedup([""] + top + SplitLines(favorites) + SplitLines(catalog))
  {
    var top := RecentsTop(recents, size);
    var text := EmojiListText(recents, favorites, catalog, size);
    var lines := [""] + top + SplitLines(favorites) + SplitLines(catalog);
    TextPieces(Join(top), favorites, catalog);
    if text == "" {
      assert SplitLines(text) == [];
    } else {
      assert Merge(recents, favorites, catalog, size) == Dedup(lines) by {
        DedupLinesOfBrokenText(text);
        ContribAsLines(recents, favorites, catalog, size);
      }
      assert lines[0] in lines;
    }
  }

  /** The recents shown hold no line break. */
  lemma RecentsSingleLines(recents: string, size: int)
    ensures |RecentsTop(recents, size)| >= 1 ==> SingleLines(RecentsTop(recents, size))
  {
    var top := RecentsTop(recents, size);
    RecentsTopSpec(recents, size);
    forall i | 0 <= i < |top| ensures '\n' !in top[i] {
      assert top[i] in SplitLines(recents);
    }
  }

  /**
   * Framing of the merged list: no line twice, no line break inside a line,
   * and an empty first line whenever the list is not empty.
   */
  lemma MergeFraming(recents: string, favorites: string, catalog: string, size: int)
    ensures var m := Merge(recents, favorites, catalog, size);
      NoDup(m) && SingleLines(m) && (m != [] ==> m[0] == "")
  {
    var m := Merge(recents, favorites, catalog, size);
    var lines := SplitLines(EmojiListText(recents, favorites, catalog, size));
    forall i | 0 <= i < |m| ensures '\n' !in m[i] {
      assert m[i] in lines;
    }
    if m != [] {
      MergeLayout(recents, favorites, catalog, size);
      DedupHead([""] + RecentsTop(recents, size) + SplitLines(favorites) + SplitLines(catalog));
    }
  }

  /** The string form is the list form without its leading empty line, joined by line breaks. */
  lemma MergeTextLayout(recents: string, favorites: string, catalog: string, size: int)
    ensures var m := Merge(recents, favorites, catalog, size);
      MergeText(recents, favorites, catalog, size) == if m == [] then "" else Join(m[1..])
  {
    MergeFraming(recents, favorites, catalog, size);
    FramedText(Merge(recents, favorites, catalog, size));
  }

  /** Helper for `MergeTextLayout`: the text of distinct single lines headed by an empty line. */
  lemma FramedText(m: seq<string>)
    requires NoDup(m) && SingleLines(m) && (m != [] ==> m[0] == "")
    ensures TrimStart(Join(m), {'\n'}) == if m == [] then "" else Join(m[1..])
  {
    if m != [] {
      var rest := m[1..];
      assert m == [""] + rest;
      forall i | 0 <= i < |rest| ensures rest[i] != "" && '\n' !in rest[i] {
        assert m[i + 1] != m[0] && m[i + 1] in m;
      }
      TrimBlankHead(rest);
    }
  }

  /** Helper for `MergeTextLayout`: leading line breaks go with a leading empty line, and no further. */
  lemma TrimBlankHead(rest: seq<string>)
    requires forall i | 0 <= i < |rest| :: rest[i] != "" && '\n' !in rest[i]
    ensures TrimStart(Join([""] + rest), {'\n'}) == Join(rest)
  {
    var m := [""] + rest;
    if rest == [] {
      assert Join(m) == "" && TrimStart("", {'\n'}) == "";
    } else {
      assert m[1..] == rest;
      var j := Join(rest);
      assert Join(m) == "\n" + j;
      assert j[0] != '\n' by {
        JoinEnds(rest);
        assert j[0] == rest[0][0] && rest[0][0] in rest[0];
      }
      TrimOneBreak(j);
    }
  }

  /** Helper for `TrimBlankHead`: one leading line break goes, and nothing after it. */
  lemma TrimOneBreak(j: string)
    requires j != "" && j[0] != '\n'
    ensures TrimStart("\n" + j, {'\n'}) == j
  {
    assert TrimStart(j, {'\n'}) == j;
    assert ("\n" + j)[1..] == j;
  }

  /** With a positive count, the most recent line of the recents heads the recents shown. */
  lemma RecentsTopHead(recents: string, size: int)
    requires SplitLines(recents) != [] && size > 0
    ensures var lines, top := SplitLines(recents), RecentsTop(recents, size);
      top != [] && top[0] == lines[|lines| - 1]
  {
    DedupHead(Reverse(SplitLines(recents)));
  }

  /** A non-empty most recent line comes right after the leading empty line of the merged list. */
  lemma MergeShowsLatest(recents: string, favorites: string, catalog: string, size: int)
    requires size > 0
    requires SplitLines(recents) != [] && SplitLines(recents)[|SplitLines(recents)| - 1] != ""
    ensures var lines, m := SplitLines(recents), Merge(recents, favorites, catalog, size);
      |m| >= 2 && m[1] == lines[|lines| - 1]
  {
    var top := RecentsTop(recents, size);
    RecentsTopHead(recents, size);
    MergeWithRecents(recents, favorites, catalog, size);
    ShowsSecond("", top, SplitLines(favorites), SplitLines(catalog), Merge(recents, favorites, catalog, size));
  }

  /** Helper for `MergeShowsLatest`: with a non-blank recent line shown, the merged list is the deduplicated sources behind a blank line. */
  lemma MergeWithRecents(recents: string, favorites: string, catalog: string, size: int)
    requires var top := RecentsTop(recents, size); top != [] && top[0] != ""
    ensures Merge(recents, favorites, catalog, size)
      == Dedup([""] + RecentsTop(recents, size) + SplitLines(favorites) + SplitLines(catalog))
  {
    var top := RecentsTop(recents, size);
    assert Join(top) != "" by {
      if |top| > 1 {
        assert Join(top) == top[0] + "\n" + Join(top[1..]);
      }
    }
    MergeLayout(recents, favorites, catalog, size);
  }

  /** Helper for `MergeShowsLatest`: the first shown source line follows the blank line. */
  lemma ShowsSecond<T>(blank: T, top: seq<T>, f: seq<T>, c: seq<T>, m: seq<T>)
    requires top != [] && top[0] != blank && m == Dedup([blank] + top + f + c)
    ensures |m| >= 2 && m[1] == top[0]
  {
    var s := [blank] + top + f + c;
    FrontOfSources(blank, top, f, c);
    DedupSecond(s);
  }

  /** Helper for `ShowsSecond`: the first two elements of the concatenated sources. */
  lemma FrontOfSources<T>(blank: T, top: seq<T>, f: seq<T>, c: seq<T>)
    requires top != []
    ensures var s := [blank] + top + f + c;
      |s| >= 2 && s[0] == blank && s[1] == top[0]
  {
    var s := [blank] + top + f + c;
    assert s == [blank] + (top + (f + c));
  }
}
