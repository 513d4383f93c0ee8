/**
 * The application object of emojicherrypick (`App`): its settings, the
 * selected emoji and description, and the three files it reads and writes
 * (recents, favorites and the catalog cache), each `None` while the file
 * does not exist. The methods follow the source's steps and are proved
 * against the functions of Catalog, Corpus, Ledger and Selection.
 */
module Emojicherrypick {
  import opened Wrappers
  import opened Text
  import opened Lists
  import opened Catalog
  import opened Corpus
  import opened Ledger
  import opened Selection

  /**
   * `App.__init__`: the settings and the existing files are stored, no
   * emoji is selected, and the catalog cache is built from the database
   * entries when it is enabled and missing.
   */
  method NewApp(norecents: bool, nofavorites: bool, noemojis: bool, recentsSize: int,
                ignoreSkin: bool, ignoreCase: bool, pattern: string,
                recents: Option<string>, favorites: Option<string>, cache: Option<string>,
                entries: seq<Entry>) returns (app: App)
    ensures fresh(app)
    ensures app.norecents == norecents && app.nofavorites == nofavorites && app.noemojis == noemojis
    ensures app.recentsSize == recentsSize && app.ignoreSkin == ignoreSkin
    ensures app.ignoreCase == ignoreCase && app.pattern == pattern
    ensures app.selectedEmoji == None && app.selectedDesc == None
    ensures app.recents == recents && app.favorites == favorites
    ensures app.cache == if !noemojis && cache.None? then Some(CatalogText(entries, ignoreSkin)) else cache
  {
    app := new App(norecents, nofavorites, noemojis, recentsSize, ignoreSkin, ignoreCase, pattern, recents, favorites, cache);
    app.FilterDbSource(entries);
  }

  /** Reading a favorites or catalog file in `load_emoji_list`: its text without surrounding line breaks, or nothing. */
  method ReadSource(enabled: bool, file: Option<string>) returns (text: string)
    ensures text == SourceText(enabled, file)
    ensures text != "" ==> enabled && file.Some? && text[0] != '\n' && text[|text| - 1] != '\n'
  {
    text := "";
    if enabled && file.Some? {
      text := Strip(file.value, LineBreak);
      StripDropsEnds(file.value, LineBreak, '\n');
    }
  }

  /** One step of building `emoji_list`: a non-empty part is appended behind a line break. */
  method AddPiece(acc: string, part: string) returns (r: string)
    ensures r == acc + Piece(part)
  {
    r := acc;
    if part != "" {
      r := r + "\n" + part;
    }
    PieceAfter(acc, part);
  }

  /** What an external menu program does with the list it is given: it is not found, or it exits with this standard output. */
  datatype MenuRun = NotFound | Exited(stdout: string)

  /** The errors that leave a selection strategy: a menu program that is not found (its `FileNotFoundError` becomes a subprocess error), and `random_list[0]` on an empty list. */
  datatype Failure = SubprocessError | IndexError

  /** The menus that run an external program. */
  predicate RunsProgram(menu: Menu) {
    menu == Rofi || menu == Dmenu || menu == Pmenu || menu == Fzf
  }

  class App {
    const norecents: bool
    const nofavorites: bool
    const noemojis: bool
    const recentsSize: int
    const ignoreSkin: bool
    const ignoreCase: bool
    const pattern: string

    var selectedEmoji: Option<string>
    var selectedDesc: Option<string>

    /** Content of the recents file. */
    var recents: Option<string>
    /** Content of the favorites file. */
    var favorites: Option<string>
    /** Content of the catalog cache file. */
    var cache: Option<string>

    /** The recents text `load_emoji_list` reads. */
    function RecentsSource(): string
      reads this
    {
      SourceText(!norecents, recents)
    }

    /** The favorites text `load_emoji_list` reads. */
    function FavoritesSource(): string
      reads this
    {
      SourceText(!nofavorites, favorites)
    }

    /** The catalog text `load_emoji_list` reads. */
    function CatalogSource(): string
      reads this
    {
      SourceText(!noemojis, cache)
    }

    /** The merged emoji list in the current state. */
    function EmojiList(): seq<string>
      reads this
    {
      Merge(RecentsSource(), FavoritesSource(), CatalogSource(), recentsSize)
    }

    /** The text handed to a menu program: lowercased for dmenu and pmenu when case is ignored. */
    function MenuInput(menu: Menu): string
      reads this
    {
      var text := MergeText(RecentsSource(), FavoritesSource(), CatalogSource(), recentsSize);
      if ignoreCase && (menu == Dmenu || menu == Pmenu) then Lower(text) else text
    }

    /**
     * The effect of `update_selected_emoji` on candidate `c`: both fields
     * cleared and the recents file untouched when `c` has no usable second
     * half; otherwise both halves kept and the pair recorded in the recents
     * file. The result is the selected emoji.
     */
    twostate predicate Applied(c: Candidate, new r: Option<string>)
      reads this
    {
      && r == selectedEmoji
      && match Chosen(c)
         case None => selectedEmoji == None && selectedDesc == None && recents == old(recents)
         case Some(pair) =>
           && selectedEmoji == Some(pair.0) && selectedDesc == Some(pair.1)
           && recents == Record(!norecents, old(recents), pair.0, pair.1)
    }

    /** Settings and the existing files; no emoji is selected yet. */
    constructor (norecents: bool, nofavorites: bool, noemojis: bool, recentsSize: int,
                 ignoreSkin: bool, ignoreCase: bool, pattern: string,
                 recents: Option<string>, favorites: Option<string>, cache: Option<string>)
      ensures this.norecents == norecents && this.nofavorites == nofavorites && this.noemojis == noemojis
      ensures this.recentsSize == recentsSize && this.ignoreSkin == ignoreSkin
      ensures this.ignoreCase == ignoreCase && this.pattern == pattern
      ensures selectedEmoji == None && selectedDesc == None
      ensures this.recents == recents && this.favorites == favorites && this.cache == cache
    {
      this.norecents := norecents;
      this.nofavorites := nofavorites;
      this.noemojis := noemojis;
      this.recentsSize := recentsSize;
      this.ignoreSkin := ignoreSkin;
      this.ignoreCase := ignoreCase;
      this.pattern := pattern;
      this.selectedEmoji := None;
      this.selectedDesc := None;
      this.recents := recents;
      this.favorites := favorites;
      this.cache := cache;
    }

    /**
     * `filter_db_source`: when the cache is enabled and missing, writes the
     * catalog text: face lines, finger lines, other lines, each group in
     * stable `order` order, without a trailing line break. An existing
     * cache is left alone.
     */
    method FilterDbSource(entries: seq<Entry>)
      modifies this`cache
      ensures !noemojis && old(cache).None? ==> cache == Some(CatalogText(entries, ignoreSkin))
      ensures noemojis || old(cache).Some? ==> cache == old(cache)
    {
      if !noemojis && cache.None? {
        var sorted := SortByOrder(entries);
        var face, finger, other := "", "", "";
        for i := 0 to |sorted|
          invariant face == Block(Renders(Pick(sorted[..i], Face, ignoreSkin)))
          invariant finger == Block(Renders(Pick(sorted[..i], Finger, ignoreSkin)))
          invariant other == Block(Renders(Pick(sorted[..i], Other, ignoreSkin)))
        {
          var e := sorted[i];
          BlockStep(sorted, i, Face, ignoreSkin);
          BlockStep(sorted, i, Finger, ignoreSkin);
          BlockStep(sorted, i, Other, ignoreSkin);
          if Kept(e, ignoreSkin) {
            var line := Render(e);
            if Contains(e.name, "face") || Contains(e.category, "face") {
              face := face + line + "\n";
            } else if Contains(e.category, "finger") {
              finger := finger + line + "\n";
            } else {
              other := other + line + "\n";
            }
          }
        }
        assert sorted[..|sorted|] == sorted;
        CacheText(entries, ignoreSkin);
        cache := Some(Strip(face + finger + other, LineBreak));
      }
    }

    /**
     * `load_emoji_list(aslist=True)`: the merged list, which has no line
     * twice and starts with an empty line unless it is empty.
     */
    method LoadEmojiList() returns (elist: seq<string>)
      ensures elist == EmojiList()
      ensures NoDup(elist) && (elist != [] ==> elist[0] == "")
    {
      var recentsList := LoadRecentsTop();
      var favoritesList := ReadSource(!nofavorites, favorites);
      var filteredList := ReadSource(!noemojis, cache);
      var emojiList := AddPiece("", recentsList);
      assert emojiList == Piece(recentsList);
      emojiList := AddPiece(emojiList, favoritesList);
      emojiList := AddPiece(emojiList, filteredList);
      assert emojiList == EmojiListText(RecentsSource(), FavoritesSource(), CatalogSource(), recentsSize);
      elist := Dedup(SplitLines(emojiList));
      MergeFraming(RecentsSource(), FavoritesSource(), CatalogSource(), recentsSize);
    }

    /** The recents part of `load_emoji_list`: the most recent distinct lines, at most `recents_size`, most recent first. */
    method LoadRecentsTop() returns (recentsList: string)
      ensures recentsList == Join(RecentsTop(RecentsSource(), recentsSize))
    {
      recentsList := "";
      if !norecents && recents.Some? {
        recentsList := Strip(recents.value, LineBreak);
        var recentsTop := SplitLines(recentsList);
        recentsTop := Reverse(recentsTop);
        recentsTop := Dedup(recentsTop);
        recentsTop := Take(recentsTop, recentsSize);
        recentsList := Join(recentsTop);
      } else {
        NoRecentsShown(recentsSize);
      }
    }

    /** `load_emoji_list()`: the merged list joined by line breaks, leading line breaks removed. */
    method LoadEmojiText() returns (text: string)
      ensures text == MergeText(RecentsSource(), FavoritesSource(), CatalogSource(), recentsSize)
    {
      var elist := LoadEmojiList();
      text := TrimStart(Join(elist), LineBreak);
    }

    /** `update_selected_emoji`: keeps the line-break-stripped halves of the candidate and records them, or clears the selection. */
    method UpdateSelectedEmoji(c: Candidate) returns (r: Option<string>)
      modifies this`selectedEmoji, this`selectedDesc, this`recents
      ensures Applied(c, r)
    {
      if c == NoCandidate {
        selectedEmoji := None;
        selectedDesc := None;
      } else {
        var chosen := Chosen(c);
        if chosen.None? {
          selectedEmoji := None;
          selectedDesc := None;
        } else {
          selectedEmoji := Some(chosen.value.0);
          selectedDesc := Some(chosen.value.1);
          var _ := AppendRecents();
        }
      }
      r := selectedEmoji;
    }

    /** `select_by_none`: clears the selection. */
    method SelectByNone() returns (r: Option<string>)
      modifies this`selectedEmoji, this`selectedDesc, this`recents
      ensures r == None && selectedEmoji == None && selectedDesc == None && recents == old(recents)
    {
      r := UpdateSelectedEmoji(NoCandidate);
    }

    /**
     * `select_by_filter`: selects from the first line of the merged list
     * that contains the pattern; an empty pattern selects nothing.
     */
    method SelectByFilter() returns (r: Option<string>)
      modifies this`selectedEmoji, this`selectedDesc, this`recents
      ensures Applied(FilterCandidate(old(EmojiList()), pattern, ignoreCase), r)
      ensures pattern == "" ==> r == None && selectedDesc == None && recents == old(recents)
    {
      var elist := LoadEmojiList();
      var c := FilterCandidate(elist, pattern, ignoreCase);
      if pattern == "" {
        EmptyPatternSelectsNothing(elist, ignoreCase);
      }
      r := UpdateSelectedEmoji(c);
    }

    /**
     * `select_by_random`: `pick` is the line `random.shuffle` puts first in
     * the list of the distinct non-empty lines of the merged list, so any
     * of them can be picked; with no such line, `random_list[0]` fails and
     * nothing changes.
     */
    method SelectByRandom(pick: string) returns (r: Result<Option<string>, Failure>)
      requires RandomPool(EmojiList()) != {} ==> pick in RandomPool(EmojiList())
      modifies this`selectedEmoji, this`selectedDesc, this`recents
      ensures r.Failure? <==> RandomPool(old(EmojiList())) == {}
      ensures r.Failure? ==> r.error == IndexError && unchanged(this)
      ensures pick in RandomPool(old(EmojiList())) ==> r.Success? && Applied(LineCandidate(pick), r.value)
    {
      var elist := LoadEmojiList();
      var randomSet := RandomPool(elist);
      if randomSet == {} {
        return Failure(IndexError);
      }
      var selected := UpdateSelectedEmoji(LineCandidate(pick));
      r := Success(selected);
    }

    /** The text a menu program is given: the merged text, lowercased for dmenu and pmenu when case is ignored. */
    method LoadMenuText(menu: Menu) returns (text: string)
      ensures text == MenuInput(menu)
    {
      var merged := LoadEmojiText();
      var lower := ignoreCase && (menu == Dmenu || menu == Pmenu);
      text := if lower then Lower(merged) else merged;
    }

    /**
     * `select_by_rofi`, `select_by_dmenu`, `select_by_pmenu` and
     * `select_by_fzf`: the program is given the merged text and its answer
     * is parsed; a program that is not found is a subprocess error
     * and nothing changes. Its exit status is not looked at.
     */
    method SelectByProgram(menu: Menu, program: string -> MenuRun) returns (r: Result<Option<string>, Failure>)
      requires RunsProgram(menu)
      modifies this`selectedEmoji, this`selectedDesc, this`recents
      ensures r.Failure? <==> program(old(MenuInput(menu))).NotFound?
      ensures r.Failure? ==> r.error == SubprocessError && unchanged(this)
      ensures r.Success? ==> Applied(MenuAnswer(program(old(MenuInput(menu))).stdout), r.value)
    {
      var text := LoadMenuText(menu);
      var run := program(text);
      if run.NotFound? {
        return Failure(SubprocessError);
      }
      var selected := UpdateSelectedEmoji(MenuAnswer(run.stdout));
      r := Success(selected);
    }

    /**
     * `append_recents`: when recents are enabled and both halves of the
     * selection are non-empty, appends `emoji + ' ' + desc`, behind a line
     * break and after trimming when the file exists; otherwise changes
     * nothing.
     */
    method AppendRecents() returns (appended: bool)
      modifies this`recents
      ensures appended <==> !norecents && Truthy(selectedEmoji) && Truthy(selectedDesc)
      ensures recents == if appended then Some(Appended(old(recents), selectedEmoji.value + " " + selectedDesc.value)) else old(recents)
    {
      if !norecents && selectedEmoji.Some? && selectedEmoji.value != "" && selectedDesc.Some? && selectedDesc.value != "" {
        var line := "";
        if recents.Some? {
          line := "\n";
          var _ := TrimRecentsFile();
          assert recents == Some(Trimmed(old(recents).value));
        }
        line := line + selectedEmoji.value + " " + selectedDesc.value;
        ghost var entry := selectedEmoji.value + " " + selectedDesc.value;
        assert line == (if recents.Some? then "\n" else "") + entry;
        ghost var prior := recents;
        recents := Some((if recents.Some? then recents.value else "") + line);
        if prior.Some? {
          assert recents.value == prior.value + ("\n" + entry);
          assert recents.value == Trimmed(old(recents).value) + "\n" + entry;
        } else {
          assert "" + entry == entry;
          assert old(recents) == None;
        }
        appended := true;
      } else {
        appended := false;
      }
    }

    /**
     * `trim_recents_file`: a recents file above 4096 bytes is deleted and
     * written again holding its compacted lines; a smaller one is left
     * alone. The source reads the size of the file without checking that
     * it exists, so callers must know it does when recents are enabled.
     */
    method TrimRecentsFile() returns (trimmed: bool)
      requires norecents || recents.Some?
      modifies this`recents
      ensures trimmed <==> !norecents && Utf8Size(old(recents).value) > MaxByteSize
      ensures recents == if trimmed then Some(Compacted(old(recents).value)) else old(recents)
    {
      if !norecents && Utf8Size(recents.value) > MaxByteSize {
        var data := Strip(recents.value, LineBreak);
        var recentsList := SplitLines(data);
        recentsList := Reverse(recentsList);
        recentsList := Dedup(recentsList);
        recentsList := Take(recentsList, MaxListEntries);
        recentsList := Reverse(recentsList);
        data := Join(recentsList);
        recents := None;
        recents := Some(data);
        trimmed := true;
      } else {
        trimmed := false;
      }
    }

    /**
     * `main` after the settings are read: runs the strategy of `menu`, then
     * the output steps when an emoji was selected, and returns the exit
     * status; an empty list under the random menu is the uncaught
     * `IndexError`.
     */
    method Run(menu: Menu, program: string -> MenuRun, pick: string, outputFailed: bool) returns (status: Result<int, Failure>)
      requires menu == Random && RandomPool(EmojiList()) != {} ==> pick in RandomPool(EmojiList())
      modifies this`selectedEmoji, this`selectedDesc, this`recents
      ensures status.Failure? <==> menu == Random && RandomPool(old(EmojiList())) == {}
      ensures status.Success? ==> status.value == ExitStatus(menu,
        if RunsProgram(menu) && program(old(MenuInput(menu))).NotFound? then StrategyFailed
        else Finished(selectedEmoji, outputFailed))
      ensures menu == NoMenu ==> selectedEmoji == None && selectedDesc == None && recents == old(recents)
      ensures menu == Filter ==> Applied(FilterCandidate(old(EmojiList()), pattern, ignoreCase), selectedEmoji)
      ensures RunsProgram(menu) && program(old(MenuInput(menu))).NotFound? ==> unchanged(this)
      ensures RunsProgram(menu) && program(old(MenuInput(menu))).Exited? ==>
        Applied(MenuAnswer(program(old(MenuInput(menu))).stdout), selectedEmoji)
      ensures menu == Random && status.Failure? ==> unchanged(this)
      ensures menu == Random && status.Success? ==> Applied(LineCandidate(pick), selectedEmoji)
    {
      if RunsProgram(menu) {
        var r := SelectByProgram(menu, program);
        if r.Failure? {
          return Success(1);
        }
      } else if menu == Filter {
        var _ := SelectByFilter();
      } else if menu == Random {
        var r := SelectByRandom(pick);
        if r.Failure? {
          return Failure(IndexError);
        }
      } else {
        var _ := SelectByNone();
      }
      if selectedEmoji.Some? && selectedEmoji.value != "" {
        status := if outputFailed then Success(3) else Success(0);
      } else if menu == NoMenu {
        status := Success(0);
      } else {
        status := Success(2);
      }
    }
  }

  /** One step of the accumulation loop adds the rendered entry to its own group's block and to no other. */
  lemma BlockStep(s: seq<Entry>, i: int, g: Group, ignoreSkin: bool)
    requires 0 <= i < |s|
    ensures Kept(s[i], ignoreSkin) && GroupOf(s[i]) == g ==>
      Block(Renders(Pick(s[..i + 1], g, ignoreSkin))) == Block(Renders(Pick(s[..i], g, ignoreSkin))) + Render(s[i]) + "\n"
    ensures !(Kept(s[i], ignoreSkin) && GroupOf(s[i]) == g) ==>
      Block(Renders(Pick(s[..i + 1], g, ignoreSkin))) == Block(Renders(Pick(s[..i], g, ignoreSkin)))
  {
    var p := Pick(s[..i], g, ignoreSkin);
    if Kept(s[i], ignoreSkin) && GroupOf(s[i]) == g {
      assert Pick(s[..i + 1], g, ignoreSkin) == p + [s[i]] by {
        PickSnoc(s, i, g, ignoreSkin);
      }
      BlockRenderSnoc(p, s[i]);
    } else {
      assert Pick(s[..i + 1], g, ignoreSkin) == p by {
        PickSnoc(s, i, g, ignoreSkin);
        assert p + [] == p;
      }
    }
  }

  /** Picking from one more entry adds that entry when it is kept and in the group. */
  lemma PickSnoc(s: seq<Entry>, i: int, g: Group, ignoreSkin: bool)
    requires 0 <= i < |s|
    ensures Pick(s[..i + 1], g, ignoreSkin)
      == Pick(s[..i], g, ignoreSkin) + if Kept(s[i], ignoreSkin) && GroupOf(s[i]) == g then [s[i]] else []
  {
    var t := s[..i + 1];
    assert t[..|t| - 1] == s[..i] && t[|t| - 1] == s[i];
  }

  /** Accumulating one more rendered entry appends its line and a line break. */
  lemma BlockRenderSnoc(p: seq<Entry>, e: Entry)
    ensures Block(Renders(p + [e])) == Block(Renders(p)) + Render(e) + "\n"
  {
    RendersAppend(p, [e]);
    var ls := Renders(p) + [Render(e)];
    assert ls[..|ls| - 1] == Renders(p) && ls[|ls| - 1] == Render(e);
  }

  /** Rendering distributes over concatenation. */
  lemma RendersAppend(x: seq<Entry>, y: seq<Entry>)
    ensures Renders(x + y) == Renders(x) + Renders(y)
  {
    var l, r := Renders(x + y), Renders(x) + Renders(y);
    assert |l| == |r|;
    forall i | 0 <= i < |l| ensures l[i] == r[i] {
      if i < |x| {
        assert (x + y)[i] == x[i];
      } else {
        assert (x + y)[i] == y[i - |x|];
      }
    }
  }

  /** No rendered line is empty or begins or ends with a line break. */
  lemma RenderedLines(es: seq<Entry>)
    ensures forall i | 0 <= i < |Renders(es)| :: Renders(es)[i] != "" && Renders(es)[i][0] != '\n' && Renders(es)[i][|Renders(es)[i]| - 1] != '\n'
  {
    forall i | 0 <= i < |es| ensures Renders(es)[i] != "" && Renders(es)[i][0] != '\n' && Renders(es)[i][|Renders(es)[i]| - 1] != '\n' {
      RenderShape(es[i]);
    }
  }

  /** `text += '\n' + part` when the part is not empty appends its piece. */
  lemma PieceAfter(text: string, part: string)
    ensures text + Piece(part) == if part == "" then text else text + "\n" + part
  {
    if part == "" {
      assert text + "" == text;
    } else {
      assert text + ("\n" + part) == text + "\n" + part;
    }
  }

  /** With recents disabled or missing, no recents are shown. */
  lemma NoRecentsShown(size: int)
    ensures Join(RecentsTop("", size)) == ""
  {
    assert SplitLines("") == [];
    assert Reverse<string>([]) == [];
    assert Dedup<string>([]) == [];
  }

  /** Stripping the line breaks off the three accumulated groups gives the catalog text. */
  lemma CacheText(entries: seq<Entry>, ignoreSkin: bool)
    ensures var s := SortByOrder(entries);
      Strip(Block(Renders(Pick(s, Face, ignoreSkin))) + Block(Renders(Pick(s, Finger, ignoreSkin)))
        + Block(Renders(Pick(s, Other, ignoreSkin))), LineBreak) == CatalogText(entries, ignoreSkin)
  {
    var s := SortByOrder(entries);
    var a, b, c := Pick(s, Face, ignoreSkin), Pick(s, Finger, ignoreSkin), Pick(s, Other, ignoreSkin);
    var lines := CatalogLines(entries, ignoreSkin);
    assert lines == Renders(a) + Renders(b) + Renders(c) by {
      RendersAppend(a, b);
      RendersAppend(a + b, c);
    }
    assert Block(Renders(a)) + Block(Renders(b)) + Block(Renders(c)) == Block(lines) by {
      BlockAppend(Renders(a), Renders(b));
      BlockAppend(Renders(a) + Renders(b), Renders(c));
    }
    RenderedLines(a + b + c);
    StripBlock(lines);
  }
}
