# emojicherrypick — emoji-list pipeline in Dafny

emojicherrypick is a command-line emoji picker. It has five parts:

- **Catalog normaliser.** It turns the emoji database into a cached text catalog, one line per emoji.
- **Corpus merger.** It merges the recently used emojis, the user's favorites and the catalog into one deduplicated list.
- **Selection strategies.** The user picks a line: with an external menu program, with the first line that matches a filter pattern, or at random. The picked line is split into the emoji and its description.
- **Recency ledger.** Every selection is appended to a recents file. That file is compacted once it grows past 4096 bytes.
- **Exit status.** `main` turns the outcome of a run into an exit code.

The project models the `App` class of `emojicherrypick.py` that performs these steps. It has one module per stage:

| file | module | contents |
|---|---|---|
| `wrappers.dfy` | `Wrappers` | `Option` and `Result` |
| `text.dfy` | `Text` | the Python string operations the code uses: `in`, `strip(chars)`, `splitlines()` (built on `Split`, the pieces between line breaks), `'\n'.join`, `split(' ', 1)`, `lower()`, UTF-8 size |
| `lists.dfy` | `Lists` | the list operations the code uses: `reverse()`; `dict.fromkeys` as first-occurrence deduplication; the `[0:n]` slice, including negative `n` |
| `catalog.dfy` | `Catalog` | what `filter_db_source` writes |
| `corpus.dfy` | `Corpus` | what `load_emoji_list` returns |
| `selection.dfy` | `Selection` | candidate parsing, the first-match filter, the random pool, the exit-status table |
| `ledger.dfy` | `Ledger` | what `trim_recents_file` and `append_recents` leave in the recents file |
| `app.dfy` | `Emojicherrypick` | class `App` |

Class `App` has these fields:

- the settings, as constants;
- the selected emoji and the selected description;
- the contents of the recents, favorites and catalog-cache files. `None` stands for a missing file.

Its methods follow the source's statements: the accumulation loop, the `+=` string building and the reverse/dedup/slice steps. Each method is proved against the functions of the other modules. The properties of those functions are proved as lemmas.

Notes on behaviour, as the code has it:

- **Blank lines.** The merged list is deduplicated, not cleared of blank lines. Every source is appended behind a `'\n'`, so the list form starts with one empty line whenever a source contributed anything.
- **Menu exit status.** A menu program's non-zero exit status is not looked at. Only a program that is not found is a strategy failure: `subprocess.run` raises `FileNotFoundError`, which is turned into a subprocess error.
- **Line break before an append.** `append_recents` writes a line break before the new line whenever the recents file exists, even when it is empty.
- **Compaction write.** Compaction deletes the recents file and then writes it again. It is not an atomic replace.
- **Stripping line breaks.** Files are read with `strip('\n')`. This removes every surrounding line break, not just one trailing break.
- **Output failure.** An output step (clipboard, typing, notification) that raises a subprocess error exits with status 3. A strategy failure exits with status 1.

## Model

| member | source | states |
|---|---|---|
| Text.Contains | emojicherrypick.py:178-183 | `sub in s`, defined as "a prefix of `s` or of one of its suffixes"; it has no contract of its own, and `Text.ContainsSlice` is its property |
| Text.ContainsSlice | emojicherrypick.py:163-165 | `sub in s` holds exactly when `sub` equals the slice of `s` of its length at some index |
| Text.TrimStart | emojicherrypick.py:117 | `lstrip(chars)`: the result is a suffix of the input, everything dropped before it is in the set, and its first character is not |
| Text.Strip | emojicherrypick.py:92 | `strip(chars)`: the result is a slice of the input, everything dropped before and after it is in the stripped set, and its first and last characters are not |
| Text.StripUntouched | emojicherrypick.py:92 | a string whose ends are outside the set is left as it is |
| Text.SplitLines | emojicherrypick.py:93 | `splitlines()` yields lines without line breaks |
| Text.SplitLinesJoin | emojicherrypick.py:441 | `splitlines` of a join of single lines, whose last line is not blank, gives the lines back |
| Text.SplitLinesInverse | emojicherrypick.py:93 | joining the lines gives the text back, except for at most one final line break |
| Text.Join | emojicherrypick.py:97 | `'\n'.join`; it has no contract of its own, and its round trips with the line split are `Text.JoinSplit` and `Text.SplitLinesJoin` |
| Text.JoinLastChar | emojicherrypick.py:421-423 | a join whose last line is not empty ends with that line's last character |
| Text.JoinSplit | emojicherrypick.py:112 | joining the pieces between line breaks, which `splitlines` is built on, gives the text back |
| Text.SplitAppend | emojicherrypick.py:106-112 | the pieces of `a + '\n' + b` are the pieces of `a` followed by those of `b` |
| Text.SplitOnce | emojicherrypick.py:218 | `split(' ', 1)`: one part exactly when there is no space; otherwise the first part has no space and the two parts joined by a space give the input |
| Text.SplitOnceJoin | emojicherrypick.py:236 | splitting `first + ' ' + rest`, where `first` has no space, gives `[first, rest]` |
| Text.StripKeepsLastLine | emojicherrypick.py:418-425 | a text ending in a line break and a non-empty single line still has that line last after stripping line breaks and splitting into lines |
| Text.Lower | emojicherrypick.py:227 | `lower()`: same length, every capital `A`-`Z` becomes its lower-case letter, every other character stays, and no capital remains |
| Text.Utf8Size | emojicherrypick.py:434 | `st_size` of a text written as UTF-8: between one and four bytes per character, and exactly one per character for ASCII text |
| Lists.Reverse | emojicherrypick.py:94 | `reverse()`: same length, element `i` is element `n-1-i` of the input |
| Lists.ReverseReverse | emojicherrypick.py:437-440 | reversing twice gives the list back |
| Lists.ReverseMembers | emojicherrypick.py:437 | reversing keeps the same elements |
| Lists.Dedup | emojicherrypick.py:95 | `list(dict.fromkeys(s))`: no repeats, exactly the elements of the input, no longer than the input |
| Lists.DedupOrder | emojicherrypick.py:112 | the kept elements appear in the order of their first occurrences |
| Lists.DedupHead | emojicherrypick.py:112 | the first element stays first |
| Lists.DedupSecond | emojicherrypick.py:112 | a second element that differs from the first stays second |
| Lists.DedupNoDup | emojicherrypick.py:438 | deduplicating a list without repeats changes nothing |
| Lists.DedupAbsorb | emojicherrypick.py:112 | a repeat of an earlier element changes nothing after deduplication |
| Lists.Take | emojicherrypick.py:96 | `[0:n]` is a prefix of length `min(n, len)` for `n >= 0`, and of length `max(len + n, 0)` for negative `n` |
| Lists.FirstIndexReverse | emojicherrypick.py:94 | the first occurrence in the reversed list is the mirror of the last occurrence in the list |
| Catalog.Kept | emojicherrypick.py:163-166 | the keep test: a non-empty name and, when skin tones are ignored, no `skin` in the name and no `skin_tone` in the short name; it has no contract of its own, and its effect on the cache is `Catalog.CatalogCount` and `Catalog.CatalogLineIff` |
| Catalog.GroupOf | emojicherrypick.py:178-183 | face when the name or category contains `face`, else finger when the category contains `finger`, else other; it has no contract of its own, and the resulting layout is `Catalog.CatalogOrder` |
| Catalog.Render | emojicherrypick.py:170-174 | the line `emoji name ~ category` of the three whitespace-stripped fields; it has no contract of its own, and `Catalog.RenderShape` is its property |
| Catalog.Insert | emojicherrypick.py:159 | inserting into a list sorted by `order` keeps it sorted and adds exactly that entry |
| Catalog.SortByOrder | emojicherrypick.py:159 | `sorted(..., key=order)`: sorted by `order` and a permutation of the database |
| Catalog.SortStable | emojicherrypick.py:159 | the sort is stable: entries sharing an `order` keep their database order |
| Catalog.RenderShape | emojicherrypick.py:170-174 | a rendered line is never empty and neither begins nor ends with a line break; it holds a line break only if a field does |
| Catalog.Pick | emojicherrypick.py:163-184 | a group keeps exactly the kept entries of that group, each as often as it occurs |
| Catalog.PickSorted | emojicherrypick.py:159-184 | a group picked from the sorted entries is sorted by `order` |
| Catalog.CatalogCount | emojicherrypick.py:163-186 | every kept entry is cached as often as it occurs in the database; every other entry is absent |
| Catalog.CatalogLineIff | emojicherrypick.py:163-174 | a line is in the cache exactly when some database entry is kept (non-empty name, and no `skin` / `skin_tone` when skin tones are ignored) and renders to it |
| Catalog.CatalogOrder | emojicherrypick.py:176-186 | face lines come first, then finger lines, then the rest; within a group `order` ascends |
| Catalog.CatalogStable | emojicherrypick.py:159-184 | within a group, entries sharing an `order` appear in database order |
| Catalog.CatalogTextLines | emojicherrypick.py:186-187 | read back line by line, the cache text gives the cache lines: there is no trailing blank line |
| Catalog.BlockAppend | emojicherrypick.py:186 | the accumulated text of two groups is the concatenation of their accumulated texts |
| Catalog.StripBlock | emojicherrypick.py:187 | stripping the line breaks off the accumulated text leaves the lines joined by line breaks |
| Catalog.CatalogText | emojicherrypick.py:186-187 | the cache text: the cache lines joined by line breaks; it has no contract of its own, and its properties are `Catalog.CatalogTextLines`, `Catalog.CatalogTextNoTrailingBreak` and `Emojicherrypick.CacheText` |
| Catalog.CatalogTextNoTrailingBreak | emojicherrypick.py:187 | the cache text never ends with a line break |
| Emojicherrypick.BlockStep | emojicherrypick.py:176-184 | one loop step appends the rendered entry and a line break to its own group's text and to no other |
| Emojicherrypick.CacheText | emojicherrypick.py:186-187 | the three accumulated groups, stripped of line breaks, are the catalog text |
| Emojicherrypick.App.FilterDbSource | emojicherrypick.py:143-187 | writes the catalog text when the cache is enabled and missing; an existing cache is left alone |
| Emojicherrypick.App.constructor | emojicherrypick.py:25-79 | settings and the existing files are stored and no emoji is selected |
| Emojicherrypick.NewApp | emojicherrypick.py:25-80 | a fresh application with those settings, nothing selected, and the catalog cache built from the database exactly when it is enabled and missing |
| Corpus.RecentsTop | emojicherrypick.py:93-96 | the recents shown: the lines reversed, deduplicated and cut to `recents_size`; it has no contract of its own, and `Corpus.RecentsTopSpec` states what they are |
| Corpus.SourceText | emojicherrypick.py:98-105 | a favorites or catalog source: the file without surrounding line breaks, or nothing when disabled or missing; it has no contract of its own, and `Emojicherrypick.ReadSource` states its shape |
| Corpus.Merge | emojicherrypick.py:106-112 | the list form of `load_emoji_list`; it has no contract of its own, and `Corpus.MergeLayout`, `Corpus.MergeFraming` and `Corpus.MergeShowsLatest` are its properties |
| Corpus.MergeText | emojicherrypick.py:113-117 | the string form of `load_emoji_list`; it has no contract of its own, and `Corpus.MergeTextLayout` is its property |
| Corpus.RecentsTopSpec | emojicherrypick.py:89-97 | at most `recents_size` recents, none twice, all lines of the file, most recent first; below the cap no distinct line is lost, and a line left out is older than every line shown, which then fill the cap |
| Corpus.RecentsTopHead | emojicherrypick.py:93-96 | with a positive count, the last line of the recents file is shown first |
| Corpus.MergeLayout | emojicherrypick.py:98-112 | the merged list is empty exactly when every source contributes nothing; otherwise it is an empty line, the recents shown, the favorites lines and the catalog lines, deduplicated keeping first occurrences |
| Corpus.MergeFraming | emojicherrypick.py:106-112 | no line appears twice, no line holds a line break, and a non-empty merged list starts with `''` |
| Corpus.MergeTextLayout | emojicherrypick.py:113-117 | the string form is the list without its leading empty line, joined by line breaks |
| Corpus.MergeShowsLatest | emojicherrypick.py:89-112 | a non-empty most recent line comes right after the leading empty line |
| Emojicherrypick.App.LoadRecentsTop | emojicherrypick.py:89-97 | the recents part is the join of the recents shown, or empty when recents are disabled or missing |
| Emojicherrypick.ReadSource | emojicherrypick.py:98-105 | the source text; when it is not empty the source is enabled and present, and the text neither begins nor ends with a line break |
| Emojicherrypick.AddPiece | emojicherrypick.py:106-111 | the accumulated text gains a line break and the part exactly when the part is not empty |
| Emojicherrypick.App.LoadEmojiList | emojicherrypick.py:82-115 | returns the merged list of the enabled, existing sources, with no line twice and a leading `''` |
| Emojicherrypick.App.LoadEmojiText | emojicherrypick.py:113-117 | returns the merged list joined by line breaks with leading line breaks removed, which `Corpus.MergeTextLayout` shows is the list without its leading empty line |
| Emojicherrypick.App.LoadMenuText | emojicherrypick.py:251-254 | the menu input is the merged text, lowercased for dmenu and pmenu when case is ignored |
| Selection.Chosen | emojicherrypick.py:189-204 | a selection exists exactly when the candidate has two leading string items; each half has no line break at either end |
| Selection.LineCandidate | emojicherrypick.py:218 | a line splits into one or two parts |
| Selection.LineWithoutSpace | emojicherrypick.py:196-202 | a line without a space selects nothing |
| Selection.LineSelects | emojicherrypick.py:196-199 | `e + ' ' + d`, with no space in `e`, selects `e` and `d`, each stripped of line breaks |
| Selection.MenuAnswer | emojicherrypick.py:329-336 | a menu answer gives two items, both strings exactly when the output has a space; the emoji has no space; `Selection.MenuSplits` gives their values |
| Selection.MenuSplits | emojicherrypick.py:329-333 | an answer `e + ' ' + d`, with no space in `e`, gives `e` and `d` each stripped of surrounding spaces and line breaks, and selects them as they are |
| Selection.MenuDropsSpaces | emojicherrypick.py:331-333 | the answer `a` then `"  b "` selects `a` and `b`: spaces around the description are dropped, not only line breaks |
| Selection.MenuEcho | emojicherrypick.py:329-336 | a menu echoing `e + ' ' + d`, with or without a final line break, selects exactly `e` and `d` |
| Selection.Matches | emojicherrypick.py:225-233 | the filter test: `pattern in line`, on lowercased copies when case is ignored; it has no contract of its own, and `Selection.Matching` states what the filter keeps |
| Selection.Matching | emojicherrypick.py:225-233 | the filter keeps exactly the lines that contain the pattern; the comparison is on lowercased copies when case is ignored |
| Selection.MatchingFirst | emojicherrypick.py:225-236 | the first matching line heads the matches |
| Selection.FilterCandidate | emojicherrypick.py:234-238 | no candidate exactly when no line matches |
| Selection.FilterPicksFirst | emojicherrypick.py:221-239 | the filter selects from the first matching line, in its original case |
| Selection.EmptyPatternSelectsNothing | emojicherrypick.py:221-239 | an empty pattern selects nothing on any list that is empty or starts with `''` |
| Selection.RandomPoolOfMerge | emojicherrypick.py:213-216 | the pool drawn from is exactly the non-empty lines among the recents shown, the favorites and the catalog |
| Selection.ExitStatus | emojicherrypick.py:874-894 | 1 exactly when the strategy failed; 3 exactly when a selected emoji's output failed; 2 exactly when nothing was selected with a menu other than `none`; otherwise 0 |
| Emojicherrypick.App.UpdateSelectedEmoji | emojicherrypick.py:189-204 | without a usable second half, both fields are cleared and the recents file is untouched; otherwise both stripped halves are kept and recorded; returns the selected emoji |
| Emojicherrypick.App.SelectByNone | emojicherrypick.py:206-209 | clears the selection and leaves the recents file alone |
| Emojicherrypick.App.SelectByFilter | emojicherrypick.py:221-239 | applies the filter candidate of the merged list; an empty pattern selects nothing |
| Emojicherrypick.App.SelectByRandom | emojicherrypick.py:211-219 | fails with `IndexError`, changing nothing, exactly when no line is non-empty; otherwise any non-empty line the shuffle puts first is split and applied |
| Emojicherrypick.App.SelectByProgram | emojicherrypick.py:315-336 | a program that is not found is a subprocess error that changes nothing; otherwise its answer is parsed and applied |
| Emojicherrypick.App.Run | emojicherrypick.py:857-894 | returns the exit status of the outcome, and leaves what the strategy of the menu leaves: the filter candidate, the program's answer, the shuffled line, a cleared selection for `none`, nothing changed for a missing program; the random menu on an empty list ends in the uncaught `IndexError` |
| Ledger.CompactBounded | emojicherrypick.py:436-441 | compaction keeps at most 50 lines, none twice, all from the file |
| Ledger.CompactChronological | emojicherrypick.py:436-441 | compacted lines are in the order of their most recent occurrences, oldest first |
| Ledger.CompactKeepsMostRecent | emojicherrypick.py:436-441 | a line is dropped only when 50 lines, each more recent than it, are kept |
| Ledger.CompactIdempotent | emojicherrypick.py:436-441 | compacting the compacted lines changes nothing |
| Ledger.CompactLast | emojicherrypick.py:436-441 | the newest line of the file stays the newest line |
| Ledger.Compacted | emojicherrypick.py:435-441 | the text `trim_recents_file` writes; it has no contract of its own, and `Ledger.CompactedReadsBack` states how it reads back |
| Ledger.Trimmed | emojicherrypick.py:428-446 | the file after `trim_recents_file`: compacted above 4096 bytes, else as it was; it has no contract of its own, and `Ledger.TrimIdempotent` is its property |
| Ledger.Appended | emojicherrypick.py:416-423 | the trimmed old content, a line break and the new line, or the new line alone for a missing file; it has no contract of its own, and `Ledger.AppendedLastLine` is its property |
| Ledger.Record | emojicherrypick.py:410-425 | the recents file after `append_recents`: appended to exactly when recents are enabled and both halves are non-empty; it has no contract of its own, and `Ledger.RecordedShownFirst` is its property |
| Ledger.CompactedReadsBack | emojicherrypick.py:435-443 | the rewritten file, read back, is the compacted list: at most 50 lines, none twice |
| Ledger.TrimIdempotent | emojicherrypick.py:428-446 | trimming twice is trimming once, unless the compacted file starts with a blank line |
| Ledger.AppendedLastLine | emojicherrypick.py:416-425 | the appended line is the last line of the recents file as it is read back |
| Ledger.RecordedShownFirst | emojicherrypick.py:410-426 | after a selection is recorded, the next merged list shows it right after the leading empty line |
| Emojicherrypick.App.AppendRecents | emojicherrypick.py:410-426 | appends exactly when recents are enabled and both halves are non-empty. The new content is the trimmed old content, a line break and `emoji + ' ' + desc`, or just that line when the file was missing |
| Emojicherrypick.App.TrimRecentsFile | emojicherrypick.py:428-446 | a file above 4096 bytes is rewritten with its compacted lines; otherwise nothing changes |

## Left out

- Downloading the database and decoding its JSON (`download_db_source`) are not modelled. The catalog normaliser takes the sequence of entries as input.
- `download_db_source` deletes an existing catalog cache whenever `emojis.json` is missing (emojicherrypick.py:135-137). The `cache` argument of `NewApp` is the cache as it stands after that step.
- `wipe_cache_files` and the `force` parameters are not modelled: they only delete files.
- Menu programs are not run, and their command lines are not built. A menu program is a function from its input text to "not found" or its standard output.
- The stdout, clipboard, typing and notification outputs are not modelled. Whether an output step failed is an input of `Run`.
- `random.shuffle` is not modelled. The line it puts first is the `pick` parameter of `SelectByRandom` and `Run`, required to be in the pool when the pool is not empty. Its uniformity is not modelled, and neither is the iteration order of a Python set.
- A menu program that exists but cannot be executed raises `PermissionError`, which nothing catches. The model knows only found and not-found programs.
- A missing `xclip`, `xdotool` or `notify-send` raises `FileNotFoundError` from `Popen` or `run` (emojicherrypick.py:355, 387, 403), which `main` does not catch. The `outputFailed` input of `Run` stands only for a subprocess error.
- argparse, path resolution, `which`, the version and the program listing are left out. The settings are constructor parameters.
- Text.SplitLines: only `'\n'` separates lines. Python's `splitlines` also splits at `'\r'`, `'\x0b'`, `'\x0c'`, `'\x1c'` to `'\x1e'`, `'\x85'`, `'\u2028'` and `'\u2029'`.
- Text.Lower: only ASCII letters are lowercased. Python lowercases all of Unicode.
- Text.Utf8Size: the file size is the UTF-8 length of the decoded text. Bytes that do not decode are outside the model.
- Emojicherrypick.App.TrimRecentsFile: the window between deleting and rewriting the file is not modelled. Neither is a crash inside it, nor a concurrent writer.
- Emojicherrypick.App.TrimRecentsFile: it requires the recents file to exist when recents are enabled. The source stats the file without a check, and its only caller checks first.
- Emojicherrypick.App.UpdateSelectedEmoji: errors raised while reading the recents file (such as a decoding error, which the source's `except ValueError` would also catch) are not modelled.
- Emojicherrypick.App.Run: an unknown menu name and the `RuntimeError` it raises are outside the `Menu` type.
