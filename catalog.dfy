/**
 * The catalog normaliser (`App.filter_db_source`): database entries are
 * stable-sorted by their `order` field, entries without a name (and, when
 * asked, skin-tone variants) are dropped, each kept entry is rendered as
 * `"<emoji> <name> ~ <category>"`, and the lines are laid out as all face
 * lines, then finger lines, then the rest, without a trailing line break.
 */
module Catalog {
  import opened Text
  import opened Lists

  /** One record of the emoji database. */
  datatype Entry = Entry(emoji: string, name: string, shortname: string, category: string, order: int)

  /** The priority group of a rendered entry. */
  datatype Group = Face | Finger | Other

  /** Position of a group in the cache file. */
  function Rank(g: Group): nat {
    match g
    case Face => 0
    case Finger => 1
    case Other => 2
  }

  /** The entry produces a cache line: it has a name and is not a skin-tone variant that is ignored. */
  predicate Kept(e: Entry, ignoreSkin: bool) {
    && |e.name| > 0
    && (ignoreSkin ==> !Contains(e.name, "skin") && !Contains(e.shortname, "skin_tone"))
  }

  /** Face when name or category mentions a face, else Finger when the category mentions a finger. */
  function GroupOf(e: Entry): Group {
    if Contains(e.name, "face") || Contains(e.category, "face") then Face
    else if Contains(e.category, "finger") then Finger
    else Other
  }

  /** The cache line of an entry. */
  function Render(e: Entry): string {
    Strip(e.emoji, Whitespace) + " " + Strip(e.name, Whitespace) + " ~ " + Strip(e.category, Whitespace)
  }

  /** The lines of a sequence of entries. */
  function Renders(es: seq<Entry>): (r: seq<string>)
    ensures |r| == |es|
  {
    seq(|es|, i requires 0 <= i < |es| => Render(es[i]))
  }

  /** A rendered line is never empty and neither begins nor ends with a line break; it holds a break only if a field does. */
  lemma RenderShape(e: Entry)
    ensures Render(e) != "" && Render(e)[0] != '\n' && Render(e)[|Render(e)| - 1] != '\n'
    ensures '\n' !in e.emoji && '\n' !in e.name && '\n' !in e.category ==> '\n' !in Render(e)
  {
    StrippedField(e.emoji);
    StrippedField(e.name);
    StrippedField(e.category);
    LineShape(Strip(e.emoji, Whitespace), Strip(e.name, Whitespace), Strip(e.category, Whitespace));
  }

  /** The shape of `em + " " + nm + " ~ " + ca`, from the shape of its fields. */
  lemma LineShape(em: string, nm: string, ca: string)
    requires em == "" || em[0] != '\n'
    requires ca == "" || ca[|ca| - 1] != '\n'
    ensures var r := em + " " + nm + " ~ " + ca;
      && r != "" && r[0] != '\n' && r[|r| - 1] != '\n'
      && ('\n' !in em && '\n' !in nm && '\n' !in ca ==> '\n' !in r)
  {
    var r := em + " " + nm + " ~ " + ca;
    if em != "" {
      assert r[0] == em[0];
    }
    if ca != "" {
      assert r[|r| - 1] == ca[|ca| - 1];
    }
  }

  /** A field stripped of whitespace neither begins nor ends with a line break, and holds one only if the field does. */
  lemma StrippedField(f: string)
    ensures var s := Strip(f, Whitespace);
      && (s == "" || (s[0] != '\n' && s[|s| - 1] != '\n'))
      && ('\n' !in f ==> '\n' !in s)
  {
    assert '\n' in Whitespace;
    StripDropsEnds(f, Whitespace, '\n');
  }

  predicate SortedByOrder(s: seq<Entry>) {
    forall i, j | 0 <= i < j < |s| :: s[i].order <= s[j].order
  }

  /** Inserts `x` after every element whose order is not greater than its own. */
  function Insert(t: seq<Entry>, x: Entry): (r: seq<Entry>)
    requires SortedByOrder(t)
    ensures SortedByOrder(r)
    ensures multiset(r) == multiset(t) + multiset{x}
    decreases |t|
  {
    if t == [] then [x]
    else if t[|t| - 1].order <= x.order then t + [x]
    else
      var p, y := t[..|t| - 1], t[|t| - 1];
      var u := Insert(p, x);
      InsertBelowLast(t, x, u);
      u + [y]
  }

  /** Helper for `Insert`: the last entry, above `x`, can follow the insertion into the rest. */
  lemma InsertBelowLast(t: seq<Entry>, x: Entry, u: seq<Entry>)
    requires SortedByOrder(t) && t != [] && x.order < t[|t| - 1].order
    requires SortedByOrder(u) && multiset(u) == multiset(t[..|t| - 1]) + multiset{x}
    ensures SortedByOrder(u + [t[|t| - 1]])
    ensures multiset(u + [t[|t| - 1]]) == multiset(t) + multiset{x}
  {
    var p, y := t[..|t| - 1], t[|t| - 1];
    assert t == p + [y];
    forall z | z in u ensures z.order <= y.order {
      assert z in multiset(u);
      assert z == x || z in p;
    }
  }

  /** Python's `sorted(entries, key=order)`: a stable insertion sort. */
  function SortByOrder(s: seq<Entry>): (r: seq<Entry>)
    ensures SortedByOrder(r)
    ensures multiset(r) == multiset(s)
    decreases |s|
  {
    if s == [] then []
    else
      assert s == s[..|s| - 1] + [s[|s| - 1]];
      Insert(SortByOrder(s[..|s| - 1]), s[|s| - 1])
  }

  /** The entries whose order is `k`, in sequence order. */
  function WithOrder(s: seq<Entry>, k: int): seq<Entry>
    decreases |s|
  {
    if s == [] then []
    else if s[|s| - 1].order == k then WithOrder(s[..|s| - 1], k) + [s[|s| - 1]]
    else WithOrder(s[..|s| - 1], k)
  }

  lemma {:induction false} WithOrderAppend(a: seq<Entry>, b: seq<Entry>, k: int)
    ensures WithOrder(a + b, k) == WithOrder(a, k) + WithOrder(b, k)
    decreases |b|
  {
    if b == [] {
      assert a + b == a;
    } else {
      WithOrderAppend(a, b[..|b| - 1], k);
      assert (a + b)[..|a + b| - 1] == a + b[..|b| - 1];
    }
  }

  /** Inserting never reorders entries that share an order value. */
  lemma {:induction false} InsertStable(t: seq<Entry>, x: Entry, k: int)
    requires SortedByOrder(t)
    ensures WithOrder(Insert(t, x), k) == WithOrder(t, k) + WithOrder([x], k)
    decreases |t|
  {
    if t == [] {
    } else if t[|t| - 1].order <= x.order {
      WithOrderAppend(t, [x], k);
    } else {
      InsertUnfold(t, x);
      InsertStable(t[..|t| - 1], x, k);
      InsertStableLast(t, x, k);
    }
  }

  /** The step of `InsertStable` when the entry goes before the last one, given the claim for the rest. */
  lemma InsertStableLast(t: seq<Entry>, x: Entry, k: int)
    requires SortedByOrder(t) && t != [] && x.order < t[|t| - 1].order
    requires SortedByOrder(t[..|t| - 1])
    requires WithOrder(Insert(t[..|t| - 1], x), k) == WithOrder(t[..|t| - 1], k) + WithOrder([x], k)
    ensures WithOrder(Insert(t, x), k) == WithOrder(t, k) + WithOrder([x], k)
  {
    InsertUnfold(t, x);
    StableStep(t, x, Insert(t[..|t| - 1], x), Insert(t, x), k);
  }

  /** One step of `Insert` when the entry goes before the last one. */
  lemma InsertUnfold(t: seq<Entry>, x: Entry)
    requires SortedByOrder(t) && t != [] && x.order < t[|t| - 1].order
    ensures SortedByOrder(t[..|t| - 1])
    ensures Insert(t, x) == Insert(t[..|t| - 1], x) + [t[|t| - 1]]
  {
    var p := t[..|t| - 1];
    assert forall i | 0 <= i < |p| :: p[i] == t[i];
  }

  /** Helper for `InsertStable`: appending the last entry, of larger order, after the insertion. */
  lemma StableStep(t: seq<Entry>, x: Entry, u: seq<Entry>, v: seq<Entry>, k: int)
    requires t != [] && x.order < t[|t| - 1].order && v == u + [t[|t| - 1]]
    requires WithOrder(u, k) == WithOrder(t[..|t| - 1], k) + WithOrder([x], k)
    ensures WithOrder(v, k) == WithOrder(t, k) + WithOrder([x], k)
  {
    var p, y := t[..|t| - 1], t[|t| - 1];
    assert t == p + [y];
    WithOrderAppend(u, [y], k);
    WithOrderAppend(p, [y], k);
    WithOrderOne(x, k);
    WithOrderOne(y, k);
    SwapEmpty(WithOrder(p, k), WithOrder([x], k), WithOrder([y], k));
  }

  /** Two appended lists, one of them empty, can be appended in either order. */
  lemma SwapEmpty<T>(a: seq<T>, b: seq<T>, c: seq<T>)
    requires b == [] || c == []
    ensures a + b + c == a + c + b
  {
    if b == [] {
      assert a + b == a;
    } else {
      assert a + c == a;
    }
  }

  /** The entries of order `k` in a one-entry list. */
  lemma WithOrderOne(x: Entry, k: int)
    ensures WithOrder([x], k) == if x.order == k then [x] else []
  {
    assert [x][..0] == [];
  }

  /** The sort is stable: entries with equal order keep their database order. */
  lemma {:induction false} SortStable(s: seq<Entry>, k: int)
    ensures WithOrder(SortByOrder(s), k) == WithOrder(s, k)
    decreases |s|
  {
    if s != [] {
      var p, x := s[..|s| - 1], s[|s| - 1];
      assert s == p + [x];
      var sp := SortByOrder(p);
      assert SortByOrder(s) == Insert(sp, x);
      SortStable(p, k);
      InsertStable(sp, x, k);
      WithOrderAppend(p, [x], k);
      calc {
        WithOrder(SortByOrder(s), k);
        WithOrder(Insert(sp, x), k);
        WithOrder(sp, k) + WithOrder([x], k);
        WithOrder(p, k) + WithOrder([x], k);
        WithOrder(p + [x], k);
      }
    }
  }

  /** The kept entries of group `g`, in sequence order. */
  function Pick(s: seq<Entry>, g: Group, ignoreSkin: bool): (r: seq<Entry>)
    ensures forall e | e in r :: Kept(e, ignoreSkin) && GroupOf(e) == g
    ensures forall e :: multiset(r)[e] == if Kept(e, ignoreSkin) && GroupOf(e) == g then multiset(s)[e] else 0
    decreases |s|
  {
    if s == [] then []
    else
      var p := s[..|s| - 1];
      assert s == p + [s[|s| - 1]];
      if Kept(s[|s| - 1], ignoreSkin) && GroupOf(s[|s| - 1]) == g then Pick(p, g, ignoreSkin) + [s[|s| - 1]]
      else Pick(p, g, ignoreSkin)
  }

  /** Picking keeps a sorted sequence sorted. */
  lemma {:induction false} PickSorted(s: seq<Entry>, g: Group, ignoreSkin: bool)
    requires SortedByOrder(s)
    ensures SortedByOrder(Pick(s, g, ignoreSkin))
    decreases |s|
  {
    if s != [] {
      var p, y := s[..|s| - 1], s[|s| - 1];
      SortedPrefix(s);
      PickSorted(p, g, ignoreSkin);
      var q := Pick(p, g, ignoreSkin);
      forall e | e in q ensures e.order <= y.order {
        assert multiset(q)[e] > 0;
        assert e in p;
      }
      SortedSnoc(q, y);
    }
  }

  /** Dropping the last entry of a sorted sequence leaves it sorted, below that entry. */
  lemma SortedPrefix(s: seq<Entry>)
    requires SortedByOrder(s) && s != []
    ensures SortedByOrder(s[..|s| - 1])
    ensures forall e | e in s[..|s| - 1] :: e.order <= s[|s| - 1].order
  {
    var p := s[..|s| - 1];
    assert forall i | 0 <= i < |p| :: p[i] == s[i];
  }

  /** Appending an entry of order at least every other keeps a sequence sorted. */
  lemma SortedSnoc(q: seq<Entry>, y: Entry)
    requires SortedByOrder(q) && forall e | e in q :: e.order <= y.order
    ensures SortedByOrder(q + [y])
  {
    var r := q + [y];
    forall i, j | 0 <= i < j < |r| ensures r[i].order <= r[j].order {
      assert r[i] == q[i];
      if j == |q| {
        assert q[i] in q;
      } else {
        assert r[j] == q[j];
      }
    }
  }

  /** Picking a group commutes with selecting an order value. */
  lemma {:induction false} PickWithOrder(s: seq<Entry>, g: Group, ignoreSkin: bool, k: int)
    ensures WithOrder(Pick(s, g, ignoreSkin), k) == Pick(WithOrder(s, k), g, ignoreSkin)
    decreases |s|
  {
    if s != [] {
      PickWithOrder(s[..|s| - 1], g, ignoreSkin, k);
    }
  }

  /** The cached entries: face, then finger, then the rest, each in stable `order` order. */
  function CatalogEntries(es: seq<Entry>, ignoreSkin: bool): seq<Entry> {
    var s := SortByOrder(es);
    Pick(s, Face, ignoreSkin) + Pick(s, Finger, ignoreSkin) + Pick(s, Other, ignoreSkin)
  }

  /** The lines of the cache file. */
  function CatalogLines(es: seq<Entry>, ignoreSkin: bool): seq<string> {
    Renders(CatalogEntries(es, ignoreSkin))
  }

  /** The text of the cache file. */
  function CatalogText(es: seq<Entry>, ignoreSkin: bool): string {
    Join(CatalogLines(es, ignoreSkin))
  }

  /** The cache text never ends with a line break. */
  lemma CatalogTextNoTrailingBreak(es: seq<Entry>, ignoreSkin: bool)
    ensures var t := CatalogText(es, ignoreSkin); t == "" || t[|t| - 1] != '\n'
  {
    var c := CatalogEntries(es, ignoreSkin);
    var lines := Renders(c);
    if lines != [] {
      RenderShape(c[|c| - 1]);
      JoinLastChar(lines);
    }
  }

  /** Each kept entry is cached as often as it occurs in the database; every other entry is absent. */
  lemma CatalogCount(es: seq<Entry>, ignoreSkin: bool, e: Entry)
    ensures multiset(CatalogEntries(es, ignoreSkin))[e] == if Kept(e, ignoreSkin) then multiset(es)[e] else 0
  {
    var s := SortByOrder(es);
    var a, b, c := Pick(s, Face, ignoreSkin), Pick(s, Finger, ignoreSkin), Pick(s, Other, ignoreSkin);
    assert multiset(a + b + c) == multiset(a) + multiset(b) + multiset(c);
  }

  /** An entry is rendered into the cache exactly when it is in the database and kept. */
  lemma CatalogLineIff(es: seq<Entry>, ignoreSkin: bool, line: string)
    ensures line in CatalogLines(es, ignoreSkin) <==> exists e | e in es :: Kept(e, ignoreSkin) && Render(e) == line
  {
    if line in CatalogLines(es, ignoreSkin) {
      var e := CatalogLineSource(es, ignoreSkin, line);
    }
    if e :| e in es && Kept(e, ignoreSkin) && Render(e) == line {
      CatalogLineOf(es, ignoreSkin, e);
    }
  }

  /** Helper for `CatalogLineIff`: a cache line comes from a kept database entry. */
  lemma CatalogLineSource(es: seq<Entry>, ignoreSkin: bool, line: string) returns (e: Entry)
    requires line in CatalogLines(es, ignoreSkin)
    ensures e in es && Kept(e, ignoreSkin) && Render(e) == line
  {
    var c := CatalogEntries(es, ignoreSkin);
    var lines := CatalogLines(es, ignoreSkin);
    var i :| 0 <= i < |lines| && lines[i] == line;
    e := c[i];
    CatalogCount(es, ignoreSkin, e);
    assert multiset(c)[e] > 0;
  }

  /** Helper for `CatalogLineIff`: a kept database entry has its line in the cache. */
  lemma CatalogLineOf(es: seq<Entry>, ignoreSkin: bool, e: Entry)
    requires e in es && Kept(e, ignoreSkin)
    ensures Render(e) in CatalogLines(es, ignoreSkin)
  {
    var c := CatalogEntries(es, ignoreSkin);
    CatalogCount(es, ignoreSkin, e);
    assert e in multiset(c);
    var i :| 0 <= i < |c| && c[i] == e;
    assert CatalogLines(es, ignoreSkin)[i] == Render(e);
  }

  /** Layout: a line of an earlier group precedes every line of a later one, and within a group `order` ascends. */
  lemma CatalogOrder(es: seq<Entry>, ignoreSkin: bool, i: int, j: int)
    requires 0 <= i < j < |CatalogEntries(es, ignoreSkin)|
    ensures var c := CatalogEntries(es, ignoreSkin);
      Rank(GroupOf(c[i])) < Rank(GroupOf(c[j])) || (GroupOf(c[i]) == GroupOf(c[j]) && c[i].order <= c[j].order)
  {
    var s := SortByOrder(es);
    var a, b, d := Pick(s, Face, ignoreSkin), Pick(s, Finger, ignoreSkin), Pick(s, Other, ignoreSkin);
    PickSorted(s, Face, ignoreSkin);
    PickSorted(s, Finger, ignoreSkin);
    PickSorted(s, Other, ignoreSkin);
    GroupsOrdered(a, b, d, i, j);
  }

  /** Helper for `CatalogOrder`: three sorted groups, concatenated. */
  lemma GroupsOrdered(a: seq<Entry>, b: seq<Entry>, d: seq<Entry>, i: int, j: int)
    requires forall e | e in a :: GroupOf(e) == Face
    requires forall e | e in b :: GroupOf(e) == Finger
    requires forall e | e in d :: GroupOf(e) == Other
    requires SortedByOrder(a) && SortedByOrder(b) && SortedByOrder(d)
    requires 0 <= i < j < |a + b + d|
    ensures var c := a + b + d;
      Rank(GroupOf(c[i])) < Rank(GroupOf(c[j])) || (GroupOf(c[i]) == GroupOf(c[j]) && c[i].order <= c[j].order)
  {
    var c := a + b + d;
    if j < |a| {
      assert c[i] == a[i] && c[j] == a[j];
    } else if j < |a| + |b| {
      assert c[j] == b[j - |a|];
      if i < |a| {
        assert c[i] == a[i];
      } else {
        assert c[i] == b[i - |a|];
      }
    } else {
      assert c[j] == d[j - |a| - |b|];
      if i < |a| {
        assert c[i] == a[i];
      } else if i < |a| + |b| {
        assert c[i] == b[i - |a|];
      } else {
        assert c[i] == d[i - |a| - |b|];
      }
    }
  }

  /** Within a group, entries sharing an order value appear in database order. */
  lemma CatalogStable(es: seq<Entry>, ignoreSkin: bool, g: Group, k: int)
    ensures WithOrder(Pick(SortByOrder(es), g, ignoreSkin), k) == WithOrder(Pick(es, g, ignoreSkin), k)
  {
    PickWithOrder(SortByOrder(es), g, ignoreSkin, k);
    SortStable(es, k);
    PickWithOrder(es, g, ignoreSkin, k);
  }

  /** Reading the cache file back line by line gives the cache lines, when no field holds a line break. */
  lemma CatalogTextLines(es: seq<Entry>, ignoreSkin: bool)
    requires forall e | e in es :: '\n' !in e.emoji && '\n' !in e.name && '\n' !in e.category
    ensures SplitLines(CatalogText(es, ignoreSkin)) == CatalogLines(es, ignoreSkin)
  {
    var c := CatalogEntries(es, ignoreSkin);
    var lines := CatalogLines(es, ignoreSkin);
    forall i | 0 <= i < |lines| ensures '\n' !in lines[i] && lines[i] != "" {
      CatalogCount(es, ignoreSkin, c[i]);
      assert c[i] in multiset(c);
      RenderShape(c[i]);
    }
    SplitLinesJoin(lines);
  }

  /** `text + line + '\n'` for each line: what the `+=` accumulation builds. */
  function Block(lines: seq<string>): string
    decreases |lines|
  {
    if lines == [] then "" else Block(lines[..|lines| - 1]) + lines[|lines| - 1] + "\n"
  }

  lemma {:induction false} BlockJoin(lines: seq<string>)
    requires lines != []
    ensures Block(lines) == Join(lines) + "\n"
    decreases |lines|
  {
    var p := lines[..|lines| - 1];
    if p != [] {
      BlockJoin(p);
      JoinSnoc(p, lines[|lines| - 1]);
      assert p + [lines[|lines| - 1]] == lines;
    }
  }

  lemma {:induction false} BlockAppend(a: seq<string>, b: seq<string>)
    ensures Block(a + b) == Block(a) + Block(b)
    decreases |b|
  {
    if b == [] {
      assert a + b == a;
    } else {
      var p, z := b[..|b| - 1], b[|b| - 1];
      BlockAppend(a, p);
      assert (a + b)[..|a + b| - 1] == a + p;
      assert Block(a + b) == Block(a + p) + z + "\n";
      ConcatAssoc(Block(a), Block(p), z, "\n");
    }
  }

  /** Appending three strings to a fourth, regrouped. */
  lemma ConcatAssoc(w: string, x: string, y: string, z: string)
    ensures w + x + y + z == w + (x + y + z)
  {
  }

  /** Stripping the line breaks off the accumulated text leaves the lines joined by line breaks. */
  lemma StripBlock(lines: seq<string>)
    requires forall i | 0 <= i < |lines| :: lines[i] != "" && lines[i][0] != '\n' && lines[i][|lines[i]| - 1] != '\n'
    ensures Strip(Block(lines), {'\n'}) == Join(lines)
  {
    if lines != [] {
      BlockJoin(lines);
      JoinEnds(lines);
      StripOneBreak(Join(lines));
    }
  }

  lemma StripOneBreak(j: string)
    requires j != "" && j[0] != '\n' && j[|j| - 1] != '\n'
    ensures Strip(j + "\n", {'\n'}) == j
  {
    var t := j + "\n";
    assert t[0] != '\n';
    assert TrimStart(t, {'\n'}) == t;
    assert t[..|t| - 1] == j;
    assert TrimEnd(t, {'\n'}) == TrimEnd(j, {'\n'});
  }
}
