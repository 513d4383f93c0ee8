/**
 * The list operations of the pipeline: `list.reverse()`,
 * `list(dict.fromkeys(xs))` (drop repeats, keeping first occurrences) and the
 * slice `xs[0:n]`, with the positions of first and last occurrences used to
 * state order.
 */
module Lists {

  /** `xs` reversed. */
  function Reverse<T>(s: seq<T>): (r: seq<T>)
    ensures |r| == |s|
    ensures forall i | 0 <= i < |s| :: r[i] == s[|s| - 1 - i]
  {
    if s == [] then [] else Reverse(s[1..]) + [s[0]]
  }

  /** Reversing keeps the same elements. */
  lemma ReverseMembers<T>(s: seq<T>, x: T)
    ensures x in Reverse(s) <==> x in s
  {
    if x in s {
      var k :| 0 <= k < |s| && s[k] == x;
      assert Reverse(s)[|s| - 1 - k] == x;
    }
    if x in Reverse(s) {
      var k :| 0 <= k < |s| && Reverse(s)[k] == x;
      assert s[|s| - 1 - k] == x;
    }
  }

  /** Reversing keeps a sequence free of repeats. */
  lemma ReverseNoDup<T>(s: seq<T>)
    requires NoDup(s)
    ensures NoDup(Reverse(s))
  {
    var r := Reverse(s);
    forall i, j | 0 <= i < j < |r| ensures r[i] != r[j] {
      assert r[i] == s[|s| - 1 - i] && r[j] == s[|s| - 1 - j];
    }
  }

  /** Reversing twice gives the sequence back. */
  lemma ReverseReverse<T>(s: seq<T>)
    ensures Reverse(Reverse(s)) == s
  {
  }

  /** No element occurs twice. */
  predicate NoDup<T(==)>(s: seq<T>) {
    forall i, j | 0 <= i < j < |s| :: s[i] != s[j]
  }

  /** `list(dict.fromkeys(s))`: the elements of `s`, each at its first occurrence. */
  function Dedup<T(==)>(s: seq<T>): (r: seq<T>)
    ensures NoDup(r)
    ensures forall x | x in r :: x in s
    ensures forall x | x in s :: x in r
    ensures |r| <= |s|
    decreases |s|
  {
    if s == [] then []
    else
      var d := Dedup(s[..|s| - 1]);
      if s[|s| - 1] in d then d else d + [s[|s| - 1]]
  }

  /** Python's slice `s[0:n]`; a negative `n` counts from the end. */
  function Take<T>(s: seq<T>, n: int): (r: seq<T>)
    ensures |r| <= |s| && r == s[..|r|]
    ensures n >= 0 ==> |r| == if n <= |s| then n else |s|
    ensures n < 0 ==> |r| == if |s| + n >= 0 then |s| + n else 0
  {
    if n >= 0 then (if n <= |s| then s[..n] else s)
    else if |s| + n >= 0 then s[..|s| + n] else []
  }

  /** The position of the first occurrence of `x`. */
  function FirstIndex<T(==)>(s: seq<T>, x: T): (k: nat)
    requires x in s
    ensures k < |s| && s[k] == x
    ensures forall m | 0 <= m < k :: s[m] != x
  {
    if s[0] == x then 0 else 1 + FirstIndex(s[1..], x)
  }

  /** The position of the last occurrence of `x`. */
  function LastIndex<T(==)>(s: seq<T>, x: T): (k: nat)
    requires x in s
    ensures k < |s| && s[k] == x
    ensures forall m | k < m < |s| :: s[m] != x
    decreases |s|
  {
    if s[|s| - 1] == x then |s| - 1 else LastIndex(s[..|s| - 1], x)
  }

  /** An occurrence with nothing equal before it is the first one. */
  lemma FirstIndexAt<T>(s: seq<T>, x: T, k: nat)
    requires k < |s| && s[k] == x
    requires forall m | 0 <= m < k :: s[m] != x
    ensures FirstIndex(s, x) == k
  {
    var f := FirstIndex(s, x);
    assert !(f < k) && !(k < f);
  }

  /** The first occurrence in the reversal is the last occurrence in the original. */
  lemma FirstIndexReverse<T>(s: seq<T>, x: T)
    requires x in s
    ensures x in Reverse(s)
    ensures FirstIndex(Reverse(s), x) == |s| - 1 - LastIndex(s, x)
  {
    var r := Reverse(s);
    var l := LastIndex(s, x);
    assert r[|s| - 1 - l] == x;
    forall m | 0 <= m < |s| - 1 - l
      ensures r[m] != x
    {
      assert r[m] == s[|s| - 1 - m];
    }
    FirstIndexAt(r, x, |s| - 1 - l);
  }

  /** Elements of `Dedup(s)` come in the order of their first occurrences in `s`. */
  lemma {:induction false} DedupOrder<T>(s: seq<T>, i: int, j: int)
    requires 0 <= i < j < |Dedup(s)|
    ensures FirstIndex(s, Dedup(s)[i]) < FirstIndex(s, Dedup(s)[j])
    decreases |s|
  {
    var p := s[..|s| - 1];
    var x := s[|s| - 1];
    var d := Dedup(p);
    var a, b := Dedup(s)[i], Dedup(s)[j];
    assert s == p + [x];
    if j < |d| {
      assert a == d[i] && b == d[j];
      DedupOrder(p, i, j);
      FirstIndexPrefix(p, [x], a);
      FirstIndexPrefix(p, [x], b);
    } else {
      assert x !in d && b == x && a == d[i];
      assert x !in p;
      FirstIndexAt(s, x, |p|);
      FirstIndexPrefix(p, [x], a);
    }
  }

  /** An earlier element of the reversed, deduplicated list occurs later. */
  lemma DedupChronological<T>(s: seq<T>, a: int, b: int)
    requires 0 <= a < b < |Dedup(Reverse(s))|
    ensures var d := Dedup(Reverse(s));
      d[a] in s && d[b] in s && LastIndex(s, d[b]) < LastIndex(s, d[a])
  {
    var rs := Reverse(s);
    var d := Dedup(rs);
    var x, y := d[a], d[b];
    assert x in rs && y in rs;
    ReverseMembers(s, x);
    ReverseMembers(s, y);
    DedupOrder(rs, a, b);
    FirstIndexReverse(s, x);
    FirstIndexReverse(s, y);
  }

  /**
   * An element left out of the first `n` distinct elements of the reversal
   * is older than every element kept, and `n` elements are kept.
   */
  lemma TakeRecentOlder<T>(s: seq<T>, n: int, x: T)
    requires n >= 0 && x in s && x !in Take(Dedup(Reverse(s)), n)
    ensures var t := Take(Dedup(Reverse(s)), n);
      |t| == n && forall y | y in t :: y in s && LastIndex(s, x) < LastIndex(s, y)
  {
    var d := Dedup(Reverse(s));
    var t := Take(d, n);
    ReverseMembers(s, x);
    var k :| 0 <= k < |d| && d[k] == x;
    assert k >= |t| by {
      assert forall m | 0 <= m < |t| :: t[m] == d[m] && t[m] != x;
    }
    forall y | y in t ensures y in s && LastIndex(s, x) < LastIndex(s, y) {
      var m :| 0 <= m < |t| && t[m] == y;
      assert d[m] == y;
      DedupChronological(s, m, k);
    }
  }

  /** Appending never moves the first occurrence of an element already present. */
  lemma FirstIndexPrefix<T>(p: seq<T>, q: seq<T>, x: T)
    requires x in p
    ensures FirstIndex(p + q, x) == FirstIndex(p, x)
  {
    var k := FirstIndex(p, x);
    assert (p + q)[k] == x;
    FirstIndexAt(p + q, x, k);
  }

  /** The first element survives `Dedup`. */
  lemma DedupHead<T>(s: seq<T>)
    requires s != []
    ensures Dedup(s) != [] && Dedup(s)[0] == s[0]
  {
    var d := Dedup(s);
    assert s[0] in d;
    var k :| 0 <= k < |d| && d[k] == s[0];
    if k > 0 {
      DedupOrder(s, 0, k);
      assert false;
    }
  }

  /** The second element survives `Dedup` in second place when it differs from the first. */
  lemma DedupSecond<T>(s: seq<T>)
    requires |s| >= 2 && s[0] != s[1]
    ensures |Dedup(s)| >= 2 && Dedup(s)[1] == s[1]
  {
    var d := Dedup(s);
    DedupHead(s);
    assert s[1] in d;
    var k :| 0 <= k < |d| && d[k] == s[1];
    FirstIndexAt(s, s[1], 1);
    if k > 1 {
      DedupOrder(s, 1, k);
      DedupOrder(s, 0, 1);
      assert false;
    }
  }

  /** `Dedup` leaves a sequence without repeats unchanged. */
  lemma {:induction false} DedupNoDup<T>(s: seq<T>)
    requires NoDup(s)
    ensures Dedup(s) == s
    decreases |s|
  {
    if s != [] {
      var p := s[..|s| - 1];
      DedupNoDup(p);
      assert s[|s| - 1] !in p;
      assert p + [s[|s| - 1]] == s;
    }
  }

  /** Appending an element already present changes nothing after `Dedup`. */
  lemma {:induction false} DedupAbsorb<T>(p: seq<T>, x: T, q: seq<T>)
    requires x in p
    ensures Dedup(p + [x] + q) == Dedup(p + q)
    decreases |q|
  {
    if q == [] {
      assert (p + [x] + q)[..|p|] == p;
      assert p + q == p;
    } else {
      var q' := q[..|q| - 1];
      var y := q[|q| - 1];
      DedupAbsorb(p, x, q');
      assert (p + [x] + q)[..|p + [x] + q| - 1] == p + [x] + q';
      assert (p + q)[..|p + q| - 1] == p + q';
      assert y in p + [x] + q' <==> y in p + q';
    }
  }

  /** A repeat at the end vanishes under `Dedup`. */
  lemma DedupDropLast<T>(p: seq<T>, x: T)
    requires x in p
    ensures Dedup(p + [x]) == Dedup(p)
  {
    assert (p + [x])[..|p|] == p;
  }

  /** The elements of `s` other than `blank`, in order. */
  function Without<T(==)>(s: seq<T>, blank: T): (r: seq<T>)
    ensures forall x | x in r :: x in s && x != blank
    ensures forall x | x in s && x != blank :: x in r
    decreases |s|
  {
    if s == [] then []
    else if s[|s| - 1] == blank then Without(s[..|s| - 1], blank)
    else Without(s[..|s| - 1], blank) + [s[|s| - 1]]
  }

  /** `Without` distributes over concatenation. */
  lemma {:induction false} WithoutAppend<T>(a: seq<T>, b: seq<T>, blank: T)
    ensures Without(a + b, blank) == Without(a, blank) + Without(b, blank)
    decreases |b|
  {
    if b == [] {
      assert a + b == a;
    } else {
      WithoutAppend(a, b[..|b| - 1], blank);
      assert (a + b)[..|a + b| - 1] == a + b[..|b| - 1];
    }
  }

  /** Once `blank` has occurred, later copies of it vanish under `Dedup`. */
  lemma {:induction false} DedupWithout<T>(p: seq<T>, q: seq<T>, blank: T)
    requires blank in p
    ensures Dedup(p + q) == Dedup(p + Without(q, blank))
    decreases |q|
  {
    if q != [] {
      var q' := q[..|q| - 1];
      var y := q[|q| - 1];
      DedupWithout(p, q', blank);
      assert p + q == p + q' + [y];
      assert (p + q)[..|p + q| - 1] == p + q';
      if y == blank {
        assert Without(q, blank) == Without(q', blank);
        DedupAbsorb(p + q', y, []);
        assert p + q' + [y] + [] == p + q;
        assert p + q' + [] == p + q';
      } else {
        var w := Without(q', blank);
        assert Without(q, blank) == w + [y];
        assert (p + w + [y])[..|p + w + [y]| - 1] == p + w;
        assert p + (w + [y]) == p + w + [y];
        assert y in p + q' <==> y in p + w;
      }
    }
  }

  /** Three sources that agree up to `blank` elements give the same deduplicated list behind a leading `blank`. */
  lemma DedupBlankSources<T>(blank: T, a: seq<T>, a': seq<T>, b: seq<T>, b': seq<T>, c: seq<T>, c': seq<T>)
    requires Without(a, blank) == Without(a', blank)
    requires Without(b, blank) == Without(b', blank)
    requires Without(c, blank) == Without(c', blank)
    ensures Dedup([blank] + (a + (b + c))) == Dedup([blank] + a' + b' + c')
  {
    var x, y := a + (b + c), a' + (b' + c');
    calc {
      Dedup([blank] + x);
      == { DedupWithout([blank], x, blank); }
      Dedup([blank] + Without(x, blank));
      == { WithoutThree(blank, a, a', b, b', c, c'); }
      Dedup([blank] + Without(y, blank));
      == { DedupWithout([blank], y, blank); }
      Dedup([blank] + y);
      == { ConsAssoc(blank, a', b', c'); }
      Dedup([blank] + a' + b' + c');
    }
  }

  /** Helper for `DedupBlankSources`: sources that agree up to `blank` concatenate to lists that agree up to `blank`. */
  lemma WithoutThree<T>(blank: T, a: seq<T>, a': seq<T>, b: seq<T>, b': seq<T>, c: seq<T>, c': seq<T>)
    requires Without(a, blank) == Without(a', blank)
    requires Without(b, blank) == Without(b', blank)
    requires Without(c, blank) == Without(c', blank)
    ensures Without(a + (b + c), blank) == Without(a' + (b' + c'), blank)
  {
    WithoutAppend(b, c, blank);
    WithoutAppend(a, b + c, blank);
    WithoutAppend(b', c', blank);
    WithoutAppend(a', b' + c', blank);
  }

  lemma ConsAssoc<T>(x: T, a: seq<T>, b: seq<T>, c: seq<T>)
    ensures [x] + (a + (b + c)) == [x] + a + b + c
  {
    assert a + (b + c) == a + b + c;
  }
}
