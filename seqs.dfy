/**
 * Sequence facts the board model leans on: the id list 0..n-1, row-major
 * flattening of a grid, and the fact that mapping or filtering two
 * rearrangements of one list gives two rearrangements of one list.
 */
module Seqs {
  import opened Wrappers

  /** The list 0, 1, ..., n-1 (`Array.from({ length: n }, (_, k) => k)`). */
  function Range(n: nat): (r: seq<nat>)
    ensures |r| == n
    ensures forall k :: 0 <= k < n ==> r[k] == k
  {
    if n == 0 then [] else Range(n - 1) + [n - 1]
  }

  /** Row-major concatenation of the rows of a grid (`Array.prototype.flat`). */
  function Flatten<T>(g: seq<seq<T>>): seq<T>
  {
    if |g| == 0 then [] else g[0] + Flatten(g[1..])
  }

  /** Every row of `g` has `c` cells. */
  ghost predicate Rectangular<T>(g: seq<seq<T>>, c: nat)
  {
    forall i :: 0 <= i < |g| ==> |g[i]| == c
  }

  lemma {:induction false} FlattenAppend<T>(g: seq<seq<T>>, r: seq<T>)
    ensures Flatten(g + [r]) == Flatten(g) + r
  {
    if |g| == 0 {
      assert g + [r] == [r];
      assert Flatten([r][1..]) == [];
    } else {
      assert (g + [r])[1..] == g[1..] + [r];
      FlattenAppend(g[1..], r);
    }
  }

  lemma {:induction false} FlattenLength<T>(g: seq<seq<T>>, c: nat)
    requires Rectangular(g, c)
    ensures |Flatten(g)| == |g| * c
  {
    if |g| > 0 {
      FlattenLength(g[1..], c);
      assert |g| * c == c + (|g| - 1) * c;
    }
  }

  /** x * c grows with x once x is positive. */
  lemma MulAtLeast(x: int, c: int)
    requires x >= 1 && c >= 0
    ensures x * c >= c
  {
    assert x * c == (x - 1) * c + c;
    assert (x - 1) * c >= 0;
  }

  /** Euclidean division has one quotient and one remainder. */
  lemma DivModUnique(k: int, c: int, q: int, r: int)
    requires c > 0 && 0 <= r < c && k == q * c + r
    ensures k / c == q && k % c == r
  {
    var q', r' := k / c, k % c;
    assert q' * c + r' == q * c + r;
    assert (q - q') * c == r' - r;
    if q > q' {
      MulAtLeast(q - q', c);
    } else if q < q' {
      MulAtLeast(q' - q, c);
    }
  }

  /** Row-major position i * c + j of a rectangular grid. */
  lemma RowMajorIndex(i: int, j: int, c: nat)
    requires 0 <= i && 0 <= j < c
    ensures (i * c + j) / c == i && (i * c + j) % c == j
  {
    DivModUnique(i * c + j, c, i, j);
  }

  lemma RowMajorBound(i: int, j: int, rows: nat, c: nat)
    requires 0 <= i < rows && 0 <= j < c
    ensures 0 <= i * c + j < rows * c
  {
    assert i * c >= 0;
    MulAtLeast(rows - i, c);
    assert rows * c == (rows - i) * c + i * c;
  }

  /** Cell k of the flattened grid is cell (k / c, k % c) of the grid. */
  lemma {:induction false} FlattenAt<T>(g: seq<seq<T>>, c: nat, k: int)
    requires Rectangular(g, c) && c > 0
    requires 0 <= k < |g| * c
    ensures |Flatten(g)| == |g| * c
    ensures 0 <= k / c < |g| && Flatten(g)[k] == g[k / c][k % c]
  {
    FlattenLength(g, c);
    if k < c {
      DivModUnique(k, c, 0, k);
    } else {
      assert |g| * c == (|g| - 1) * c + c;
      FlattenLength(g[1..], c);
      FlattenAt(g[1..], c, k - c);
      DivStep(k, c);
    }
  }

  /** Taking c off a number of at least c takes one off its quotient and keeps its remainder. */
  lemma DivStep(k: int, c: int)
    requires c > 0 && k >= c
    ensures k / c == (k - c) / c + 1 && k % c == (k - c) % c
  {
    var q, r := (k - c) / c, (k - c) % c;
    DivModSplit(k - c, c);
    assert (q + 1) * c == q * c + c;
    DivModUnique(k, c, q + 1, r);
  }

  /** Every element of the flattened grid sits in some cell. */
  lemma {:induction false} FlattenMember<T>(g: seq<seq<T>>, x: T)
    requires x in Flatten(g)
    ensures exists i, j :: 0 <= i < |g| && 0 <= j < |g[i]| && g[i][j] == x
  {
    if |g| > 0 {
      if x in g[0] {
        var j :| 0 <= j < |g[0]| && g[0][j] == x;
        assert g[0][j] == x;
      } else {
        assert x in Flatten(g[1..]);
        FlattenMember(g[1..], x);
        var i, j :| 0 <= i < |g[1..]| && 0 <= j < |g[1..][i]| && g[1..][i][j] == x;
        assert g[i + 1][j] == x;
      }
    }
  }

  /** Replacing row i by r trades the multiset of row i for that of r. */
  lemma {:induction false} FlattenUpdateRow<T>(g: seq<seq<T>>, i: nat, r: seq<T>)
    requires i < |g|
    ensures multiset(Flatten(g[i := r])) + multiset(g[i]) == multiset(Flatten(g)) + multiset(r)
  {
    var h := g[i := r];
    assert h[0] + Flatten(h[1..]) == Flatten(h);
    if i == 0 {
      assert h[1..] == g[1..];
    } else {
      assert h[1..] == g[1..][i - 1 := r];
      FlattenUpdateRow(g[1..], i - 1, r);
      assert g[1..][i - 1] == g[i] && h[0] == g[0];
      calc {
        multiset(Flatten(h)) + multiset(g[i]);
        multiset(g[0]) + (multiset(Flatten(g[1..][i - 1 := r])) + multiset(g[1..][i - 1]));
        multiset(g[0]) + (multiset(Flatten(g[1..])) + multiset(r));
        { assert Flatten(g) == g[0] + Flatten(g[1..]); }
        multiset(Flatten(g)) + multiset(r);
      }
    }
  }

  /** `f` applied to each element, in order (`Array.prototype.map`). */
  function Image<A, B>(f: A -> B, s: seq<A>): (r: seq<B>)
    ensures |r| == |s|
    ensures forall k :: 0 <= k < |s| ==> r[k] == f(s[k])
  {
    if |s| == 0 then [] else [f(s[0])] + Image(f, s[1..])
  }

  /** The present values, in order (`filter(x => x !== undefined)`). */
  function Defined<T>(s: seq<Option<T>>): seq<T>
  {
    if |s| == 0 then [] else (if s[0].Some? then [s[0].value] else []) + Defined(s[1..])
  }

  lemma {:induction false} ImageAppend<A, B>(f: A -> B, s: seq<A>, t: seq<A>)
    ensures Image(f, s + t) == Image(f, s) + Image(f, t)
  {
  }

  lemma {:induction false} DefinedAppend<T>(s: seq<Option<T>>, t: seq<Option<T>>)
    ensures Defined(s + t) == Defined(s) + Defined(t)
  {
    if |s| > 0 {
      assert (s + t)[1..] == s[1..] + t;
      DefinedAppend(s[1..], t);
    } else {
      assert s + t == t;
    }
  }

  /** A rearrangement of `t` whose first element is `s[0]`: split `t` around it. */
  lemma SplitAt<T>(s: seq<T>, t: seq<T>) returns (k: nat)
    requires |s| > 0 && multiset(s) == multiset(t)
    ensures k < |t| && t[k] == s[0]
    ensures t == t[..k] + [s[0]] + t[k + 1..]
    ensures multiset(s[1..]) == multiset(t[..k] + t[k + 1..])
  {
    assert s == [s[0]] + s[1..];
    assert s[0] in multiset(t);
    k :| 0 <= k < |t| && t[k] == s[0];
    var u, w := t[..k], t[k + 1..];
    assert t == u + [s[0]] + w;
    assert multiset(t) == multiset(u + w) + multiset{s[0]};
    assert multiset(s) == multiset(s[1..]) + multiset{s[0]};
    MultisetCancel(multiset(s[1..]), multiset(u + w), multiset{s[0]});
  }

  /** A common part can be taken off both sides of a multiset equation. */
  lemma MultisetCancel<T>(a: multiset<T>, b: multiset<T>, c: multiset<T>)
    requires a + c == b + c
    ensures a == b
  {
    assert forall e :: a[e] == (a + c)[e] - c[e];
  }

  /** The image of a list with one entry picked out. */
  lemma ImageSplit<A, B>(f: A -> B, u: seq<A>, x: A, w: seq<A>)
    ensures Image(f, u + [x] + w) == Image(f, u) + [f(x)] + Image(f, w)
  {
    ImageAppend(f, u + [x], w);
    ImageAppend(f, u, [x]);
  }

  /** Multiset union can be regrouped. */
  lemma MultisetRotate<T>(a: multiset<T>, b: multiset<T>, c: multiset<T>)
    ensures c + (a + b) == a + c + b
  {
  }

  /** Mapping two rearrangements of one list gives two rearrangements of one list. */
  lemma {:induction false} ImageMultiset<A, B>(f: A -> B, s: seq<A>, t: seq<A>)
    requires multiset(s) == multiset(t)
    ensures multiset(Image(f, s)) == multiset(Image(f, t))
  {
    if |s| == 0 {
      assert |t| == 0;
    } else {
      var k := SplitAt(s, t);
      var u, w, x := t[..k], t[k + 1..], s[0];
      ImageMultiset(f, s[1..], u + w);
      ImageAppend(f, u, w);
      ImageSplit(f, u, x, w);
      assert Image(f, s) == [f(x)] + Image(f, s[1..]);
      MultisetRotate(multiset(Image(f, u)), multiset(Image(f, w)), multiset{f(x)});
    }
  }

  /** Filtering two rearrangements of one list gives two rearrangements of one list. */
  lemma {:induction false} DefinedMultiset<T>(s: seq<Option<T>>, t: seq<Option<T>>)
    requires multiset(s) == multiset(t)
    ensures multiset(Defined(s)) == multiset(Defined(t))
  {
    if |s| == 0 {
      assert |t| == 0;
    } else {
      var k := SplitAt(s, t);
      DefinedMultiset(s[1..], t[..k] + t[k + 1..]);
      DefinedAppend(t[..k], t[k + 1..]);
      DefinedAppend(t[..k] + [s[0]], t[k + 1..]);
      DefinedAppend(t[..k], [s[0]]);
      assert s == [s[0]] + s[1..];
      DefinedAppend([s[0]], s[1..]);
      assert [s[0]][1..] == [];
    }
  }

  /** A value that occurs once in a list sits at exactly one index. */
  lemma {:induction false} OccursOnce<T>(s: seq<T>, v: T, a: int, b: int)
    requires multiset(s)[v] == 1
    requires 0 <= a < |s| && 0 <= b < |s| && s[a] == v && s[b] == v
    ensures a == b
  {
    assert s == [s[0]] + s[1..];
    if a != 0 && b != 0 {
      OccursOnce(s[1..], v, a - 1, b - 1);
    }
  }

  /** Each number below m occurs once in 0..m-1, and no other number occurs. */
  lemma RangeCount(m: nat, v: nat)
    ensures multiset(Range(m))[v] == if v < m then 1 else 0
  {
    CountIdentity(Range(m), v);
  }

  /** In a list whose entry k is k, each number below its length occurs once. */
  lemma {:induction false} CountIdentity(s: seq<nat>, v: nat)
    requires forall k :: 0 <= k < |s| ==> s[k] == k
    ensures multiset(s)[v] == if v < |s| then 1 else 0
  {
    if |s| > 0 {
      var init, last := s[..|s| - 1], s[|s| - 1];
      assert s == init + [last];
      CountIdentity(init, v);
      CountAppend(init, last, v);
    }
  }

  /** Appending x adds one to the count of x and nothing to any other count. */
  lemma CountAppend<T>(s: seq<T>, x: T, v: T)
    ensures multiset(s + [x])[v] == multiset(s)[v] + if v == x then 1 else 0
  {
    assert multiset(s + [x]) == multiset(s) + multiset{x};
  }

  /** Every cell's content is in the flattened grid. */
  lemma {:induction false} FlattenHas<T>(g: seq<seq<T>>, i: int, j: int)
    requires 0 <= i < |g| && 0 <= j < |g[i]|
    ensures g[i][j] in multiset(Flatten(g))
  {
    assert Flatten(g) == g[0] + Flatten(g[1..]);
    if i > 0 {
      FlattenHas(g[1..], i - 1, j);
    } else {
      assert g[0][j] in g[0];
    }
  }

  /** A row-major number below n * n names a row below n. */
  lemma DivBelow(k: int, n: nat)
    requires n > 0 && 0 <= k < n * n
    ensures 0 <= k / n < n && 0 <= k % n < n
  {
    var q := k / n;
    if q >= n {
      MulAtLeast(q - n + 1, n);
    }
  }

  /**
   * Reading `s` at the positions of a rearrangement of 0..|s|-1 gives a
   * rearrangement of `s`.
   */
  lemma SelectMultiset<T>(s: seq<T>, t: seq<T>, order: seq<nat>)
    requires |t| == |order| && multiset(order) == multiset(Range(|s|))
    requires forall k :: 0 <= k < |t| ==> order[k] < |s| && t[k] == s[order[k]]
    ensures multiset(t) == multiset(s)
  {
    if |s| == 0 {
      assert |order| == |Range(0)| == 0;
    } else {
      var f := (k: nat) => if k < |s| then s[k] else s[0];
      ImageMultiset(f, order, Range(|s|));
      var a, b := Image(f, order), Image(f, Range(|s|));
      forall k | 0 <= k < |t|
        ensures a[k] == t[k]
      {
        assert a[k] == f(order[k]);
      }
      forall k | 0 <= k < |s|
        ensures b[k] == s[k]
      {
        assert b[k] == f(Range(|s|)[k]);
      }
      assert a == t && b == s;
    }
  }

  /** Overwriting one entry trades one value for another in the multiset. */
  lemma UpdateMultiset<T>(s: seq<T>, i: nat, v: T)
    requires i < |s|
    ensures multiset(s[i := v]) + multiset{s[i]} == multiset(s) + multiset{v}
  {
    assert s == s[..i] + [s[i]] + s[i + 1..];
    assert s[i := v] == s[..i] + [v] + s[i + 1..];
  }

  /** Two one-for-one exchanges that hand back what they took leave a multiset as it was. */
  lemma ExchangeBack<T>(m: multiset<T>, m1: multiset<T>, mr: multiset<T>, x: T, y: T)
    requires m1 + multiset{x} == m + multiset{y}
    requires mr + multiset{y} == m1 + multiset{x}
    ensures mr == m
  {
    forall e
      ensures mr[e] == m[e]
    {
      assert (m1 + multiset{x})[e] == (m + multiset{y})[e];
      assert (mr + multiset{y})[e] == (m1 + multiset{x})[e];
    }
  }

  /** Euclidean division splits a number into quotient and remainder. */
  lemma DivModSplit(k: int, c: int)
    requires c > 0
    ensures k == (k / c) * c + k % c
  {
  }

  /** A rearrangement of a list with no `undefined` entry has none either. */
  lemma SameMultisetAllSome<T>(p: seq<Option<T>>, s: seq<Option<T>>)
    requires multiset(p) == multiset(s)
    requires forall k :: 0 <= k < |s| ==> s[k].Some?
    ensures forall k :: 0 <= k < |p| ==> p[k].Some?
  {
    forall k | 0 <= k < |p|
      ensures p[k].Some?
    {
      assert p[k] in multiset(s);
    }
  }

  /** With no `undefined` entry, filtering keeps every entry in place. */
  lemma {:induction false} DefinedAllSome<T>(s: seq<Option<T>>)
    requires forall k :: 0 <= k < |s| ==> s[k].Some?
    ensures |Defined(s)| == |s| && forall k :: 0 <= k < |s| ==> Defined(s)[k] == s[k].value
  {
    if |s| > 0 {
      DefinedAllSome(s[1..]);
    }
  }
}
