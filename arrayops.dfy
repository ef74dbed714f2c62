/**
 * The three JavaScript array operations the tier board's drop handler relies on,
 * over sequences of piece ids:
 *  - `s.filter(id => id !== x)`  is  Without(s, x)
 *  - `s.indexOf(x)`              is  IndexOf(s, x)   (-1 when absent)
 *  - `s.splice(i, 0, x)`         is  Splice(s, i, x) (insert x before position i)
 * plus InsertBefore, a reference definition of "put x immediately in front of the
 * first t", which the drop rule is specified with.
 */
module ArrayOps {

  /** `s.filter(id => id !== x)`: every occurrence of x removed, the rest in order. */
  function Without(s: seq<int>, x: int): (r: seq<int>)
    ensures x !in r
    ensures forall y :: y != x ==> (y in r <==> y in s)
  {
    if s == [] then []
    else
      assert s == [s[0]] + s[1..];
      if s[0] == x then Without(s[1..], x) else [s[0]] + Without(s[1..], x)
  }

  /** Filtering drops every copy of x and keeps every copy of anything else. */
  lemma {:induction false} WithoutCount(s: seq<int>, x: int, y: int)
    ensures multiset(Without(s, x))[y] == if y == x then 0 else multiset(s)[y]
  {
    if s != [] {
      assert s == [s[0]] + s[1..];
      WithoutCount(s[1..], x, y);
    }
  }

  /** Filtering out an id that is not there gives back the same sequence. */
  lemma {:induction false} WithoutAbsent(s: seq<int>, x: int)
    requires x !in s
    ensures Without(s, x) == s
  {
    if s != [] {
      WithoutAbsent(s[1..], x);
    }
  }

  /** Filtering works piecewise, so it keeps the relative order of what survives. */
  lemma {:induction false} WithoutConcat(u: seq<int>, v: seq<int>, x: int)
    ensures Without(u + v, x) == Without(u, x) + Without(v, x)
  {
    if u == [] {
      assert u + v == v;
    } else {
      assert (u + v)[0] == u[0];
      assert (u + v)[1..] == u[1..] + v;
      WithoutConcat(u[1..], v, x);
    }
  }

  /** Removing the one occurrence of x from u + [x] + v leaves exactly u + v. */
  lemma WithoutSingle(u: seq<int>, v: seq<int>, x: int)
    requires x !in u && x !in v
    ensures Without(u + [x] + v, x) == u + v
  {
    var w := u + [x];
    WithoutConcat(w, v, x);
    WithoutConcat(u, [x], x);
    WithoutAbsent(u, x);
    WithoutAbsent(v, x);
    assert Without([x], x) == [];
    assert Without(w, x) == u;
  }

  /** `s.indexOf(x)`: a position of x in s, or -1 when s has none (IndexOfFirst: the first). */
  function IndexOf(s: seq<int>, x: int): (r: int)
    ensures -1 <= r < |s|
    ensures r == -1 <==> x !in s
    ensures 0 <= r ==> s[r] == x
  {
    if s == [] then -1
    else if s[0] == x then 0
    else
      var k := IndexOf(s[1..], x);
      if k == -1 then -1 else k + 1
  }

  /** No x comes before the position indexOf reports. */
  lemma {:induction false} IndexOfFirst(s: seq<int>, x: int)
    requires x in s
    ensures x !in s[..IndexOf(s, x)]
  {
    if s[0] != x {
      var k := IndexOf(s[1..], x);
      IndexOfFirst(s[1..], x);
      assert s[..k + 1] == [s[0]] + s[1..][..k];
    }
  }

  /** `s.splice(i, 0, x)`: x inserted so that it ends up at position i. */
  function Splice(s: seq<int>, i: int, x: int): (r: seq<int>)
    requires 0 <= i <= |s|
    ensures |r| == |s| + 1 && r[i] == x
    ensures r[..i] + r[i + 1..] == s
  {
    var r := s[..i] + [x] + s[i..];
    assert r[..i] == s[..i] && r[i + 1..] == s[i..];
    r
  }

  /** Reference definition: x put immediately in front of the first occurrence of t. */
  function InsertBefore(s: seq<int>, t: int, x: int): (r: seq<int>)
    requires t in s
    ensures |r| == |s| + 1
  {
    if s[0] == t then [x] + s else [s[0]] + InsertBefore(s[1..], t, x)
  }

  /** Inserting adds one copy of x and changes nothing else. */
  lemma {:induction false} InsertBeforeCount(s: seq<int>, t: int, x: int)
    requires t in s
    ensures multiset(InsertBefore(s, t, x)) == multiset(s) + multiset{x}
  {
    assert s == [s[0]] + s[1..];
    if s[0] != t {
      InsertBeforeCount(s[1..], t, x);
    }
  }

  /** Splicing at indexOf(t) is inserting in front of the first t. */
  lemma {:induction false} SpliceAtIndexOf(s: seq<int>, t: int, x: int)
    requires t in s
    ensures Splice(s, IndexOf(s, t), x) == InsertBefore(s, t, x)
  {
    if s[0] == t {
      assert s[..0] + [x] + s[0..] == [x] + s;
    } else {
      var s' := s[1..];
      var k' := IndexOf(s', t);
      assert IndexOf(s, t) == k' + 1;
      SpliceCons(s, k', x);
      SpliceAtIndexOf(s', t, x);
      assert InsertBefore(s, t, x) == [s[0]] + InsertBefore(s', t, x);
    }
  }

  /** Splicing one past the head is splicing into the tail. */
  lemma SpliceCons(s: seq<int>, k: int, x: int)
    requires 0 <= k < |s|
    ensures Splice(s, k + 1, x) == [s[0]] + Splice(s[1..], k, x)
  {
    var s' := s[1..];
    assert s[..k + 1] == [s[0]] + s'[..k];
    assert s[k + 1..] == s'[k..];
    assert ([s[0]] + s'[..k]) + [x] + s'[k..] == [s[0]] + (s'[..k] + [x] + s'[k..]);
  }

  /**
   * In InsertBefore(s, t, x) the new x sits directly in front of the first t, nothing
   * before it is a t, and taking x out again gives back s.
   */
  lemma InsertBeforeAdjacent(s: seq<int>, t: int, x: int)
    requires t in s
    ensures var r, k := InsertBefore(s, t, x), IndexOf(s, t);
      0 <= k && k + 1 < |r| && r[k] == x && r[k + 1] == t &&
      t !in r[..k] && r[..k] + r[k + 1..] == s
  {
    SpliceAtIndexOf(s, t, x);
    IndexOfFirst(s, t);
    var k := IndexOf(s, t);
    var r := Splice(s, k, x);
    assert r[..k] == s[..k];
    assert r[k + 1] == s[k];
  }

  /** Filtering the inserted x out again undoes the insertion when s held no x. */
  lemma InsertBeforeWithout(s: seq<int>, t: int, x: int)
    requires t in s && x !in s
    ensures Without(InsertBefore(s, t, x), x) == s
  {
    InsertBeforeAdjacent(s, t, x);
    var r, k := InsertBefore(s, t, x), IndexOf(s, t);
    var u, v := r[..k], r[k + 1..];
    SplitAt(r, k);
    NotInParts(u, v, x);
    WithoutSingle(u, v, x);
  }

  /** A sequence is its prefix, its k-th element and its suffix. */
  lemma SplitAt(r: seq<int>, k: int)
    requires 0 <= k < |r|
    ensures r == r[..k] + [r[k]] + r[k + 1..]
  {
    assert r[k..] == [r[k]] + r[k + 1..];
  }

  /** What is not in u + v is in neither part. */
  lemma NotInParts(u: seq<int>, v: seq<int>, x: int)
    requires x !in u + v
    ensures x !in u && x !in v
  {
  }
}
