/** The ordering of string keys in an ordered map, and iteration in that order. */
module Ordering {

  /** Strict lexicographic order by code point. */
  predicate Below(a: string, b: string) {
    b != [] && (a == [] || a[0] < b[0] || (a[0] == b[0] && Below(a[1..], b[1..])))
  }

  lemma {:induction false} BelowIrreflexive(a: string)
    ensures !Below(a, a)
  {
    if a != [] {
      BelowIrreflexive(a[1..]);
    }
  }

  lemma {:induction false} BelowTransitive(a: string, b: string, c: string)
    requires Below(a, b) && Below(b, c)
    ensures Below(a, c)
  {
    if a != [] && a[0] == b[0] && b[0] == c[0] {
      BelowTransitive(a[1..], b[1..], c[1..]);
    }
  }

  lemma {:induction false} BelowTotal(a: string, b: string)
    ensures a == b || Below(a, b) || Below(b, a)
  {
    if a != [] && b != [] && a[0] == b[0] {
      BelowTotal(a[1..], b[1..]);
      assert a == [a[0]] + a[1..] && b == [b[0]] + b[1..];
    }
  }

  lemma BelowAsymmetric(a: string, b: string)
    requires Below(a, b)
    ensures !Below(b, a) && a != b
  {
    BelowIrreflexive(a);
    if Below(b, a) {
      BelowTransitive(a, b, a);
    }
  }

  /** A common prefix does not affect the order. */
  lemma {:induction false} BelowAfterPrefix(p: string, a: string, b: string)
    ensures Below(p + a, p + b) <==> Below(a, b)
  {
    if p == [] {
      assert p + a == a && p + b == b;
    } else {
      assert (p + a)[1..] == p[1..] + a && (p + b)[1..] == p[1..] + b;
      BelowAfterPrefix(p[1..], a, b);
    }
  }

  /** A difference at equal length decides the order, whatever follows. */
  lemma {:induction false} BelowExtends(a: string, b: string, x: string, y: string)
    requires |a| == |b| && Below(a, b)
    ensures Below(a + x, b + y)
  {
    assert (a + x)[1..] == a[1..] + x && (b + y)[1..] == b[1..] + y;
    if a[0] == b[0] {
      BelowExtends(a[1..], b[1..], x, y);
    }
  }

  predicate IsLeast(m: string, s: set<string>) {
    m in s && forall x | x in s :: x == m || Below(m, x)
  }

  lemma {:induction false} LeastExists(s: set<string>)
    requires s != {}
    ensures exists m :: IsLeast(m, s)
    decreases |s|
  {
    var x :| x in s;
    var rest := s - {x};
    if rest == {} {
      assert s == {x};
      assert IsLeast(x, s);
    } else {
      LeastExists(rest);
      var m :| IsLeast(m, rest);
      BelowTotal(m, x);
      if Below(m, x) {
        assert IsLeast(m, s);
      } else {
        forall y | y in s ensures y == x || Below(x, y) {
          if y != x && y != m { BelowTransitive(x, m, y); }
        }
        assert IsLeast(x, s);
      }
    }
  }

  lemma LeastUnique(s: set<string>)
    ensures forall a, b | IsLeast(a, s) && IsLeast(b, s) :: a == b
  {
    forall a, b | IsLeast(a, s) && IsLeast(b, s) ensures a == b {
      if a != b { BelowAsymmetric(a, b); }
    }
  }

  function Least(s: set<string>): (m: string)
    requires s != {}
    ensures IsLeast(m, s)
  {
    LeastExists(s);
    LeastUnique(s);
    var m :| m in s && IsLeast(m, s);
    m
  }

  /** The least element of a set is that of any part that holds it. */
  lemma LeastOfPart(part: set<string>, s: set<string>)
    requires part <= s && s != {} && Least(s) in part
    ensures Least(part) == Least(s)
  {
    LeastUnique(part);
    assert IsLeast(Least(s), part);
  }

  predicate Ascending(r: seq<string>) {
    forall i, j :: 0 <= i < j < |r| ==> Below(r[i], r[j])
  }

  /** The elements of a key set in ascending order: how an ordered map is iterated. */
  function InOrder(s: set<string>): (r: seq<string>)
    ensures forall x :: x in r <==> x in s
    decreases |s|
  {
    if s == {} then [] else
      var m := Least(s);
      [m] + InOrder(s - {m})
  }

  lemma {:induction false} InOrderAscending(s: set<string>)
    ensures Ascending(InOrder(s))
    decreases |s|
  {
    if s != {} {
      var m := Least(s);
      var tail := InOrder(s - {m});
      InOrderAscending(s - {m});
      forall i | 0 <= i < |tail| ensures Below(m, tail[i]) {
        assert tail[i] in tail && tail[i] in s - {m};
        assert IsLeast(m, s);
      }
    }
  }
}
