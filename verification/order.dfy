/** Python's ordering of strings (and of sibling paths, which compare by name), and
    `sorted()` over a set of names. */
module Order {
  import opened PyStr

  /** `a < b`: lexicographic by code point, a proper prefix sorting first. */
  predicate Less(a: string, b: string) {
    if |a| == 0 then |b| > 0
    else |b| > 0 && (a[0] < b[0] || (a[0] == b[0] && Less(a[1..], b[1..])))
  }

  predicate LessEq(a: string, b: string) {
    a == b || Less(a, b)
  }

  lemma {:induction false} LessIrreflexive(a: string)
    ensures !Less(a, a)
    decreases |a|
  {
    if |a| > 0 {
      LessIrreflexive(a[1..]);
    }
  }

  lemma {:induction false} LessAsymmetric(a: string, b: string)
    ensures Less(a, b) ==> !Less(b, a)
    decreases |a|
  {
    if |a| > 0 && |b| > 0 {
      LessAsymmetric(a[1..], b[1..]);
    }
  }

  lemma {:induction false} LessTransitive(a: string, b: string, c: string)
    requires Less(a, b) && Less(b, c)
    ensures Less(a, c)
    decreases |a|
  {
    if |a| > 0 && a[0] == b[0] && b[0] == c[0] {
      LessTransitive(a[1..], b[1..], c[1..]);
    }
  }

  lemma {:induction false} LessTotal(a: string, b: string)
    ensures a == b || Less(a, b) || Less(b, a)
    decreases |a|
  {
    if |a| > 0 && |b| > 0 && a[0] == b[0] {
      LessTotal(a[1..], b[1..]);
      if a[1..] == b[1..] {
        assert a == [a[0]] + a[1..] && b == [b[0]] + b[1..];
      }
    }
  }

  predicate IsLeast(m: string, names: set<string>) {
    m in names && forall x | x in names :: LessEq(m, x)
  }

  /** Every non-empty set of names has a least one. */
  lemma {:induction false} LeastExists(names: set<string>)
    requires names != {}
    ensures exists m :: IsLeast(m, names)
    decreases |names|
  {
    var x :| x in names;
    var rest := names - {x};
    if rest == {} {
      assert names == {x};
      assert IsLeast(x, names);
    } else {
      LeastExists(rest);
      var m :| IsLeast(m, rest);
      LessTotal(m, x);
      if Less(x, m) {
        forall y | y in names ensures LessEq(x, y) {
          if y != x && y != m {
            assert y in rest;
            LessTransitive(x, m, y);
          }
        }
        assert IsLeast(x, names);
      } else {
        assert IsLeast(m, names);
      }
    }
  }

  lemma LeastUnique(m1: string, m2: string, names: set<string>)
    requires IsLeast(m1, names) && IsLeast(m2, names)
    ensures m1 == m2
  {
    LessAsymmetric(m1, m2);
  }

  function Least(names: set<string>): (m: string)
    requires names != {}
    ensures IsLeast(m, names)
  {
    LeastExists(names);
    assert forall a, b | IsLeast(a, names) && IsLeast(b, names) :: a == b by {
      forall a, b | IsLeast(a, names) && IsLeast(b, names) ensures a == b {
        LeastUnique(a, b, names);
      }
    }
    var m :| IsLeast(m, names);
    m
  }

  predicate StrictlySorted(xs: seq<string>) {
    forall i, j | 0 <= i < j < |xs| :: Less(xs[i], xs[j])
  }

  /** `sorted(names)`: every name once, in increasing order. */
  function Sorted(names: set<string>): (r: seq<string>)
    ensures |r| == |names|
    ensures forall x :: x in r <==> x in names
    ensures StrictlySorted(r)
    decreases |names|
  {
    if names == {} then []
    else
      var m := Least(names);
      var rest := Sorted(names - {m});
      assert forall j | 0 <= j < |rest| :: Less(m, rest[j]) by {
        forall j | 0 <= j < |rest| ensures Less(m, rest[j]) {
          assert rest[j] in names - {m};
        }
      }
      [m] + rest
  }

  /** A strictly sorted sequence is fixed by the set of its members. */
  lemma {:induction false} SortedUnique(xs: seq<string>, ys: seq<string>)
    requires StrictlySorted(xs) && StrictlySorted(ys)
    requires forall x :: x in xs <==> x in ys
    ensures xs == ys
    decreases |xs|
  {
    if |xs| > 0 {
      assert xs[0] in xs;
    }
    if |ys| > 0 {
      assert ys[0] in ys;
    }
    if |xs| > 0 && |ys| > 0 {
      assert xs[0] in ys && ys[0] in xs;
      if xs[0] != ys[0] {
        var i :| 0 <= i < |ys| && ys[i] == xs[0];
        var j :| 0 <= j < |xs| && xs[j] == ys[0];
        assert Less(ys[0], xs[0]) by {
          assert i > 0;
        }
        assert Less(xs[0], ys[0]) by {
          assert j > 0;
        }
        LessAsymmetric(xs[0], ys[0]);
      }
      LessIrreflexive(xs[0]);
      forall x | x in xs[1..] ensures x in ys[1..] {
        var k :| 0 <= k < |xs[1..]| && xs[1..][k] == x;
        assert Less(xs[0], xs[k + 1]);
        assert x in xs;
        assert x in ys;
        var i :| 0 <= i < |ys| && ys[i] == x;
        assert i != 0;
        assert ys[1..][i - 1] == x;
      }
      forall x | x in ys[1..] ensures x in xs[1..] {
        var k :| 0 <= k < |ys[1..]| && ys[1..][k] == x;
        assert Less(ys[0], ys[k + 1]);
        assert x in ys;
        assert x in xs;
        var i :| 0 <= i < |xs| && xs[i] == x;
        assert i != 0;
        assert xs[1..][i - 1] == x;
      }
      SortedUnique(xs[1..], ys[1..]);
    }
  }

  /** The last element of a sorted sequence is its greatest. */
  lemma LastIsGreatest(xs: seq<string>)
    requires StrictlySorted(xs) && |xs| > 0
    ensures forall x | x in xs :: LessEq(x, xs[|xs| - 1])
  {
    forall x | x in xs ensures LessEq(x, xs[|xs| - 1]) {
      var i :| 0 <= i < |xs| && xs[i] == x;
      if i < |xs| - 1 {
        assert Less(xs[i], xs[|xs| - 1]);
      }
    }
  }

  /** A strictly sorted sequence holds each name once. */
  lemma StrictlySortedDistinct(xs: seq<string>, i: nat)
    requires StrictlySorted(xs) && i < |xs|
    ensures forall j | 0 <= j < |xs| && j != i :: xs[j] != xs[i]
  {
    forall j | 0 <= j < |xs| && j != i ensures xs[j] != xs[i] {
      LessIrreflexive(xs[i]);
    }
  }
}
