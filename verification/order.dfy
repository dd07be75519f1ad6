/** Python's ordering of `str` values and strictly increasing string sequences (`sorted(set)`). */
module Order {

  /** Python's `a < b` on `str`: lexicographic by code point, a proper prefix sorting first. */
  predicate Less(a: string, b: string) {
    if |a| == 0 then |b| > 0
    else |b| > 0 && (a[0] < b[0] || (a[0] == b[0] && Less(a[1..], b[1..])))
  }

  predicate LessEq(a: string, b: string) {
    a == b || Less(a, b)
  }

  lemma {:induction false} LessIrreflexive(a: string)
    ensures !Less(a, a)
  {
    if |a| > 0 {
      LessIrreflexive(a[1..]);
    }
  }

  lemma {:induction false} LessTransitive(a: string, b: string, c: string)
    requires Less(a, b) && Less(b, c)
    ensures Less(a, c)
  {
    if |a| > 0 && a[0] == b[0] && b[0] == c[0] {
      LessTransitive(a[1..], b[1..], c[1..]);
    }
  }

  lemma {:induction false} LessTotal(a: string, b: string)
    ensures a == b || Less(a, b) || Less(b, a)
  {
    if |a| > 0 && |b| > 0 && a[0] == b[0] {
      LessTotal(a[1..], b[1..]);
      if a[1..] == b[1..] {
        assert a == [a[0]] + a[1..] && b == [b[0]] + b[1..];
      }
    }
  }

  lemma {:induction false} LessAsymmetric(a: string, b: string)
    requires Less(a, b)
    ensures !Less(b, a) && a != b
  {
    LessIrreflexive(a);
    if Less(b, a) {
      LessTransitive(a, b, a);
    }
  }

  /** Strictly increasing: sorted with no duplicates, which is what `sorted(some_set)` returns. */
  predicate Increasing(xs: seq<string>) {
    forall i, j :: 0 <= i < j < |xs| ==> Less(xs[i], xs[j])
  }

  function Elems<T>(xs: seq<T>): set<T> {
    set x | x in xs
  }

  /** Adds `x` to the strictly increasing `xs`, keeping it strictly increasing (`set.add`, then `sorted`). */
  function Insert(xs: seq<string>, x: string): (r: seq<string>)
    requires Increasing(xs)
    ensures Increasing(r)
    ensures Elems(r) == Elems(xs) + {x}
  {
    if |xs| == 0 then [x]
    else if x == xs[0] then xs
    else if Less(x, xs[0]) then
      assert forall j :: 0 < j < |xs| ==> Less(x, xs[j]) by {
        forall j | 0 < j < |xs| ensures Less(x, xs[j]) {
          LessTransitive(x, xs[0], xs[j]);
        }
      }
      assert Elems([x] + xs) == Elems(xs) + {x};
      [x] + xs
    else
      LessTotal(x, xs[0]);
      var tail := Insert(xs[1..], x);
      var r := [xs[0]] + tail;
      assert Elems(xs) == {xs[0]} + Elems(xs[1..]) by {
        assert xs == [xs[0]] + xs[1..];
      }
      assert forall j :: 0 <= j < |tail| ==> Less(xs[0], tail[j]) by {
        forall j | 0 <= j < |tail| ensures Less(xs[0], tail[j]) {
          assert tail[j] in Elems(tail);
        }
      }
      assert Elems(r) == {xs[0]} + Elems(tail);
      r
  }

  /** A strictly increasing sequence is determined by its elements: `sorted` has one answer. */
  lemma {:induction false} IncreasingUnique(xs: seq<string>, ys: seq<string>)
    requires Increasing(xs) && Increasing(ys)
    requires Elems(xs) == Elems(ys)
    ensures xs == ys
  {
    ElemsEmpty(xs);
    ElemsEmpty(ys);
    if |xs| > 0 {
      assert xs[0] in Elems(ys);
      assert |ys| > 0;
      assert ys[0] in Elems(xs);
      MinimumIsFirst(xs, ys[0]);
      MinimumIsFirst(ys, xs[0]);
      if xs[0] != ys[0] {
        LessAsymmetric(xs[0], ys[0]);
      }
      DropFirst(xs);
      DropFirst(ys);
      IncreasingUnique(xs[1..], ys[1..]);
      assert xs == [xs[0]] + xs[1..] && ys == [ys[0]] + ys[1..];
    }
  }

  lemma {:induction false} ElemsEmpty<T>(xs: seq<T>)
    ensures Elems(xs) == {} <==> |xs| == 0
  {
    if |xs| > 0 {
      assert xs[0] in Elems(xs);
    }
  }

  lemma {:induction false} MinimumIsFirst(xs: seq<string>, y: string)
    requires Increasing(xs) && |xs| > 0 && y in xs
    ensures LessEq(xs[0], y)
  {
    var k :| 0 <= k < |xs| && xs[k] == y;
    if k > 0 {
      assert Less(xs[0], xs[k]);
    }
  }

  lemma {:induction false} DropFirst(xs: seq<string>)
    requires Increasing(xs) && |xs| > 0
    ensures Increasing(xs[1..])
    ensures Elems(xs[1..]) == Elems(xs) - {xs[0]}
  {
    assert xs == [xs[0]] + xs[1..];
    forall y | y in xs[1..] ensures y != xs[0] {
      var k :| 0 <= k < |xs[1..]| && xs[1..][k] == y;
      assert Less(xs[0], xs[k + 1]);
      LessIrreflexive(xs[0]);
    }
  }
}
