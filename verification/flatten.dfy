/**
 * yaml_to_csv.py: every record is flattened into a dict from paths (tuples of keys and
 * indices) to the text of the scalar found there; the union of the paths, sorted, gives the
 * CSV columns, labelled `a.b[0].c`.
 */
module Flatten {
  import opened Wrappers
  import opened Text
  import opened Order
  import opened Tree

  /** One element of a flattened path: a mapping key (`str`) or a list index (`int`). */
  datatype Fragment = K(key: string) | I(index: nat)

  type Path = seq<Fragment>

  /** The text `flatten` stores for a leaf: a string as is, another scalar through `str()`. */
  function LeafText(n: Node): (r: Option<string>)
    ensures r.Some? <==> n.Str? || n.Scalar?
  {
    match n
    case Str(s) => Some(s)
    case Scalar(text, _) => Some(text)
    case _ => None
  }

  /** The walk a path denotes. */
  function Segments(p: Path): (r: seq<Segment>)
    ensures |r| == |p|
    ensures forall i :: 0 <= i < |p| ==> r[i] == (match p[i] case K(k) => Key(k) case I(j) => Index(j))
  {
    seq(|p|, i requires 0 <= i < |p| => match p[i] case K(k) => Key(k) case I(j) => Index(j))
  }

  /** `path + (fragment,)` for every leaf found below one child. */
  function Under(f: Fragment, leaves: seq<(Path, string)>): (r: seq<(Path, string)>)
    ensures |r| == |leaves|
    ensures forall i :: 0 <= i < |leaves| ==> r[i] == ([f] + leaves[i].0, leaves[i].1)
  {
    seq(|leaves|, i requires 0 <= i < |leaves| => ([f] + leaves[i].0, leaves[i].1))
  }

  /**
   * The assignments `flatten(paths, flat, (), n)` performs, in order: a depth-first walk over
   * mappings (in key order) and lists (by index), one `(path, text)` per scalar; `None` is skipped.
   */
  function Leaves(n: Node): seq<(Path, string)>
    decreases n, 1
  {
    match n
    case Null => []
    case Str(s) => [([], s)]
    case Scalar(text, _) => [([], text)]
    case List(xs) => ItemLeaves(n, |xs|)
    case Map(es) => EntryLeaves(n, |es|)
  }

  /** The leaves below the first `k` items of a list. */
  function ItemLeaves(list: Node, k: nat): seq<(Path, string)>
    requires list.List? && k <= |list.items|
    decreases list, 0, k
  {
    if k == 0 then []
    else ItemLeaves(list, k - 1) + Under(I(k - 1), Leaves(list.items[k - 1]))
  }

  /** The leaves below the first `k` entries of a mapping. */
  function EntryLeaves(mapping: Node, k: nat): seq<(Path, string)>
    requires mapping.Map? && k <= |mapping.entries|
    decreases mapping, 0, k
  {
    if k == 0 then []
    else
      assert mapping.entries[k - 1] in mapping.entries;
      EntryLeaves(mapping, k - 1) + Under(K(mapping.entries[k - 1].0), Leaves(mapping.entries[k - 1].1))
  }

  /** The dict `flat` after the assignments in order: a later assignment to a path wins. */
  function Flat(leaves: seq<(Path, string)>): (flat: map<Path, string>)
    ensures forall p :: p in flat <==> exists v :: (p, v) in leaves
    ensures forall p :: p in flat ==> (p, flat[p]) in leaves
  {
    if |leaves| == 0 then map[]
    else
      var prefix := leaves[..|leaves| - 1];
      var last := leaves[|leaves| - 1];
      var flat := Flat(prefix)[last.0 := last.1];
      assert leaves == prefix + [last];
      assert forall p, v :: (p, v) in leaves <==> (p, v) in prefix || (p, v) == last;
      flat
  }

  /** `flatten` records a leaf at `p` exactly when the tree holds a non-`None` scalar there. */
  lemma {:induction false} LeavesAreTreeLeaves(n: Node, p: Path, v: string)
    requires WellFormed(n)
    ensures (p, v) in Leaves(n) <==> LeafText(Walk(n, Segments(p))) == Some(v)
    decreases n, 1
  {
    if n.List? {
      ListLeavesAt(n, p, v);
    } else if n.Map? {
      MapLeavesAt(n, p, v);
    } else if |p| > 0 {
      assert Segments(p)[1..] == Segments(p[1..]);
      WalkNull(Segments(p[1..]));
    } else if n.Null? {
      WalkNull(Segments(p));
    }
  }

  lemma {:induction false} ListLeavesAt(n: Node, p: Path, v: string)
    requires n.List? && WellFormed(n)
    ensures (p, v) in Leaves(n) <==> LeafText(Walk(n, Segments(p))) == Some(v)
    decreases n, 0
  {
    var xs := n.items;
    ItemLeavesAt(n, |xs|, p, v);
    if |p| > 0 {
      assert Segments(p)[1..] == Segments(p[1..]);
      if p[0].I? && p[0].index < |xs| {
        LeavesAreTreeLeaves(xs[p[0].index], p[1..], v);
      } else {
        WalkNull(Segments(p[1..]));
      }
    }
  }

  lemma {:induction false} MapLeavesAt(n: Node, p: Path, v: string)
    requires n.Map? && WellFormed(n)
    ensures (p, v) in Leaves(n) <==> LeafText(Walk(n, Segments(p))) == Some(v)
    decreases n, 0
  {
    var es := n.entries;
    EntryLeavesAt(n, |es|, p, v);
    if |p| > 0 {
      assert Segments(p)[1..] == Segments(p[1..]);
      if j :| 0 <= j < |es| && p[0] == K(es[j].0) {
        FindDistinct(es, j);
        assert es[j] in es;
        LeavesAreTreeLeaves(es[j].1, p[1..], v);
      } else {
        WalkNull(Segments(p[1..]));
      }
    }
  }

  /** A leaf below the first `k` items sits below one of them, and the other way round. */
  lemma {:induction false} ItemLeavesAt(list: Node, k: nat, p: Path, v: string)
    requires list.List? && k <= |list.items| && WellFormed(list)
    ensures (p, v) in ItemLeaves(list, k) <==>
      |p| > 0 && p[0].I? && p[0].index < k && (p[1..], v) in Leaves(list.items[p[0].index])
    decreases list, 0, k
  {
    if k > 0 {
      ItemLeavesAt(list, k - 1, p, v);
      UnderHas(I(k - 1), Leaves(list.items[k - 1]), p, v);
    }
  }

  lemma {:induction false} EntryLeavesAt(mapping: Node, k: nat, p: Path, v: string)
    requires mapping.Map? && k <= |mapping.entries| && WellFormed(mapping)
    ensures (p, v) in EntryLeaves(mapping, k) <==>
      |p| > 0 && p[0].K? && (exists j :: 0 <= j < k && mapping.entries[j].0 == p[0].key && (p[1..], v) in Leaves(mapping.entries[j].1))
    decreases mapping, 0, k
  {
    if k > 0 {
      EntryLeavesAt(mapping, k - 1, p, v);
      assert mapping.entries[k - 1] in mapping.entries;
      UnderHas(K(mapping.entries[k - 1].0), Leaves(mapping.entries[k - 1].1), p, v);
    }
  }

  lemma {:induction false} UnderHas(f: Fragment, leaves: seq<(Path, string)>, p: Path, v: string)
    ensures (p, v) in Under(f, leaves) <==> |p| > 0 && p[0] == f && (p[1..], v) in leaves
  {
    if (p, v) in Under(f, leaves) {
      var i :| 0 <= i < |leaves| && Under(f, leaves)[i] == (p, v);
      assert p[1..] == leaves[i].0;
    }
    if |p| > 0 && p[0] == f && (p[1..], v) in leaves {
      var i :| 0 <= i < |leaves| && leaves[i] == (p[1..], v);
      assert p == [f] + p[1..];
    }
  }

  /** After `flatten`, `flat` holds exactly the record's scalars, each under its own path. */
  lemma {:induction false} FlatIsTree(n: Node, p: Path)
    requires WellFormed(n)
    ensures p in Flat(Leaves(n)) <==> LeafText(Walk(n, Segments(p))).Some?
    ensures p in Flat(Leaves(n)) ==> LeafText(Walk(n, Segments(p))) == Some(Flat(Leaves(n))[p])
  {
    var flat := Flat(Leaves(n));
    var found := LeafText(Walk(n, Segments(p)));
    if p in flat {
      LeavesAreTreeLeaves(n, p, flat[p]);
    }
    if found.Some? {
      LeavesAreTreeLeaves(n, p, found.value);
    }
  }

  // Column labels

  /** What one fragment adds to a label: `.key` (no dot before the first fragment) or `[index]`. */
  function Piece(f: Fragment, first: bool): (r: string)
    ensures f.I? || !first ==> |r| > 0 && (r[0] == '.' || r[0] == '[')
  {
    match f
    case K(k) => if first then k else "." + k
    case I(i) => "[" + Decimal(i) + "]"
  }

  /** The label of a column, `a.b[0].c` for `('a', 'b', 0, 'c')`. */
  function Label(p: Path): string {
    if |p| == 0 then "" else Piece(p[0], true) + Tail(p[1..])
  }

  /** The label text of the fragments after the first. */
  function Tail(q: Path): (r: string)
    ensures |q| > 0 ==> |r| > 0 && (r[0] == '.' || r[0] == '[')
  {
    if |q| == 0 then "" else Piece(q[0], false) + Tail(q[1..])
  }

  /** The labelling loop: a `'.'` goes before a key only once `label_fragments` is non-empty. */
  method LabelOf(p: Path) returns (text: string)
    ensures text == Label(p)
  {
    var fragments: seq<string> := [];
    for i := 0 to |p|
      invariant Concat(fragments) == Label(p[..i])
      invariant fragments == [] <==> i == 0
    {
      ghost var before := fragments;
      match p[i] {
        case K(k) =>
          if fragments != [] {
            fragments := fragments + ["."];
          }
          fragments := fragments + [k];
          assert fragments == before + Appended(p[i], i == 0);
        case I(j) =>
          fragments := fragments + ["[" + Decimal(j) + "]"];
      }
      LabelStep(p, i, before);
    }
    assert p[..|p|] == p;
    text := Concat(fragments);
  }

  /** `''.join(fragments)`. */
  function Concat(fragments: seq<string>): string {
    if |fragments| == 0 then "" else Concat(fragments[..|fragments| - 1]) + fragments[|fragments| - 1]
  }

  /** The strings one fragment appends to `label_fragments`. */
  function Appended(f: Fragment, first: bool): seq<string> {
    match f
    case K(k) => if first then [k] else [".", k]
    case I(i) => ["[" + Decimal(i) + "]"]
  }

  lemma {:induction false} ConcatAppended(fragments: seq<string>, f: Fragment, first: bool)
    ensures Concat(fragments + Appended(f, first)) == Concat(fragments) + Piece(f, first)
  {
    var added := Appended(f, first);
    ConcatSnoc(fragments, added[0]);
    if |added| == 2 {
      assert fragments + added == (fragments + [added[0]]) + [added[1]];
      ConcatSnoc(fragments + [added[0]], added[1]);
    }
  }

  lemma {:induction false} ConcatSnoc(fragments: seq<string>, x: string)
    ensures Concat(fragments + [x]) == Concat(fragments) + x
  {
    assert (fragments + [x])[..|fragments|] == fragments;
  }

  lemma {:induction false} LabelStep(p: Path, i: nat, fragments: seq<string>)
    requires i < |p|
    requires Concat(fragments) == Label(p[..i])
    ensures Concat(fragments + Appended(p[i], i == 0)) == Label(p[..i + 1])
  {
    ConcatAppended(fragments, p[i], i == 0);
    LabelSnoc(p[..i], p[i]);
    assert p[..i + 1] == p[..i] + [p[i]];
  }

  lemma {:induction false} LabelSnoc(p: Path, f: Fragment)
    ensures Label(p + [f]) == Label(p) + Piece(f, |p| == 0)
  {
    var q := p + [f];
    if |p| > 0 {
      assert q[0] == p[0];
      assert q[1..] == p[1..] + [f];
      TailSnoc(p[1..], f);
      var head := Piece(p[0], true);
      assert Label(q) == head + (Tail(p[1..]) + Piece(f, false));
      assert Label(q) == (head + Tail(p[1..])) + Piece(f, false);
    } else {
      assert q[1..] == [];
      assert Label(q) == Piece(f, true) + "";
    }
  }

  lemma {:induction false} TailSnoc(q: Path, f: Fragment)
    ensures Tail(q + [f]) == Tail(q) + Piece(f, false)
  {
    if |q| > 0 {
      assert (q + [f])[1..] == q[1..] + [f];
      TailSnoc(q[1..], f);
    } else {
      assert q + [f] == [f];
    }
  }

  /** Keys that a label renders unambiguously: non-empty, with no `'.'` and no `'['`. */
  predicate Clean(p: Path) {
    forall i :: 0 <= i < |p| ==> CleanFragment(p[i])
  }

  predicate CleanFragment(f: Fragment) {
    f.I? || (|f.key| > 0 && '.' !in f.key && '[' !in f.key)
  }

  /** Length of the longest prefix of `s` that can be part of a key. */
  function KeyLength(s: string): (k: nat)
    ensures k <= |s|
  {
    if |s| == 0 || s[0] == '.' || s[0] == '[' then 0 else 1 + KeyLength(s[1..])
  }

  /** Length of the longest all-digit prefix of `s`. */
  function DigitLength(s: string): (k: nat)
    ensures k <= |s|
    ensures forall i :: 0 <= i < k ==> IsDigit(s[i])
  {
    if |s| == 0 || !IsDigit(s[0]) then 0 else 1 + DigitLength(s[1..])
  }

  /** Reads back the fragments after the first from their label text; `None` when it is not one. */
  function ParseTail(s: string): Option<Path>
    decreases |s|
  {
    if |s| == 0 then Some([])
    else if s[0] == '.' then
      var k := KeyLength(s[1..]);
      if k == 0 then None
      else
        match ParseTail(s[1 + k..])
        case None => None
        case Some(rest) => Some([K(s[1..1 + k])] + rest)
    else if s[0] == '[' then
      var d := DigitLength(s[1..]);
      if d == 0 || 1 + d == |s| || s[1 + d] != ']' then None
      else
        match ParseTail(s[2 + d..])
        case None => None
        case Some(rest) => Some([I(DigitsValue(s[1..1 + d]))] + rest)
    else None
  }

  /** Reads a column path back from its label. */
  function ParseLabel(s: string): Option<Path> {
    if |s| == 0 || s[0] == '[' then ParseTail(s)
    else
      var k := KeyLength(s);
      if k == 0 then None
      else
        match ParseTail(s[k..])
        case None => None
        case Some(rest) => Some([K(s[..k])] + rest)
  }

  lemma {:induction false} KeyLengthOf(k: string, t: string)
    requires '.' !in k && '[' !in k
    requires |t| == 0 || t[0] == '.' || t[0] == '['
    ensures KeyLength(k + t) == |k|
  {
    if |k| > 0 {
      assert (k + t)[1..] == k[1..] + t;
      KeyLengthOf(k[1..], t);
    } else {
      assert k + t == t;
    }
  }

  lemma {:induction false} DigitLengthOf(d: string, t: string)
    requires forall i :: 0 <= i < |d| ==> IsDigit(d[i])
    requires |t| > 0 && t[0] == ']'
    ensures DigitLength(d + t) == |d|
  {
    if |d| > 0 {
      assert (d + t)[1..] == d[1..] + t;
      DigitLengthOf(d[1..], t);
    } else {
      assert d + t == t;
    }
  }

  lemma {:induction false} PieceParse(f: Fragment, t: string)
    requires CleanFragment(f)
    requires |t| == 0 || t[0] == '.' || t[0] == '['
    ensures ParseTail(Piece(f, false) + t) == (match ParseTail(t) case None => None case Some(rest) => Some([f] + rest))
  {
    if f.K? {
      KeyPieceParse(f.key, t);
    } else {
      IndexPieceParse(f.index, t);
    }
  }

  lemma {:induction false} KeyPieceParse(k: string, t: string)
    requires |k| > 0 && '.' !in k && '[' !in k
    requires |t| == 0 || t[0] == '.' || t[0] == '['
    ensures ParseTail("." + k + t) == (match ParseTail(t) case None => None case Some(rest) => Some([K(k)] + rest))
  {
    var s := "." + k + t;
    var u := s[1..];
    assert u == k + t;
    KeyLengthOf(k, t);
    assert u[..|k|] == k && u[|k|..] == t;
    assert s[1..1 + |k|] == u[..|k|];
    assert s[1 + |k|..] == u[|k|..];
  }

  lemma {:induction false} IndexPieceParse(i: nat, t: string)
    requires |t| == 0 || t[0] == '.' || t[0] == '['
    ensures ParseTail("[" + Decimal(i) + "]" + t) == (match ParseTail(t) case None => None case Some(rest) => Some([I(i)] + rest))
  {
    var d := Decimal(i);
    var s := "[" + d + "]" + t;
    var u := s[1..];
    assert u == d + ("]" + t);
    DigitLengthOf(d, "]" + t);
    assert u[..|d|] == d && u[|d| + 1..] == t;
    assert s[1..1 + |d|] == u[..|d|];
    assert s[2 + |d|..] == u[|d| + 1..];
  }

  lemma {:induction false} TailRoundTrip(q: Path)
    requires Clean(q)
    ensures ParseTail(Tail(q)) == Some(q)
  {
    if |q| > 0 {
      assert CleanFragment(q[0]);
      assert Clean(q[1..]);
      TailRoundTrip(q[1..]);
      PieceParse(q[0], Tail(q[1..]));
      assert q == [q[0]] + q[1..];
    }
  }

  /** A label reads back as the path it was made from, when the keys render unambiguously. */
  lemma {:induction false} LabelRoundTrip(p: Path)
    requires Clean(p)
    ensures ParseLabel(Label(p)) == Some(p)
  {
    if |p| > 0 {
      assert Clean(p[1..]);
      TailRoundTrip(p[1..]);
      assert p == [p[0]] + p[1..];
      match p[0]
      case I(i) =>
        IndexPieceParse(i, Tail(p[1..]));
      case K(k) =>
        var s := Label(p);
        assert s == k + Tail(p[1..]);
        KeyLengthOf(k, Tail(p[1..]));
        assert s[..|k|] == k;
        assert s[|k|..] == Tail(p[1..]);
    }
  }

  /** Distinct columns get distinct labels when their keys render unambiguously. */
  lemma {:induction false} LabelInjective(p: Path, q: Path)
    requires Clean(p) && Clean(q) && p != q
    ensures Label(p) != Label(q)
  {
    LabelRoundTrip(p);
    LabelRoundTrip(q);
  }

  /** Without the restriction, labels collide: key `'a.b'` and keys `'a'`, `'b'` give the same column name. */
  lemma {:induction false} DottedKeyCollides()
    ensures Label([K("a.b")]) == Label([K("a"), K("b")])
  {
    assert Label([K("a"), K("b")]) == "a" + ("." + "b");
  }

  // Ordering the columns

  /** The exception `sorted` raises. */
  datatype Raise = TypeError

  /**
   * Python 3's `a < b` on path tuples: the first position where they differ decides, and a
   * proper prefix sorts first. Comparing a `str` fragment with an `int` one raises.
   */
  function PyLess(a: Path, b: Path): Result<bool, Raise>
    decreases |a|
  {
    if |a| == 0 || |b| == 0 then Ok(|a| == 0 && |b| > 0)
    else if a[0] == b[0] then PyLess(a[1..], b[1..])
    else
      match (a[0], b[0])
      case (K(x), K(y)) => Ok(Less(x, y))
      case (I(x), I(y)) => Ok(x < y)
      case _ => Err(TypeError)
  }

  /** Python 2's order on two different fragments: every `int` before every `str`. */
  predicate FragmentLess(a: Fragment, b: Fragment) {
    match (a, b)
    case (K(x), K(y)) => Less(x, y)
    case (I(x), I(y)) => x < y
    case (I(_), K(_)) => true
    case (K(_), I(_)) => false
  }

  /** The same tuple comparison with fragments ordered as in Python 2, which never raises. */
  predicate PathLess(a: Path, b: Path)
    decreases |a|
  {
    if |a| == 0 || |b| == 0 then |a| == 0 && |b| > 0
    else if a[0] == b[0] then PathLess(a[1..], b[1..])
    else FragmentLess(a[0], b[0])
  }

  /** Wherever Python 3 can compare two paths, it agrees with `PathLess`. */
  lemma {:induction false} PathLessAgrees(a: Path, b: Path)
    ensures PyLess(a, b).Ok? ==> PyLess(a, b).value == PathLess(a, b)
    ensures PyLess(a, b).Err? <==> PyLess(b, a).Err?
    decreases |a|
  {
    if |a| > 0 && |b| > 0 && a[0] == b[0] {
      PathLessAgrees(a[1..], b[1..]);
    }
  }

  lemma {:induction false} FragmentLessTotal(a: Fragment, b: Fragment)
    requires a != b
    ensures FragmentLess(a, b) != FragmentLess(b, a)
  {
    if a.K? && b.K? {
      LessTotal(a.key, b.key);
      if Less(a.key, b.key) {
        LessAsymmetric(a.key, b.key);
      }
    }
  }

  lemma {:induction false} FragmentLessTransitive(a: Fragment, b: Fragment, c: Fragment)
    requires FragmentLess(a, b) && FragmentLess(b, c)
    ensures FragmentLess(a, c) && a != c
  {
    if a.K? && b.K? && c.K? {
      LessTransitive(a.key, b.key, c.key);
      LessIrreflexive(a.key);
    }
  }

  lemma {:induction false} FragmentLessIrreflexive(a: Fragment)
    ensures !FragmentLess(a, a)
  {
    if a.K? {
      LessIrreflexive(a.key);
    }
  }

  /** `PathLess` is a strict total order: exactly one of `a < b`, `a == b`, `b < a` holds. */
  lemma {:induction false} PathLessTotal(a: Path, b: Path)
    ensures a == b <==> !PathLess(a, b) && !PathLess(b, a)
    ensures !(PathLess(a, b) && PathLess(b, a))
    decreases |a|
  {
    if |a| > 0 && |b| > 0 {
      if a[0] == b[0] {
        PathLessTotal(a[1..], b[1..]);
        if a[1..] == b[1..] {
          assert a == [a[0]] + a[1..] && b == [b[0]] + b[1..];
        }
      } else {
        FragmentLessTotal(a[0], b[0]);
      }
    }
  }

  lemma {:induction false} PathLessTransitive(a: Path, b: Path, c: Path)
    requires PathLess(a, b) && PathLess(b, c)
    ensures PathLess(a, c)
    decreases |a|
  {
    if |a| > 0 && |b| > 0 && |c| > 0 {
      if a[0] == b[0] && b[0] == c[0] {
        PathLessTransitive(a[1..], b[1..], c[1..]);
      } else if a[0] != b[0] && b[0] != c[0] {
        FragmentLessTransitive(a[0], b[0], c[0]);
      }
    }
  }

  predicate PathsIncreasing(xs: seq<Path>) {
    forall i, j :: 0 <= i < j < |xs| ==> PathLess(xs[i], xs[j])
  }

  /** Adds `x` to the strictly increasing `xs`, keeping it strictly increasing. */
  function PathInsert(xs: seq<Path>, x: Path): (r: seq<Path>)
    requires PathsIncreasing(xs)
    ensures PathsIncreasing(r)
    ensures Elems(r) == Elems(xs) + {x}
  {
    if |xs| == 0 then [x]
    else if x == xs[0] then xs
    else if PathLess(x, xs[0]) then
      PrependIncreasing(x, xs);
      [x] + xs
    else
      PathLessTotal(x, xs[0]);
      var tail := PathInsert(xs[1..], x);
      ConsIncreasing(xs, tail, x);
      [xs[0]] + tail
  }

  /** A path below the first of an increasing sequence can go in front of it. */
  lemma {:induction false} PrependIncreasing(x: Path, xs: seq<Path>)
    requires PathsIncreasing(xs) && |xs| > 0 && PathLess(x, xs[0])
    ensures PathsIncreasing([x] + xs) && Elems([x] + xs) == Elems(xs) + {x}
  {
    forall j | 0 < j < |xs| ensures PathLess(x, xs[j]) {
      PathLessTransitive(x, xs[0], xs[j]);
    }
    var r := [x] + xs;
    forall a, b | 0 <= a < b < |r| ensures PathLess(r[a], r[b]) {
      if a > 0 {
        assert r[a] == xs[a - 1] && r[b] == xs[b - 1];
      } else {
        assert r[b] == xs[b - 1];
      }
    }
  }

  /** The first of an increasing sequence stays in front of the rest with `x` inserted above it. */
  lemma {:induction false} ConsIncreasing(xs: seq<Path>, tail: seq<Path>, x: Path)
    requires PathsIncreasing(xs) && |xs| > 0 && PathLess(xs[0], x)
    requires PathsIncreasing(tail) && Elems(tail) == Elems(xs[1..]) + {x}
    ensures PathsIncreasing([xs[0]] + tail) && Elems([xs[0]] + tail) == Elems(xs) + {x}
  {
    assert Elems(xs) == {xs[0]} + Elems(xs[1..]) by {
      assert xs == [xs[0]] + xs[1..];
    }
    forall j | 0 <= j < |tail| ensures PathLess(xs[0], tail[j]) {
      assert tail[j] in Elems(tail);
      if tail[j] != x {
        var k :| 0 <= k < |xs[1..]| && xs[1..][k] == tail[j];
        assert xs[k + 1] == tail[j];
      }
    }
    var r := [xs[0]] + tail;
    forall a, b | 0 <= a < b < |r| ensures PathLess(r[a], r[b]) {
      if a > 0 {
        assert r[a] == tail[a - 1] && r[b] == tail[b - 1];
      } else {
        assert r[b] == tail[b - 1];
      }
    }
    assert Elems(r) == {xs[0]} + Elems(tail);
  }

  /** `sorted(set(xs))` under `PathLess`. */
  function SortPaths(xs: seq<Path>): (r: seq<Path>)
    ensures PathsIncreasing(r)
    ensures Elems(r) == Elems(xs)
  {
    if |xs| == 0 then []
    else
      var init := xs[..|xs| - 1];
      assert xs == init + [xs[|xs| - 1]];
      assert Elems(xs) == Elems(init) + {xs[|xs| - 1]};
      PathInsert(SortPaths(init), xs[|xs| - 1])
  }

  /** The paths one record adds to `paths`: its leaf paths, except the empty one. */
  function RecordPaths(leaves: seq<(Path, string)>): (r: seq<Path>)
    ensures forall p :: p in r <==> p != [] && exists v :: (p, v) in leaves
  {
    if |leaves| == 0 then []
    else
      var rest := RecordPaths(leaves[1..]);
      assert forall p, v :: (p, v) in leaves <==> (p, v) == leaves[0] || (p, v) in leaves[1..];
      if leaves[0].0 != [] then [leaves[0].0] + rest else rest
  }

  /** Every path `flatten` adds to `paths`, over all the records, in reading order. */
  function AllPaths(records: seq<Node>): (r: seq<Path>)
    ensures forall p :: p in r <==> exists k :: 0 <= k < |records| && p in RecordPaths(Leaves(records[k]))
  {
    if |records| == 0 then []
    else
      var init := records[..|records| - 1];
      assert forall k :: 0 <= k < |init| ==> init[k] == records[k];
      AllPaths(init) + RecordPaths(Leaves(records[|records| - 1]))
  }

  /** The CSV columns, `sorted(paths)`, with fragments compared as in `PathLess`. */
  function Columns(records: seq<Node>): seq<Path> {
    SortPaths(AllPaths(records))
  }

  /**
   * `sorted(paths)` as the source runs it under Python 3. When two paths conflict — they
   * agree up to a position where one has a key and the other an index — every comparison sort
   * must compare such a pair (the paths that agree up to that position form a block in which no
   * other path lies between an index-path and a key-path, and deciding which of the two kinds
   * comes first needs a comparison of one with the other), so `sorted` raises exactly then.
   */
  function ColumnsAsWritten(records: seq<Node>): (r: Result<seq<Path>, Raise>)
  {
    var paths := AllPaths(records);
    if exists i, j :: 0 <= i < |paths| && 0 <= j < |paths| && PyLess(paths[i], paths[j]).Err? then Err(TypeError)
    else Ok(Columns(records))
  }

  /** A record holding a list under `a` and one holding a mapping there make `sorted` raise. */
  lemma {:induction false} MixedColumnsRaise(records: seq<Node>)
    requires records == [Map([("a", List([Str("x")]))]), Map([("a", Map([("b", Str("y"))]))])]
    ensures ColumnsAsWritten(records).Err?
  {
    var first := [K("a"), I(0)];
    var second := [K("a"), K("b")];
    var paths := AllPaths(records);
    assert first in paths by {
      ListRecordLeaf(records[0]);
      RecordPathOf(Leaves(records[0]), first, "x");
    }
    assert second in paths by {
      MappingRecordLeaf(records[1]);
      RecordPathOf(Leaves(records[1]), second, "y");
    }
    var i :| 0 <= i < |paths| && paths[i] == first;
    var j :| 0 <= j < |paths| && paths[j] == second;
    assert PyLess(paths[i], paths[j]).Err?;
  }

  lemma {:induction false} RecordPathOf(leaves: seq<(Path, string)>, p: Path, v: string)
    requires (p, v) in leaves && p != []
    ensures p in RecordPaths(leaves)
  {
  }

  lemma {:induction false} ListRecordLeaf(record: Node)
    requires record == Map([("a", List([Str("x")]))])
    ensures ([K("a"), I(0)], "x") in Leaves(record)
  {
    var list := List([Str("x")]);
    assert Leaves(list) == [] + Under(I(0), [([], "x")]);
    assert [I(0)] + [] == [I(0)];
    assert Leaves(list)[0] == ([I(0)], "x");
    assert Leaves(record) == [] + Under(K("a"), Leaves(list));
    assert [K("a")] + [I(0)] == [K("a"), I(0)];
    assert Leaves(record)[0] == ([K("a"), I(0)], "x");
  }

  lemma {:induction false} MappingRecordLeaf(record: Node)
    requires record == Map([("a", Map([("b", Str("y"))]))])
    ensures ([K("a"), K("b")], "y") in Leaves(record)
  {
    var mapping := Map([("b", Str("y"))]);
    assert Leaves(mapping) == [] + Under(K("b"), [([], "y")]);
    assert [K("b")] + [] == [K("b")];
    assert Leaves(mapping)[0] == ([K("b")], "y");
    assert Leaves(record) == [] + Under(K("a"), Leaves(mapping));
    assert [K("a")] + [K("b")] == [K("a"), K("b")];
    assert Leaves(record)[0] == ([K("a"), K("b")], "y");
  }

  /** Whenever Python 3 sorts the columns without raising, it produces the corrected order. */
  lemma {:induction false} ColumnsAsWrittenAgree(records: seq<Node>)
    requires ColumnsAsWritten(records).Ok?
    ensures ColumnsAsWritten(records).value == Columns(records)
    ensures forall i, j :: 0 <= i < j < |Columns(records)| ==> PyLess(Columns(records)[i], Columns(records)[j]) == Ok(true)
  {
    var paths := AllPaths(records);
    var cols := Columns(records);
    forall i, j | 0 <= i < j < |cols| ensures PyLess(cols[i], cols[j]) == Ok(true) {
      assert cols[i] in Elems(paths) && cols[j] in Elems(paths);
      var a :| 0 <= a < |paths| && paths[a] == cols[i];
      var b :| 0 <= b < |paths| && paths[b] == cols[j];
      assert PyLess(paths[a], paths[b]).Ok?;
      PathLessAgrees(cols[i], cols[j]);
    }
  }

  /** The columns are the non-empty paths at which some record holds a scalar, in increasing order. */
  lemma {:induction false} ColumnsAreLeaves(records: seq<Node>, p: Path)
    requires forall k :: 0 <= k < |records| ==> WellFormed(records[k])
    ensures PathsIncreasing(Columns(records))
    ensures p in Columns(records) <==>
      p != [] && exists k :: 0 <= k < |records| && LeafText(Walk(records[k], Segments(p))).Some?
  {
    var cols := Columns(records);
    assert p in cols <==> p in AllPaths(records) by {
      assert p in cols <==> p in Elems(cols);
    }
    if p in cols {
      var k :| 0 <= k < |records| && p in RecordPaths(Leaves(records[k]));
      var v :| (p, v) in Leaves(records[k]);
      LeavesAreTreeLeaves(records[k], p, v);
    }
    if p != [] && exists k :: 0 <= k < |records| && LeafText(Walk(records[k], Segments(p))).Some? {
      var k :| 0 <= k < |records| && LeafText(Walk(records[k], Segments(p))).Some?;
      LeavesAreTreeLeaves(records[k], p, LeafText(Walk(records[k], Segments(p))).value);
      assert p in RecordPaths(Leaves(records[k]));
    }
  }

  // The CSV table

  /** The CSV file: a header row of labels, then one row per record. */
  datatype Table = Table(header: seq<string>, rows: seq<seq<string>>)

  /** `row[path] if path in row else ''`. */
  function Cell(flat: map<Path, string>, p: Path): string {
    if p in flat then flat[p] else ""
  }

  /** The CSV output of `yaml_to_csv` for the records read, in reading order. */
  function ToCsv(records: seq<Node>): (t: Table) {
    var cols := Columns(records);
    Table(
      seq(|cols|, i requires 0 <= i < |cols| => Label(cols[i])),
      seq(|records|, k requires 0 <= k < |records| =>
        seq(|cols|, i requires 0 <= i < |cols| => Cell(Flat(Leaves(records[k])), cols[i]))))
  }

  /**
   * Every row is as wide as the header, and the cell of record `k` in column `i` is the text of
   * the scalar that record holds at the column's path, or `''` when it holds none there.
   */
  lemma {:induction false} CsvCells(records: seq<Node>, k: nat, i: nat)
    requires forall j :: 0 <= j < |records| ==> WellFormed(records[j])
    requires k < |records| && i < |Columns(records)|
    ensures |ToCsv(records).rows| == |records|
    ensures |ToCsv(records).rows[k]| == |ToCsv(records).header|
    ensures ToCsv(records).header[i] == Label(Columns(records)[i])
    ensures ToCsv(records).rows[k][i] == LeafText(Walk(records[k], Segments(Columns(records)[i]))).GetOr("")
  {
    FlatIsTree(records[k], Columns(records)[i]);
  }

  /** With unambiguous keys, no two columns share a header label. */
  lemma {:induction false} HeaderDistinct(records: seq<Node>, i: nat, j: nat)
    requires forall c :: 0 <= c < |Columns(records)| ==> Clean(Columns(records)[c])
    requires i < j < |Columns(records)|
    ensures ToCsv(records).header[i] != ToCsv(records).header[j]
  {
    var cols := Columns(records);
    PathLessTotal(cols[i], cols[j]);
    LabelInjective(cols[i], cols[j]);
  }
}
