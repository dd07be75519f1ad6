/** The raw record: a YAML document as a tree of mappings, sequences and scalars. */
module Tree {
  import opened Wrappers

  /**
   * A loaded YAML (or JSON) value. `Null` is Python's `None` / JavaScript's `null`,
   * `Scalar` a non-string scalar (number, boolean) carrying its text form (Python's `str()`
   * of it) and its truth value (false for zero and `False`), and `Map` an insertion-ordered
   * mapping with string keys.
   */
  datatype Node =
    | Null
    | Str(s: string)
    | Scalar(text: string, truthy: bool)
    | List(items: seq<Node>)
    | Map(entries: seq<(string, Node)>)

  /** Python's truth value: `None`, zero, `False`, empty strings and empty containers are false. */
  predicate Truthy(n: Node) {
    match n
    case Null => false
    case Str(s) => s != ""
    case Scalar(_, truthy) => truthy
    case List(xs) => xs != []
    case Map(es) => es != []
  }

  /** The value stored under `key`: that of the first entry with this key, if any. */
  function Find(entries: seq<(string, Node)>, key: string): (r: Option<Node>)
    ensures r.None? <==> forall i :: 0 <= i < |entries| ==> entries[i].0 != key
    ensures r.Some? ==> exists i :: 0 <= i < |entries| && entries[i] == (key, r.value)
  {
    if |entries| == 0 then None
    else if entries[0].0 == key then Some(entries[0].1)
    else
      var r := Find(entries[1..], key);
      assert r.Some? ==> exists i :: 0 <= i < |entries| && entries[i] == (key, r.value) by {
        if r.Some? {
          var i :| 0 <= i < |entries[1..]| && entries[1..][i] == (key, r.value);
          assert entries[i + 1] == (key, r.value);
        }
      }
      r
  }

  /** Python's `d.get(key)`: the stored value, or `None` for a missing key. */
  function MapGet(entries: seq<(string, Node)>, key: string): Node {
    Find(entries, key).GetOr(Null)
  }

  /** Python's `d[key] = v` (and JavaScript's `o[key] = v`): replace in place, or append a new key. */
  function Put(entries: seq<(string, Node)>, key: string, v: Node): (r: seq<(string, Node)>)
    ensures Find(r, key) == Some(v)
    ensures forall k :: k != key ==> Find(r, k) == Find(entries, k)
    ensures |r| == |entries| || |r| == |entries| + 1
  {
    if |entries| == 0 then [(key, v)]
    else if entries[0].0 == key then [(key, v)] + entries[1..]
    else
      var r := [entries[0]] + Put(entries[1..], key, v);
      assert r[1..] == Put(entries[1..], key, v);
      r
  }

  /** Assigning a key twice keeps only the second value, wherever the key sits. */
  lemma {:induction false} PutPut(entries: seq<(string, Node)>, key: string, a: Node, b: Node)
    ensures Put(Put(entries, key, a), key, b) == Put(entries, key, b)
  {
    if |entries| > 0 && entries[0].0 != key {
      PutPut(entries[1..], key, a, b);
      var p := Put(entries, key, a);
      assert p[1..] == Put(entries[1..], key, a);
    }
  }

  /** Assigning the value a key already holds changes nothing. */
  lemma {:induction false} PutFound(entries: seq<(string, Node)>, key: string, v: Node)
    requires Find(entries, key) == Some(v)
    ensures Put(entries, key, v) == entries
  {
    if entries[0].0 != key {
      PutFound(entries[1..], key, v);
    } else {
      assert entries == [(key, v)] + entries[1..];
    }
  }

  predicate DistinctKeys(entries: seq<(string, Node)>) {
    forall i, j :: 0 <= i < j < |entries| ==> entries[i].0 != entries[j].0
  }

  /** With distinct keys, every entry is the one its key finds. */
  lemma {:induction false} FindDistinct(entries: seq<(string, Node)>, j: nat)
    requires DistinctKeys(entries) && j < |entries|
    ensures Find(entries, entries[j].0) == Some(entries[j].1)
  {
    if j > 0 && entries[0].0 != entries[j].0 {
      assert entries[j] == entries[1..][j - 1];
      FindDistinct(entries[1..], j - 1);
    }
  }

  /** Every mapping in the tree has distinct keys, as a Python dict or YAML mapping does. */
  predicate WellFormed(n: Node) {
    match n
    case List(xs) => forall i :: 0 <= i < |xs| ==> WellFormed(xs[i])
    case Map(es) => DistinctKeys(es) && forall i :: 0 <= i < |es| ==> WellFormed(es[i].1)
    case _ => true
  }

  /**
   * Python's `for x in n`: a list yields its items, a dict its keys, a string its
   * characters; iterating `None` or a number raises (`None` here).
   */
  function Iterate(n: Node): (r: Option<seq<Node>>)
    ensures n.List? ==> r == Some(n.items)
    ensures r.Some? <==> n.List? || n.Map? || n.Str?
    ensures n.Map? ==> (r.Some? && |r.value| == |n.entries|
                         && forall i :: 0 <= i < |n.entries| ==> r.value[i] == Str(n.entries[i].0))
    ensures n.Str? ==> (r.Some? && |r.value| == |n.s|
                         && forall i :: 0 <= i < |n.s| ==> r.value[i] == Str([n.s[i]]))
  {
    match n
    case List(xs) => Some(xs)
    case Map(es) => Some(seq(|es|, i requires 0 <= i < |es| => Str(es[i].0)))
    case Str(s) => Some(seq(|s|, i requires 0 <= i < |s| => Str([s[i]])))
    case _ => None
  }

  /** One step of a path: a mapping key or a sequence index. */
  datatype Segment = Key(name: string) | Index(index: nat)

  /**
   * The node reached by following `path`, or `Null` when a step meets a missing key,
   * an out-of-range index or a node of the wrong kind.
   */
  function Walk(n: Node, path: seq<Segment>): Node
    decreases |path|
  {
    if |path| == 0 then n
    else match path[0]
      case Key(k) => if n.Map? then Walk(MapGet(n.entries, k), path[1..]) else Null
      case Index(i) => if n.List? then Walk(if i < |n.items| then n.items[i] else Null, path[1..]) else Null
  }

  lemma {:induction false} WalkNull(path: seq<Segment>)
    ensures Walk(Null, path) == Null
  {
  }

  /** Following `p + q` is following `p`, then `q` from where `p` led. */
  lemma {:induction false} WalkAppend(n: Node, p: seq<Segment>, q: seq<Segment>)
    ensures Walk(n, p + q) == Walk(Walk(n, p), q)
    decreases |p|
  {
    if |p| == 0 {
      assert p + q == q;
    } else {
      assert (p + q)[1..] == p[1..] + q;
      match p[0]
      case Key(k) =>
        if n.Map? {
          WalkAppend(MapGet(n.entries, k), p[1..], q);
        } else {
          WalkNull(q);
        }
      case Index(i) =>
        if n.List? {
          WalkAppend(if i < |n.items| then n.items[i] else Null, p[1..], q);
        } else {
          WalkNull(q);
        }
    }
  }
}
