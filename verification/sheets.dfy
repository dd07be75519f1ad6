/**
 * canonical_yaml_to_csv.py: reads the `canonical` mapping of every project (or tool) record
 * and writes one CSV row per named entry, the entries sorted by name, the variable-length
 * tag and tool lists padded to the longest one so that every row lines up with the header.
 */
module Sheets {
  import opened Wrappers
  import opened Order
  import opened Tree
  import opened Resolve

  /** The two CSV files the script writes. */
  datatype Kind = Projects | Tools

  /** The exception that stops the script while reading or sorting. */
  datatype Failure =
    | NoCanonical            // `record['canonical']` raises: not a mapping, or no such key
    | NotIterable(path: string)  // the value at `path` cannot be iterated
    | NoValue(path: string)  // an item of the list at `path` is not a mapping holding `value`
    | Unorderable            // `sort` compares a non-string name with another name

  /** The scalar columns after the name, as read from `canonical`, in row order. */
  function ScalarPaths(kind: Kind): seq<string> {
    match kind
    case Projects => ["longDescription.en.value", "website.value"]
    case Tools => ["longDescription.en.value", "license.value", "sourceCode.value", "bugTracker.value",
                   "screenshot.value", "stackexchangeTag.value"]
  }

  /** The headers of the name column and the scalar columns. */
  function ScalarHeader(kind: Kind): (r: seq<string>)
    ensures |r| == 1 + |ScalarPaths(kind)|
  {
    match kind
    case Projects => ["Name", "Description", "Website"]
    case Tools => ["Name", "Description", "License", "Source Code URL", "Bug Tracker URL", "Screenshot URL",
                   "StackExchange Tag"]
  }

  /** The lists read from `canonical`, each item contributing its `value`. */
  function ListPaths(kind: Kind): seq<string> {
    match kind
    case Projects => ["tags.en", "tools"]
    case Tools => ["tags.en"]
  }

  /** The header repeated over the columns of each list. */
  function ListHeader(kind: Kind): (r: seq<string>)
    ensures |r| == |ListPaths(kind)|
  {
    match kind
    case Projects => ["Tag", "Tool"]
    case Tools => ["Tag"]
  }

  /** What the script keeps of one record. */
  datatype Entry = Entry(name: Node, scalars: seq<Node>, lists: seq<seq<Node>>)

  predicate Shaped(kind: Kind, e: Entry) {
    |e.scalars| == |ScalarPaths(kind)| && |e.lists| == |ListPaths(kind)|
  }

  /** `record['canonical']`: a `KeyError` or `TypeError` unless the record is a mapping holding the key. */
  function CanonicalOf(record: Node): (r: Result<Node, Failure>)
    ensures r.Ok? <==> record.Map? && Find(record.entries, "canonical").Some?
  {
    if record.Map? then
      match Find(record.entries, "canonical")
      case Some(c) => Ok(c)
      case None => Err(NoCanonical)
    else Err(NoCanonical)
  }

  /** `[item['value'] for item in items]`: raises at the first item that is not a mapping holding `value`. */
  function Values(items: seq<Node>, path: string): (r: Result<seq<Node>, Failure>)
    ensures r.Err? ==> r.error == NoValue(path)
    ensures r.Ok? ==> |r.value| == |items|
  {
    if |items| == 0 then Ok([])
    else if !items[0].Map? then Err(NoValue(path))
    else
      match Find(items[0].entries, "value")
      case None => Err(NoValue(path))
      case Some(v) =>
        var rest :- Values(items[1..], path);
        Ok([v] + rest)
  }

  /** Values fails exactly when some item is not a mapping holding `value`; otherwise it takes each one. */
  lemma {:induction false} ValuesSpec(items: seq<Node>, path: string)
    ensures Values(items, path).Ok? <==>
      forall i :: 0 <= i < |items| ==> items[i].Map? && Find(items[i].entries, "value").Some?
    ensures Values(items, path).Ok? ==>
      forall i :: 0 <= i < |items| ==> Values(items, path).value[i] == Find(items[i].entries, "value").value
  {
    if |items| > 0 {
      ValuesSpec(items[1..], path);
      if items[0].Map? && Find(items[0].entries, "value").Some? && Values(items[1..], path).Ok? {
        forall i | 0 < i < |items| ensures items[i] == items[1..][i - 1] {
        }
      }
      if !Values(items[1..], path).Ok? {
        var i :| 0 <= i < |items[1..]| && !(items[1..][i].Map? && Find(items[1..][i].entries, "value").Some?);
        assert items[i + 1] == items[1..][i];
      }
    }
  }

  /**
   * `[item['value'] for item in get_path(canonical, path, [])]`: a missing list is empty;
   * iterating a mapping yields its keys and a string its characters, which are not mappings.
   */
  function ListAt(canonical: Node, path: string): (r: Result<seq<Node>, Failure>)
    ensures r.Err? ==> r.error in {NotIterable(path), NoValue(path)}
  {
    match Iterate(GetPathOr(canonical, path, List([])))
    case None => Err(NotIterable(path))
    case Some(items) => Values(items, path)
  }

  /** An absent list reads as no items; a list of `{value: ...}` mappings reads as their values. */
  lemma {:induction false} ListAtAbsent(canonical: Node, path: string)
    requires GetPath(canonical, path).Null?
    ensures ListAt(canonical, path) == Ok([])
  {
    GetPathOrIsDefaulted(canonical, path, List([]));
  }

  /** The lists in order: the first failing one raises. */
  function ListsAt(canonical: Node, paths: seq<string>): (r: Result<seq<seq<Node>>, Failure>)
    ensures r.Ok? ==> |r.value| == |paths|
    ensures r.Err? ==> exists i :: 0 <= i < |paths| && ListAt(canonical, paths[i]) == Err(r.error)
  {
    if |paths| == 0 then Ok([])
    else
      var first :- ListAt(canonical, paths[0]);
      var rest :- ListsAt(canonical, paths[1..]);
      Ok([first] + rest)
  }

  /** The entry dict built for one record (lines 133-148 for projects, 181-195 for tools). */
  function ReadEntry(kind: Kind, record: Node): (r: Result<Entry, Failure>)
    ensures r.Ok? ==> Shaped(kind, r.value)
    ensures r.Err? && r.error != NoCanonical ==> CanonicalOf(record).Ok?
  {
    var canonical :- CanonicalOf(record);
    var lists :- ListsAt(canonical, ListPaths(kind));
    var paths := ScalarPaths(kind);
    Ok(Entry(GetPathOr(canonical, "name.value", Null),
             seq(|paths|, i requires 0 <= i < |paths| => GetPathOr(canonical, paths[i], Null)),
             lists))
  }

  /** A record without a usable `canonical` mapping stops the script; with one, only a bad list does. */
  lemma {:induction false} ReadEntrySpec(kind: Kind, record: Node)
    ensures CanonicalOf(record).Err? ==> ReadEntry(kind, record) == Err(NoCanonical)
    ensures CanonicalOf(record).Ok? ==>
      (ReadEntry(kind, record).Ok? <==> ListsAt(CanonicalOf(record).value, ListPaths(kind)).Ok?)
    ensures ReadEntry(kind, record).Ok? ==>
      var canonical := CanonicalOf(record).value;
      var e := ReadEntry(kind, record).value;
      e.name == GetPath(canonical, "name.value")
      && (forall i :: 0 <= i < |ScalarPaths(kind)| ==> e.scalars[i] == GetPath(canonical, ScalarPaths(kind)[i]))
      && e.lists == ListsAt(canonical, ListPaths(kind)).value
  {
    if ReadEntry(kind, record).Ok? {
      var canonical := CanonicalOf(record).value;
      var e := ReadEntry(kind, record).value;
      GetPathOrIsDefaulted(canonical, "name.value", Null);
      forall i | 0 <= i < |ScalarPaths(kind)| ensures e.scalars[i] == GetPath(canonical, ScalarPaths(kind)[i]) {
        GetPathOrIsDefaulted(canonical, ScalarPaths(kind)[i], Null);
      }
    }
  }

  /** A loop over steps that may raise: all the values in order, or the first step's failure. */
  function Sequence<T>(steps: seq<Result<T, Failure>>): (r: Result<seq<T>, Failure>)
    ensures r.Ok? ==> |r.value| == |steps|
  {
    if |steps| == 0 then Ok([])
    else
      var first :- steps[0];
      var rest :- Sequence(steps[1..]);
      Ok([first] + rest)
  }

  /** Value `k` of a successful loop is that of step `k`. */
  lemma {:induction false} SequenceAt<T>(steps: seq<Result<T, Failure>>, k: nat)
    requires Sequence(steps).Ok? && k < |steps|
    ensures steps[k] == Ok(Sequence(steps).value[k])
    decreases k
  {
    if k > 0 {
      SequenceAt(steps[1..], k - 1);
    }
  }

  /** A failed loop fails as its first failing step does. */
  lemma {:induction false} SequenceFailure<T>(steps: seq<Result<T, Failure>>)
    requires Sequence(steps).Err?
    ensures exists k :: 0 <= k < |steps| && steps[k] == Err(Sequence(steps).error)
  {
    if steps[0].Ok? {
      SequenceFailure(steps[1..]);
      var k :| 0 <= k < |steps[1..]| && steps[1..][k] == Err(Sequence(steps[1..]).error);
      assert steps[k + 1] == steps[1..][k];
    }
  }

  function Reads(kind: Kind, records: seq<Node>): (r: seq<Result<Entry, Failure>>)
    ensures |r| == |records| && forall k :: 0 <= k < |records| ==> r[k] == ReadEntry(kind, records[k])
  {
    seq(|records|, k requires 0 <= k < |records| => ReadEntry(kind, records[k]))
  }

  /** Reads every record in turn; the first one that raises stops the script. */
  function ReadAll(kind: Kind, records: seq<Node>): (r: Result<seq<Entry>, Failure>)
    ensures r.Ok? ==> |r.value| == |records| && forall k :: 0 <= k < |r.value| ==> Shaped(kind, r.value[k])
  {
    var r := Sequence(Reads(kind, records));
    assert r.Ok? ==> forall k :: 0 <= k < |r.value| ==> Shaped(kind, r.value[k]) by {
      if r.Ok? {
        forall k | 0 <= k < |r.value| ensures Shaped(kind, r.value[k]) {
          SequenceAt(Reads(kind, records), k);
        }
      }
    }
    r
  }

  /** Entry `k` is what reading record `k` gives. */
  lemma {:induction false} ReadAllEntries(kind: Kind, records: seq<Node>, k: nat)
    requires ReadAll(kind, records).Ok? && k < |records|
    ensures ReadEntry(kind, records[k]) == Ok(ReadAll(kind, records).value[k])
  {
    SequenceAt(Reads(kind, records), k);
  }

  /** A failed reading fails as reading some record does. */
  lemma {:induction false} ReadAllFailure(kind: Kind, records: seq<Node>)
    requires ReadAll(kind, records).Err?
    ensures exists k :: 0 <= k < |records| && ReadEntry(kind, records[k]) == Err(ReadAll(kind, records).error)
  {
    SequenceFailure(Reads(kind, records));
  }

  /** `tagsCount` (or `toolsCount`): the length of the longest `l`-th list over the entries, 0 for none. */
  function Width(kind: Kind, entries: seq<Entry>, l: nat): (w: nat)
    requires l < |ListPaths(kind)| && forall k :: 0 <= k < |entries| ==> |entries[k].lists| == |ListPaths(kind)|
    ensures forall k :: 0 <= k < |entries| ==> |entries[k].lists[l]| <= w
    ensures w == 0 || exists k :: 0 <= k < |entries| && |entries[k].lists[l]| == w
  {
    if |entries| == 0 then 0
    else
      var init := entries[..|entries| - 1];
      var rest := Width(kind, init, l);
      var last := |entries[|entries| - 1].lists[l]|;
      assert forall k :: 0 <= k < |init| ==> init[k] == entries[k];
      if last > rest then last else rest
  }

  function Widths(kind: Kind, entries: seq<Entry>): (r: seq<nat>)
    requires forall k :: 0 <= k < |entries| ==> Shaped(kind, entries[k])
    ensures |r| == |ListPaths(kind)|
  {
    assert forall k :: 0 <= k < |entries| ==> |entries[k].lists| == |ListPaths(kind)| by {
      forall k | 0 <= k < |entries| ensures |entries[k].lists| == |ListPaths(kind)| {
        assert Shaped(kind, entries[k]);
      }
    }
    seq(|ListPaths(kind)|, l requires 0 <= l < |ListPaths(kind)| => Width(kind, entries, l))
  }

  // Sorting by name

  /** `entry['name'] or ''` when it is a string; `None` for a truthy name of another type. */
  function SortKey(name: Node): Option<string> {
    if !Truthy(name) then Some("")
    else if name.Str? then Some(name.s)
    else None
  }

  function KeyOf(e: Entry): string {
    SortKey(e.name).GetOr("")
  }

  /** Python's stable sort puts entry `i` before entry `j` when its key is smaller, or equal and `i < j`. */
  predicate Before(keys: seq<string>, i: nat, j: nat) {
    i < |keys| && j < |keys| && (Less(keys[i], keys[j]) || (keys[i] == keys[j] && i < j))
  }

  /** `order` lists positions of `keys` in the stable sorted order. */
  predicate InOrder(keys: seq<string>, order: seq<nat>) {
    (forall a :: 0 <= a < |order| ==> order[a] < |keys|)
    && forall a, b :: 0 <= a < b < |order| ==> Before(keys, order[a], order[b])
  }

  lemma {:induction false} BeforeTransitive(keys: seq<string>, i: nat, j: nat, k: nat)
    requires Before(keys, i, j) && Before(keys, j, k)
    ensures Before(keys, i, k)
  {
    if Less(keys[i], keys[j]) && Less(keys[j], keys[k]) {
      LessTransitive(keys[i], keys[j], keys[k]);
    }
  }

  lemma {:induction false} BeforeTotal(keys: seq<string>, i: nat, j: nat)
    requires i < |keys| && j < |keys| && i != j
    ensures Before(keys, i, j) != Before(keys, j, i)
  {
    LessTotal(keys[i], keys[j]);
    if Less(keys[i], keys[j]) {
      LessAsymmetric(keys[i], keys[j]);
    } else if Less(keys[j], keys[i]) {
      LessAsymmetric(keys[j], keys[i]);
    }
  }

  lemma {:induction false} BeforeIrreflexive(keys: seq<string>, i: nat)
    ensures !Before(keys, i, i)
  {
    if i < |keys| {
      LessIrreflexive(keys[i]);
    }
  }

  /** Putting `x` in front of a sorted `tail` keeps it sorted when `x` comes before all of it. */
  lemma {:induction false} InOrderCons(keys: seq<string>, x: nat, tail: seq<nat>)
    requires InOrder(keys, tail) && x < |keys|
    requires forall b :: 0 <= b < |tail| ==> Before(keys, x, tail[b])
    ensures InOrder(keys, [x] + tail)
  {
    var r := [x] + tail;
    forall a, b | 0 <= a < b < |r| ensures Before(keys, r[a], r[b]) {
      if a > 0 {
        assert r[a] == tail[a - 1] && r[b] == tail[b - 1];
      } else {
        assert r[b] == tail[b - 1];
      }
    }
  }

  /** Inserts position `i` into the sorted `order`. */
  function InsertAt(keys: seq<string>, order: seq<nat>, i: nat): (r: seq<nat>)
    requires InOrder(keys, order) && i < |keys| && i !in order
    ensures InOrder(keys, r)
    ensures |r| == |order| + 1
    ensures Elems(r) == Elems(order) + {i}
  {
    if |order| == 0 then [i]
    else if Before(keys, i, order[0]) then
      assert forall b :: 0 <= b < |order| ==> Before(keys, i, order[b]) by {
        forall b | 0 < b < |order| ensures Before(keys, i, order[b]) {
          BeforeTransitive(keys, i, order[0], order[b]);
        }
      }
      InOrderCons(keys, i, order);
      assert Elems([i] + order) == Elems(order) + {i};
      [i] + order
    else
      BeforeTotal(keys, i, order[0]);
      assert InOrder(keys, order[1..]) by {
        forall a, b | 0 <= a < b < |order[1..]| ensures Before(keys, order[1..][a], order[1..][b]) {
          assert Before(keys, order[a + 1], order[b + 1]);
        }
      }
      var tail := InsertAt(keys, order[1..], i);
      assert Elems(order) == {order[0]} + Elems(order[1..]) by {
        assert order == [order[0]] + order[1..];
      }
      assert forall b :: 0 <= b < |tail| ==> Before(keys, order[0], tail[b]) by {
        forall b | 0 <= b < |tail| ensures Before(keys, order[0], tail[b]) {
          assert tail[b] in Elems(tail);
        }
      }
      InOrderCons(keys, order[0], tail);
      assert Elems([order[0]] + tail) == {order[0]} + Elems(tail);
      [order[0]] + tail
  }

  /** The stable sorted order of the first `n` keys: every position once, in `Before` order. */
  function Rank(keys: seq<string>, n: nat): (r: seq<nat>)
    requires n <= |keys|
    ensures InOrder(keys, r)
    ensures |r| == n
    ensures forall i :: i in r <==> 0 <= i < n
  {
    if n == 0 then []
    else
      var order := Rank(keys, n - 1);
      var r := InsertAt(keys, order, n - 1);
      assert forall i :: i in r <==> i in Elems(r);
      assert forall i :: i in order <==> i in Elems(order);
      r
  }

  /** The stable order is the only one: any listing of all positions in `Before` order is `Rank`. */
  lemma {:induction false} RankUnique(keys: seq<string>, order: seq<nat>, other: seq<nat>)
    requires InOrder(keys, order) && InOrder(keys, other)
    requires Elems(order) == Elems(other)
    ensures order == other
  {
    if |order| > 0 {
      assert order[0] in Elems(other);
    }
    if |other| > 0 {
      assert other[0] in Elems(order);
    }
    if |order| > 0 && |other| > 0 {
      var x, y := order[0], other[0];
      if x != y {
        var a :| 0 <= a < |order| && order[a] == y;
        var b :| 0 <= b < |other| && other[b] == x;
        assert Before(keys, x, y) && Before(keys, y, x);
        BeforeTotal(keys, x, y);
      }
      BeforeIrreflexive(keys, x);
      BeforeIrreflexive(keys, y);
      assert forall c :: 0 < c < |order| ==> order[c] != x by {
        forall c | 0 < c < |order| ensures order[c] != x {
          assert Before(keys, x, order[c]);
        }
      }
      assert forall c :: 0 < c < |other| ==> other[c] != y by {
        forall c | 0 < c < |other| ensures other[c] != y {
          assert Before(keys, y, other[c]);
        }
      }
      assert Elems(order[1..]) == Elems(order) - {x} by {
        assert order == [x] + order[1..];
      }
      assert Elems(other[1..]) == Elems(other) - {y} by {
        assert other == [y] + other[1..];
      }
      RankUnique(keys, order[1..], other[1..]);
      assert order == [x] + order[1..] && other == [y] + other[1..];
    }
  }

  /**
   * `entries.sort(key = lambda entry: entry['name'] or '')`: stable by name; a name that is
   * neither a string nor falsy cannot be compared once there are two entries.
   */
  function SortEntries(entries: seq<Entry>): (r: Result<seq<Entry>, Failure>)
    ensures r.Err? <==> |entries| >= 2 && exists k :: 0 <= k < |entries| && SortKey(entries[k].name).None?
  {
    if |entries| >= 2 && exists k :: 0 <= k < |entries| && SortKey(entries[k].name).None? then Err(Unorderable)
    else
      var keys := seq(|entries|, k requires 0 <= k < |entries| => KeyOf(entries[k]));
      var order := Rank(keys, |entries|);
      Ok(seq(|entries|, k requires 0 <= k < |entries| => entries[order[k]]))
  }

  /** `sorted` lists `entries` in the order `order`: a permutation, by name, equal names in reading order. */
  ghost predicate StablySorted(entries: seq<Entry>, sorted: seq<Entry>, order: seq<nat>) {
    |order| == |entries| == |sorted| && (forall i :: i in order <==> 0 <= i < |entries|)
    && (forall k :: 0 <= k < |order| ==> order[k] < |entries| && sorted[k] == entries[order[k]])
    && forall a, b :: 0 <= a < b < |order| ==>
         order[a] < |entries| && order[b] < |entries|
         && (Less(KeyOf(entries[order[a]]), KeyOf(entries[order[b]]))
             || (KeyOf(entries[order[a]]) == KeyOf(entries[order[b]]) && order[a] < order[b]))
  }

  /** The sorted entries are a permutation of the read ones, ordered by name, equal names in reading order. */
  lemma {:induction false} SortEntriesSpec(entries: seq<Entry>)
    requires SortEntries(entries).Ok?
    ensures exists order: seq<nat> :: StablySorted(entries, SortEntries(entries).value, order)
  {
    var keys := seq(|entries|, k requires 0 <= k < |entries| => KeyOf(entries[k]));
    var order := Rank(keys, |entries|);
    var sorted := SortEntries(entries).value;
    assert forall k :: 0 <= k < |order| ==> order[k] < |entries| && sorted[k] == entries[order[k]];
    assert forall a, b :: 0 <= a < b < |order| ==> Before(keys, order[a], order[b]);
    assert StablySorted(entries, sorted, order);
  }

  /** Two entries in sorted order have non-decreasing names. */
  predicate NamesOrdered(entries: seq<Entry>) {
    forall a, b :: 0 <= a < b < |entries| ==> LessEq(KeyOf(entries[a]), KeyOf(entries[b]))
  }

  lemma {:induction false} SortedNamesOrdered(entries: seq<Entry>)
    requires SortEntries(entries).Ok?
    ensures NamesOrdered(SortEntries(entries).value)
  {
    var keys := seq(|entries|, k requires 0 <= k < |entries| => KeyOf(entries[k]));
    var order := Rank(keys, |entries|);
    var sorted := SortEntries(entries).value;
    forall a, b | 0 <= a < b < |sorted| ensures LessEq(KeyOf(sorted[a]), KeyOf(sorted[b])) {
      assert Before(keys, order[a], order[b]);
    }
  }

  // Rows

  /** The entries that get a row: those whose name is not `None`, in order. */
  function Named(entries: seq<Entry>): (r: seq<Entry>)
    ensures forall e :: e in r <==> e in entries && !e.name.Null?
    ensures |r| <= |entries|
  {
    if |entries| == 0 then []
    else
      assert forall e :: e in entries <==> e == entries[0] || e in entries[1..];
      (if entries[0].name.Null? then [] else [entries[0]]) + Named(entries[1..])
  }

  /** The positions from `i` on whose entry has a name, in increasing order. */
  function NamedPositions(entries: seq<Entry>, i: nat): (idx: seq<nat>)
    requires i <= |entries|
    ensures forall a :: 0 <= a < |idx| ==> i <= idx[a] < |entries|
    ensures forall a, b :: 0 <= a < b < |idx| ==> idx[a] < idx[b]
    ensures forall k :: i <= k < |entries| ==> (k in idx <==> !entries[k].name.Null?)
    decreases |entries| - i
  {
    if i == |entries| then []
    else (if entries[i].name.Null? then [] else [i]) + NamedPositions(entries, i + 1)
  }

  /**
   * The rows are the named entries picked in order, each once: the entries at the increasing
   * positions whose name is not `None`.
   */
  lemma {:induction false} NamedPicks(entries: seq<Entry>)
    ensures |Named(entries)| == |NamedPositions(entries, 0)|
    ensures forall a :: 0 <= a < |Named(entries)| ==> Named(entries)[a] == entries[NamedPositions(entries, 0)[a]]
  {
    NamedSuffix(entries, 0);
    assert entries[0..] == entries;
  }

  lemma {:induction false} NamedSuffix(entries: seq<Entry>, i: nat)
    requires i <= |entries|
    ensures |Named(entries[i..])| == |NamedPositions(entries, i)|
    ensures forall a :: 0 <= a < |Named(entries[i..])| ==> Named(entries[i..])[a] == entries[NamedPositions(entries, i)[a]]
    decreases |entries| - i
  {
    if i < |entries| {
      var rest := Named(entries[i + 1..]);
      var q := NamedPositions(entries, i + 1);
      NamedSuffix(entries, i + 1);
      assert Named(entries[i..]) == (if entries[i].name.Null? then [] else [entries[i]]) + rest by {
        assert entries[i..][0] == entries[i];
        assert entries[i..][1..] == entries[i + 1..];
      }
      assert NamedPositions(entries, i) == (if entries[i].name.Null? then [] else [i]) + q;
    }
  }

  lemma {:induction false} NamedOrdered(entries: seq<Entry>)
    requires NamesOrdered(entries)
    ensures NamesOrdered(Named(entries))
  {
    if |entries| > 0 {
      assert NamesOrdered(entries[1..]) by {
        forall a, b | 0 <= a < b < |entries[1..]| ensures LessEq(KeyOf(entries[1..][a]), KeyOf(entries[1..][b])) {
          assert entries[1..][a] == entries[a + 1] && entries[1..][b] == entries[b + 1];
        }
      }
      NamedOrdered(entries[1..]);
      var rest := Named(entries[1..]);
      forall c | 0 <= c < |rest| ensures LessEq(KeyOf(entries[0]), KeyOf(rest[c])) {
        assert rest[c] in entries[1..];
        var b :| 0 <= b < |entries[1..]| && entries[1..][b] == rest[c];
        assert entries[b + 1] == rest[c];
      }
    }
  }

  /** `x or ''`. */
  function Or(n: Node): (r: Node)
    ensures Truthy(n) ==> r == n
    ensures !Truthy(n) ==> r == Str("")
  {
    if Truthy(n) then n else Str("")
  }

  function Blanks(n: nat): (r: seq<Node>)
    ensures |r| == n && forall i :: 0 <= i < n ==> r[i] == Str("")
  {
    seq(n, _ => Str(""))
  }

  /** `items + [''] * (width - len(items))`; a negative count repeats nothing. */
  function Pad(items: seq<Node>, width: nat): seq<Node> {
    items + Blanks(if width >= |items| then width - |items| else 0)
  }

  /** The concatenation of the parts, in order. */
  function Chain<T>(parts: seq<seq<T>>): seq<T> {
    if |parts| == 0 then [] else Chain(parts[..|parts| - 1]) + parts[|parts| - 1]
  }

  function HeaderParts(kind: Kind, widths: seq<nat>): (r: seq<seq<string>>)
    requires |widths| == |ListPaths(kind)|
    ensures |r| == |widths|
  {
    seq(|widths|, l requires 0 <= l < |widths| => seq(widths[l], _ => ListHeader(kind)[l]))
  }

  function RowParts(e: Entry, widths: seq<nat>): (r: seq<seq<Node>>)
    requires |e.lists| == |widths|
    ensures |r| == |widths|
  {
    seq(|widths|, l requires 0 <= l < |widths| => Pad(e.lists[l], widths[l]))
  }

  function Header(kind: Kind, widths: seq<nat>): seq<string>
    requires |widths| == |ListPaths(kind)|
  {
    ScalarHeader(kind) + Chain(HeaderParts(kind, widths))
  }

  function Row(kind: Kind, e: Entry, widths: seq<nat>): seq<Node>
    requires Shaped(kind, e) && |widths| == |ListPaths(kind)|
  {
    [Or(e.name)] + seq(|e.scalars|, i requires 0 <= i < |e.scalars| => Or(e.scalars[i])) + Chain(RowParts(e, widths))
  }

  /** The CSV file: the header, then the rows. */
  datatype Sheet = Sheet(header: seq<string>, rows: seq<seq<Node>>)

  /** One run of the script over the records of one kind, in reading order. */
  function ToSheet(kind: Kind, records: seq<Node>): (r: Result<Sheet, Failure>) {
    var entries :- ReadAll(kind, records);
    var widths := Widths(kind, entries);
    var sorted :- SortEntries(entries);
    var named := Named(sorted);
    assert forall k :: 0 <= k < |named| ==> Shaped(kind, named[k]) by {
      forall k | 0 <= k < |named| ensures Shaped(kind, named[k]) {
        SortedShaped(kind, entries, named[k]);
      }
    }
    Ok(Sheet(Header(kind, widths), seq(|named|, k requires 0 <= k < |named| => Row(kind, named[k], widths))))
  }

  lemma {:induction false} SortedShaped(kind: Kind, entries: seq<Entry>, e: Entry)
    requires forall k :: 0 <= k < |entries| ==> Shaped(kind, entries[k])
    requires SortEntries(entries).Ok? && e in SortEntries(entries).value
    ensures Shaped(kind, e)
  {
    SortEntriesSpec(entries);
  }

  lemma {:induction false} ChainPrefix<T>(parts: seq<seq<T>>, l: nat)
    requires l < |parts|
    ensures Chain(parts[..l + 1]) == Chain(parts[..l]) + parts[l]
  {
    assert parts[..l + 1][..l] == parts[..l];
  }

  /** Element `j` of part `l` sits after everything in the parts before it. */
  lemma {:induction false} ChainAt<T>(parts: seq<seq<T>>, l: nat, j: nat)
    requires l < |parts| && j < |parts[l]|
    ensures |Chain(parts[..l])| + j < |Chain(parts)|
    ensures Chain(parts)[|Chain(parts[..l])| + j] == parts[l][j]
    decreases |parts|
  {
    var init := parts[..|parts| - 1];
    if l == |parts| - 1 {
      assert init == parts[..l];
    } else {
      assert init[..l] == parts[..l];
      ChainAt(init, l, j);
    }
  }

  /** Parts of equal lengths concatenate to equal lengths. */
  lemma {:induction false} ChainShape<T, U>(a: seq<seq<T>>, b: seq<seq<U>>)
    requires |a| == |b| && forall l :: 0 <= l < |a| ==> |a[l]| == |b[l]|
    ensures |Chain(a)| == |Chain(b)|
  {
    if |a| > 0 {
      ChainShape(a[..|a| - 1], b[..|b| - 1]);
    }
  }

  /**
   * A row is as long as the header, and every list item sits under its list's header, followed
   * by empty cells up to the width of the widest such list.
   */
  lemma {:induction false} RowAligned(kind: Kind, e: Entry, widths: seq<nat>, l: nat, j: nat)
    requires Shaped(kind, e) && |widths| == |ListPaths(kind)|
    requires forall m :: 0 <= m < |widths| ==> |e.lists[m]| <= widths[m]
    requires l < |widths| && j < widths[l]
    ensures |Row(kind, e, widths)| == |Header(kind, widths)|
    ensures var at := |ScalarHeader(kind)| + |Chain(HeaderParts(kind, widths)[..l])| + j;
      at < |Header(kind, widths)|
      && Header(kind, widths)[at] == ListHeader(kind)[l]
      && Row(kind, e, widths)[at] == (if j < |e.lists[l]| then e.lists[l][j] else Str(""))
  {
    var hs := HeaderParts(kind, widths);
    var rs := RowParts(e, widths);
    RowWidth(kind, e, widths);
    assert forall m :: 0 <= m < l ==> |rs[..l][m]| == |hs[..l][m]|;
    ChainShape(rs[..l], hs[..l]);
    HeaderAt(kind, widths, l, j);
    RowAt(kind, e, widths, l, j);
  }

  lemma {:induction false} HeaderAt(kind: Kind, widths: seq<nat>, l: nat, j: nat)
    requires |widths| == |ListPaths(kind)| && l < |widths| && j < widths[l]
    ensures var at := |ScalarHeader(kind)| + |Chain(HeaderParts(kind, widths)[..l])| + j;
      at < |Header(kind, widths)| && Header(kind, widths)[at] == ListHeader(kind)[l]
  {
    ChainAt(HeaderParts(kind, widths), l, j);
  }

  lemma {:induction false} RowAt(kind: Kind, e: Entry, widths: seq<nat>, l: nat, j: nat)
    requires Shaped(kind, e) && |widths| == |ListPaths(kind)|
    requires l < |widths| && |e.lists[l]| <= widths[l] && j < widths[l]
    ensures var at := |ScalarHeader(kind)| + |Chain(RowParts(e, widths)[..l])| + j;
      at < |Row(kind, e, widths)|
      && Row(kind, e, widths)[at] == (if j < |e.lists[l]| then e.lists[l][j] else Str(""))
  {
    var rs := RowParts(e, widths);
    ChainAt(rs, l, j);
    var lead := [Or(e.name)] + seq(|e.scalars|, i requires 0 <= i < |e.scalars| => Or(e.scalars[i]));
    assert Row(kind, e, widths) == lead + Chain(rs);
  }

  /** A run fails exactly when reading some record fails or the names cannot be ordered. */
  lemma {:induction false} ToSheetFails(kind: Kind, records: seq<Node>)
    ensures ToSheet(kind, records).Err? <==>
      ReadAll(kind, records).Err? || SortEntries(ReadAll(kind, records).value).Err?
  {
    if ReadAll(kind, records).Ok? {
      var entries := ReadAll(kind, records).value;
      if SortEntries(entries).Ok? {
        assert ToSheet(kind, records).Ok?;
      }
    }
  }

  /**
   * On success: the widths are the longest lists, the rows are exactly the entries with a name,
   * in non-decreasing name order, and each row is as wide as the header.
   */
  lemma {:induction false} ToSheetRows(kind: Kind, records: seq<Node>)
    requires ToSheet(kind, records).Ok?
    ensures var entries := ReadAll(kind, records).value;
      var named := Named(SortEntries(entries).value);
      var sheet := ToSheet(kind, records).value;
      |sheet.rows| == |named|
      && (forall e :: e in named <==> e in entries && !e.name.Null?)
      && NamesOrdered(named)
      && forall k :: 0 <= k < |sheet.rows| ==> |sheet.rows[k]| == |sheet.header|
  {
    var entries := ReadAll(kind, records).value;
    var sorted := SortEntries(entries).value;
    var named := Named(sorted);
    var widths := Widths(kind, entries);
    var sheet := ToSheet(kind, records).value;
    SheetLayout(kind, records);
    SortedSameEntries(entries);
    SortedNamesOrdered(entries);
    NamedOrdered(sorted);
    forall k | 0 <= k < |sheet.rows| ensures |sheet.rows[k]| == |sheet.header| {
      assert named[k] in entries;
      EntryRowWidth(kind, entries, named[k]);
    }
  }

  /** The header comes from the widths over all entries; row `k` is that of the `k`-th named entry. */
  lemma {:induction false} SheetLayout(kind: Kind, records: seq<Node>)
    requires ToSheet(kind, records).Ok?
    ensures var entries := ReadAll(kind, records).value;
      var named := Named(SortEntries(entries).value);
      var sheet := ToSheet(kind, records).value;
      (forall k :: 0 <= k < |entries| ==> Shaped(kind, entries[k]))
      && (forall k :: 0 <= k < |named| ==> Shaped(kind, named[k]))
      && sheet.header == Header(kind, Widths(kind, entries))
      && |sheet.rows| == |named|
      && forall k :: 0 <= k < |named| ==> sheet.rows[k] == Row(kind, named[k], Widths(kind, entries))
  {
    var entries := ReadAll(kind, records).value;
    var named := Named(SortEntries(entries).value);
    forall k | 0 <= k < |named| ensures Shaped(kind, named[k]) {
      SortedShaped(kind, entries, named[k]);
    }
  }

  /** Sorting keeps exactly the entries it was given. */
  lemma {:induction false} SortedSameEntries(entries: seq<Entry>)
    requires SortEntries(entries).Ok?
    ensures forall e :: e in SortEntries(entries).value <==> e in entries
  {
    var sorted := SortEntries(entries).value;
    var keys := seq(|entries|, k requires 0 <= k < |entries| => KeyOf(entries[k]));
    var order := Rank(keys, |entries|);
    forall e | e in entries ensures e in sorted {
      var k :| 0 <= k < |entries| && entries[k] == e;
      assert k in order;
      var a :| 0 <= a < |order| && order[a] == k;
      assert sorted[a] == e;
    }
  }

  /** The row of any read entry is as wide as the header. */
  lemma {:induction false} EntryRowWidth(kind: Kind, entries: seq<Entry>, e: Entry)
    requires forall k :: 0 <= k < |entries| ==> Shaped(kind, entries[k])
    requires e in entries
    ensures |Row(kind, e, Widths(kind, entries))| == |Header(kind, Widths(kind, entries))|
  {
    var widths := Widths(kind, entries);
    var c :| 0 <= c < |entries| && entries[c] == e;
    forall m | 0 <= m < |widths| ensures |e.lists[m]| <= widths[m] {
      assert |entries[c].lists[m]| <= Width(kind, entries, m);
    }
    RowWidth(kind, e, widths);
  }

  lemma {:induction false} RowWidth(kind: Kind, e: Entry, widths: seq<nat>)
    requires Shaped(kind, e) && |widths| == |ListPaths(kind)|
    requires forall m :: 0 <= m < |widths| ==> |e.lists[m]| <= widths[m]
    ensures |Row(kind, e, widths)| == |Header(kind, widths)|
  {
    var hs := HeaderParts(kind, widths);
    var rs := RowParts(e, widths);
    assert forall m :: 0 <= m < |widths| ==> |rs[m]| == |hs[m]|;
    ChainShape(rs, hs);
  }
}
