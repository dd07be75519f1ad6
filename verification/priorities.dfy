/**
 * generate_canonical.js: the JavaScript port, which builds `canonical` from a tree of
 * priority lists (a default tree, optionally overridden by a per-file one) instead of a
 * fixed table. Values are those of JavaScript: `None` is `undefined`, `Some(Null)` is `null`.
 */
module Priorities {
  import opened Wrappers
  import opened Text
  import opened Order
  import opened Tree

  /** A JavaScript value read from YAML, or `undefined`. */
  type Value = Option<Node>

  /** What stops the update of one file (the driver logs it and leaves the file alone). */
  datatype JsError =
    | TypeError    // strict-mode write to a primitive, `split` or `concat` on the wrong type, `Object.keys(null)`
    | RangeError   // the recursion ran out of stack
    | Unmodelled   // a write into an array other than at an existing index, or `concat` onto a string

  /** JavaScript truthiness: unlike Python's, an empty array or object is truthy. */
  predicate JsTruthy(v: Value) {
    match v
    case None => false
    case Some(n) =>
      match n
      case Null => false
      case Str(s) => s != ""
      case Scalar(_, truthy) => truthy
      case List(_) => true
      case Map(_) => true
  }

  /** The spelling of an array index: digits without a leading zero. */
  predicate IsIndex(key: string) {
    IsDigits(key) && (key == "0" || key[0] != '0')
  }

  /** `o[key]` on a value that is not `null`: own properties, and the indices and `length` of arrays and strings. */
  function Member(o: Node, key: string): (r: Value)
    ensures o.Map? ==> r == Find(o.entries, key)
  {
    match o
    case Map(es) => Find(es, key)
    case List(xs) =>
      if key == "length" then Some(Scalar(Decimal(|xs|), |xs| > 0))
      else if IsIndex(key) && DigitsValue(key) < |xs| then Some(xs[DigitsValue(key)])
      else None
    case Str(s) =>
      if key == "length" then Some(Scalar(Decimal(|s|), |s| > 0))
      else if IsIndex(key) && DigitsValue(key) < |s| then Some(Str([s[DigitsValue(key)]]))
      else None
    case _ => None
  }

  predicate Nullish(v: Value) {
    v.None? || v == Some(Null)
  }

  /** One step of `get`'s `reduce`: `undefined`, `null` and an empty key leave the current value. */
  function Step(o: Value, key: string): Value {
    if Nullish(o) || key == "" then o else Member(o.value, key)
  }

  function GetKeys(o: Value, keys: seq<string>): Value
    decreases |keys|
  {
    if |keys| == 0 then o else GetKeys(Step(o, keys[0]), keys[1..])
  }

  /** `get(obj, keyString)`. */
  function Get(obj: Value, keyString: string): (r: Value)
    ensures Nullish(obj) ==> r == obj
    ensures '.' !in keyString ==> r == Step(obj, keyString)
  {
    var keys := SplitAll(keyString);
    assert Nullish(obj) ==> GetKeys(obj, keys) == obj by {
      if Nullish(obj) {
        GetStops(obj, keys);
      }
    }
    assert '.' !in keyString ==> GetKeys(obj, keys) == Step(obj, keyString) by {
      if '.' !in keyString {
        DotFreeHasNoDot(keyString);
        assert GetKeys(obj, keys) == GetKeys(Step(obj, keyString), keys[1..]);
      }
    }
    GetKeys(obj, keys)
  }

  /** Once `undefined` or `null` is reached, `get` returns it whatever keys remain. */
  lemma {:induction false} GetStops(o: Value, keys: seq<string>)
    requires Nullish(o)
    ensures GetKeys(o, keys) == o
    decreases |keys|
  {
    if |keys| > 0 {
      GetStops(o, keys[1..]);
    }
  }

  /** `get` walks key after key, so a path can be split anywhere. */
  lemma {:induction false} GetAppend(o: Value, a: seq<string>, b: seq<string>)
    ensures GetKeys(o, a + b) == GetKeys(GetKeys(o, a), b)
    decreases |a|
  {
    if |a| > 0 {
      assert (a + b)[1..] == a[1..] + b;
      GetAppend(Step(o, a[0]), a[1..], b);
    } else {
      assert a + b == b;
    }
  }

  /** An empty segment (`a..b`) is skipped by `get`. */
  lemma {:induction false} GetSkipsEmpty(o: Value, a: seq<string>, b: seq<string>)
    ensures GetKeys(o, a + [""] + b) == GetKeys(o, a + b)
  {
    GetAppend(o, a + [""], b);
    GetAppend(o, a, [""]);
    GetAppend(o, a, b);
  }

  /** `o[key] = v` in strict mode: objects take any key, arrays only an existing index. */
  function Assign(o: Node, key: string, v: Node): (r: Result<Node, JsError>)
    ensures r.Ok? ==> Member(r.value, key) == Some(v)
    ensures r.Ok? && o.Map? ==> r.value.Map? && forall k :: k != key ==> Member(r.value, k) == Member(o, k)
    ensures o.Map? ==> r.Ok?
    ensures r.Ok? ==> (o.Map? && r.value.Map?) || (o.List? && r.value.List?)
  {
    match o
    case Map(es) => Ok(Map(Put(es, key, v)))
    case List(xs) =>
      if IsIndex(key) && DigitsValue(key) < |xs| then Ok(List(xs[DigitsValue(key) := v])) else Err(Unmodelled)
    case _ => Err(TypeError)
  }

  /** The node `set` goes on into below `o[key]`: the member, or a fresh `{}` when it is missing or `null`. */
  function Descend(o: Node, key: string): (r: Node)
    ensures !Nullish(Member(o, key)) ==> Some(r) == Member(o, key)
    ensures Nullish(Member(o, key)) ==> r == Map([])
  {
    var child := Member(o, key);
    if Nullish(child) then Map([]) else child.value
  }

  /**
   * `set`'s `reduce` from `o`: a missing or `null` intermediate becomes `{}`, the last key is
   * assigned, and `o` is returned updated. Going through a string, number or `null` raises.
   */
  function SetKeys(o: Node, keys: seq<string>, v: Node): (r: Result<Node, JsError>)
    requires |keys| > 0
    ensures r.Ok? && o.Map? ==> r.value.Map? && forall k :: k != keys[0] ==> Member(r.value, k) == Member(o, k)
    ensures r.Ok? ==> (o.Map? && r.value.Map?) || (o.List? && r.value.List?)
    decreases |keys|
  {
    if |keys| == 1 then Assign(o, keys[0], v)
    else if o.Map? || o.List? then
      var start := Descend(o, keys[0]);
      var updated :- SetKeys(start, keys[1..], v);
      Assign(o, keys[0], updated)
    else Err(TypeError)
  }

  /** `set(obj, keyString, value)`. */
  function Set(obj: Node, keyString: string, v: Node): (r: Result<Node, JsError>)
    ensures r.Ok? ==> (obj.Map? && r.value.Map?) || (obj.List? && r.value.List?)
    ensures obj.Map? && '.' !in keyString ==> r.Ok?
    ensures r.Ok? && (forall i :: 0 <= i < |SplitAll(keyString)| ==> SplitAll(keyString)[i] != "") ==>
      Get(Some(r.value), keyString) == Some(v)
  {
    var keys := SplitAll(keyString);
    assert '.' !in keyString ==> keys == [keyString] by {
      if '.' !in keyString {
        DotFreeHasNoDot(keyString);
      }
    }
    assert SetKeys(obj, keys, v).Ok? && (forall i :: 0 <= i < |keys| ==> keys[i] != "") ==>
      GetKeys(Some(SetKeys(obj, keys, v).value), keys) == Some(v) by {
      if SetKeys(obj, keys, v).Ok? && (forall i :: 0 <= i < |keys| ==> keys[i] != "") {
        SetThenGet(obj, keys, v);
      }
    }
    SetKeys(obj, keys, v)
  }

  /** What `set` wrote, `get` reads back, as long as no segment is empty (`get` skips those, `set` does not). */
  lemma {:induction false} SetThenGet(o: Node, keys: seq<string>, v: Node)
    requires |keys| > 0 && SetKeys(o, keys, v).Ok?
    requires forall i :: 0 <= i < |keys| ==> keys[i] != ""
    ensures GetKeys(Some(SetKeys(o, keys, v).value), keys) == Some(v)
    decreases |keys|
  {
    var r := SetKeys(o, keys, v).value;
    if |keys| == 1 {
      assert GetKeys(Some(r), keys) == GetKeys(Step(Some(r), keys[0]), []);
    } else {
      var start := Descend(o, keys[0]);
      var updated := SetKeys(start, keys[1..], v).value;
      assert Member(r, keys[0]) == Some(updated);
      SetThenGet(start, keys[1..], v);
      assert forall i :: 0 <= i < |keys[1..]| ==> keys[1..][i] == keys[i + 1];
    }
  }

  /** An empty segment breaks the round trip: `set(o, 'a.', v)` writes `o.a['']`, `get` reads `o.a`. */
  lemma {:induction false} EmptySegmentNotReadBack()
    ensures SetKeys(Map([]), ["a", ""], Str("v")) == Ok(Map([("a", Map([("", Str("v"))]))]))
    ensures GetKeys(Some(Map([("a", Map([("", Str("v"))]))])), ["a", ""]) == Some(Map([("", Str("v"))]))
  {
    assert GetKeys(Some(Map([("a", Map([("", Str("v"))]))])), ["a", ""])
        == GetKeys(Some(Map([("", Str("v"))])), [""]);
  }

  /** A digit string without a leading zero is the decimal rendering of its value. */
  lemma {:induction false} IndexIsDecimal(key: string)
    requires IsIndex(key)
    ensures Decimal(DigitsValue(key)) == key
    decreases |key|
  {
    var n := DigitsValue(key);
    if |key| > 1 {
      var p := key[..|key| - 1];
      assert p[0] == key[0];
      assert IsIndex(p);
      LeadingDigitPositive(p);
      IndexIsDecimal(p);
      assert n / 10 == DigitsValue(p) && n % 10 == key[|key| - 1] as int - '0' as int;
      assert key == p + [key[|key| - 1]];
    }
  }

  lemma {:induction false} LeadingDigitPositive(s: string)
    requires IsDigits(s) && s[0] != '0'
    ensures DigitsValue(s) > 0
    decreases |s|
  {
    if |s| > 1 {
      var p := s[..|s| - 1];
      assert p[0] == s[0];
      LeadingDigitPositive(p);
    }
  }

  /** Two array-index spellings with the same value are the same string. */
  lemma {:induction false} IndexSpellingUnique(a: string, b: string)
    requires IsIndex(a) && IsIndex(b) && DigitsValue(a) == DigitsValue(b)
    ensures a == b
  {
    IndexIsDecimal(a);
    IndexIsDecimal(b);
  }

  /** An assignment to an object or an array changes no other member. */
  lemma {:induction false} AssignFrame(o: Node, key: string, v: Node, k: string)
    requires Assign(o, key, v).Ok? && k != key
    ensures Member(Assign(o, key, v).value, k) == Member(o, k)
  {
    if o.List? && IsIndex(k) && IsIndex(key) && DigitsValue(k) == DigitsValue(key) {
      IndexSpellingUnique(k, key);
    }
  }

  /** Nothing is found below `{}`. */
  lemma {:induction false} EmptyObjectGet(keys: seq<string>)
    requires |keys| > 0 && keys[0] != ""
    ensures GetKeys(Some(Map([])), keys) == None
  {
    GetStops(None, keys[1..]);
  }

  /** `set` on an object or an array changes no member other than the first key of its path. */
  lemma {:induction false} SetKeysTopFrame(o: Node, keys: seq<string>, v: Node, k: string)
    requires |keys| > 0 && SetKeys(o, keys, v).Ok? && k != keys[0]
    ensures Member(SetKeys(o, keys, v).value, k) == Member(o, k)
  {
    if |keys| == 1 {
      AssignFrame(o, keys[0], v, k);
    } else {
      var start := Descend(o, keys[0]);
      AssignFrame(o, keys[0], SetKeys(start, keys[1..], v).value, k);
    }
  }

  /**
   * `set` touches only its own path: a path that leaves it after `j` shared segments reads
   * what it read before, unless the shared part was missing or `null` — then `set` created
   * `{}` there, holding only the key it went on with, and the path reads `undefined`.
   */
  lemma {:induction false} SetKeysFrame(o: Node, keys: seq<string>, v: Node, q: seq<string>, j: nat)
    requires |keys| > 0 && SetKeys(o, keys, v).Ok?
    requires j < |keys| && j < |q| && q[..j] == keys[..j] && q[j] != keys[j]
    requires forall i :: 0 <= i <= j ==> q[i] != ""
    ensures GetKeys(Some(SetKeys(o, keys, v).value), q)
         == if Nullish(GetKeys(Some(o), keys[..j])) then None else GetKeys(Some(o), q)
    decreases j
  {
    if j == 0 {
      SetKeysTopFrame(o, keys, v, q[0]);
    } else {
      var r := SetKeys(o, keys, v).value;
      var child := Member(o, keys[0]);
      var start := Descend(o, keys[0]);
      var updated := SetKeys(start, keys[1..], v).value;
      assert q[0] == q[..j][0] == keys[0];
      SetKeysDescends(o, keys, v);
      assert GetKeys(Some(r), q) == GetKeys(Some(updated), q[1..]) by {
        assert Step(Some(r), q[0]) == Some(updated);
      }
      assert GetKeys(Some(o), q) == GetKeys(child, q[1..]) by {
        assert Step(Some(o), q[0]) == child;
      }
      assert GetKeys(Some(o), keys[..j]) == GetKeys(child, keys[1..j]) by {
        assert keys[..j][0] == keys[0] && keys[..j][1..] == keys[1..j];
        assert Step(Some(o), keys[0]) == child;
      }
      assert q[1..][..j - 1] == q[1..j] == keys[1..j] == keys[1..][..j - 1] by {
        assert q[1..j] == q[..j][1..] && keys[1..j] == keys[..j][1..];
      }
      SetKeysFrame(start, keys[1..], v, q[1..], j - 1);
      if Nullish(child) {
        GetStops(child, keys[1..j]);
        FreshObjectGet(keys[1..j], q[1..]);
      }
    }
  }

  /** `set` descends through its first key: the written value is `set` one level down. */
  lemma {:induction false} SetKeysDescends(o: Node, keys: seq<string>, v: Node)
    requires |keys| > 1 && SetKeys(o, keys, v).Ok?
    ensures o.Map? || o.List?
    ensures SetKeys(Descend(o, keys[0]), keys[1..], v).Ok?
    ensures Member(SetKeys(o, keys, v).value, keys[0]) == Some(SetKeys(Descend(o, keys[0]), keys[1..], v).value)
    ensures Nullish(Member(o, keys[0])) ==> Member(SetKeys(o, keys, v).value, keys[0]).value.Map?
  {
  }

  /** A path that reads `undefined` below a fresh `{}`, whether it leaves at once or after shared keys. */
  lemma {:induction false} FreshObjectGet(shared: seq<string>, q: seq<string>)
    requires |q| > 0 && q[0] != "" && (|shared| > 0 ==> shared[0] == q[0])
    ensures (if Nullish(GetKeys(Some(Map([])), shared)) then None else GetKeys(Some(Map([])), q)) == None
  {
    EmptyObjectGet(q);
    if |shared| > 0 {
      EmptyObjectGet(shared);
    }
  }


  // Priorities

  /** The two priority trees: the default one, and the per-file one (`undefined` when there is no such file). */
  datatype Trees = Trees(defaults: Value, custom: Value)

  /** The priority node for a property: the custom one when the path is non-empty and both lookups are truthy. */
  function KeyPriorities(prop: string, trees: Trees): (r: Value)
    ensures r == Get(trees.defaults, prop) || r == Get(trees.custom, prop)
  {
    var fromDefault := Get(trees.defaults, prop);
    if prop != "" && JsTruthy(trees.custom) && JsTruthy(Get(trees.custom, prop)) then Get(trees.custom, prop)
    else fromDefault
  }

  /** A falsy value stays falsy down any path: `null` and `undefined` stop, `''`, `0` and `false` have no truthy member. */
  lemma {:induction false} FalsyStaysFalsy(o: Value, keys: seq<string>)
    requires !JsTruthy(o)
    ensures !JsTruthy(GetKeys(o, keys))
    decreases |keys|
  {
    if |keys| > 0 {
      FalsyStaysFalsy(Step(o, keys[0]), keys[1..]);
    }
  }

  /**
   * A truthy entry of the custom tree overrides the default one, and only then (the root
   * path `''` always reads the default tree). The test of the custom tree itself is implied.
   */
  lemma {:induction false} CustomOverrides(prop: string, trees: Trees)
    ensures KeyPriorities(prop, trees)
         == if prop != "" && JsTruthy(Get(trees.custom, prop)) then Get(trees.custom, prop) else Get(trees.defaults, prop)
  {
    if !JsTruthy(trees.custom) {
      FalsyStaysFalsy(trees.custom, SplitAll(prop));
    }
  }

  /** Every key `Object.keys` lists for an object, array or string reads back as a member. */
  lemma {:induction false} KeysAreMembers(o: Node, i: nat)
    requires ObjectKeys(Some(o)).Ok? && i < |ObjectKeys(Some(o)).value|
    ensures Member(o, ObjectKeys(Some(o)).value[i]).Some?
  {
    match o {
      case Map(es) =>
        assert es[i].0 == ObjectKeys(Some(o)).value[i];
      case List(xs) =>
        assert ObjectKeys(Some(o)).value[i] == Decimal(i);
      case Str(s) =>
        assert ObjectKeys(Some(o)).value[i] == Decimal(i);
      case _ =>
    }
  }

  /** `Object.keys(node)`: a string has its indices as keys, a number or boolean none, `null` raises. */
  function ObjectKeys(v: Value): (r: Result<seq<string>, JsError>)
    ensures r.Err? <==> Nullish(v)
  {
    match v
    case None => Err(TypeError)
    case Some(n) =>
      match n
      case Null => Err(TypeError)
      case Map(es) => Ok(seq(|es|, i requires 0 <= i < |es| => es[i].0))
      case List(xs) => Ok(seq(|xs|, i requires 0 <= i < |xs| => Decimal(i)))
      case Str(s) => Ok(seq(|s|, i requires 0 <= i < |s| => Decimal(i)))
      case Scalar(_, _) => Ok([])
  }

  /** The property path ends with `[]`: its candidates accumulate instead of the first one winning. */
  predicate Accumulates(prop: string) {
    |prop| >= 2 && prop[|prop| - 2..] == "[]"
  }

  /** `prop.replace(/\[|]$/, '')`: drops the first `[`, or a final `]` if that comes first. */
  function ReadKey(prop: string): (r: string)
    ensures '[' in prop || (|prop| > 0 && prop[|prop| - 1] == ']') ==> |r| == |prop| - 1
    ensures !('[' in prop || (|prop| > 0 && prop[|prop| - 1] == ']')) ==> r == prop
    decreases |prop|
  {
    if |prop| == 0 then prop
    else if prop[0] == '[' || (prop[0] == ']' && |prop| == 1) then prop[1..]
    else [prop[0]] + ReadKey(prop[1..])
  }

  /** For `w[]` with no other bracket, the list is read back from `w]`, which is not where it is written. */
  lemma {:induction false} ReadKeyMisses(w: string)
    requires '[' !in w
    ensures ReadKey(w + "[]") == w + "]"
    ensures WriteKey(w + "[]") == w && ReadKey(w + "[]") != WriteKey(w + "[]")
  {
    if |w| > 0 {
      assert (w + "[]")[1..] == w[1..] + "[]";
      ReadKeyMisses(w[1..]);
      assert w == [w[0]] + w[1..];
    }
    assert (w + "[]")[..|w + "[]"| - 2] == w;
    assert |ReadKey(w + "[]")| != |w|;
  }

  /** `prop.replace(/\[\]$/, '')`. */
  function WriteKey(prop: string): (r: string)
    ensures Accumulates(prop) ==> prop == r + "[]"
  {
    if Accumulates(prop) then prop[..|prop| - 2] else prop
  }

  /** `{value, source}`. */
  function Pair(v: Node, source: string): Node {
    Map([("value", v), ("source", Str(source))])
  }

  /** What one found candidate adds to an accumulating property: each array element, or the value itself. */
  function Added(v: Node, source: string): (r: seq<Node>)
    ensures v.List? ==> |r| == |v.items| && forall i :: 0 <= i < |v.items| ==> r[i] == Pair(v.items[i], source)
    ensures !v.List? ==> r == [Pair(v, source)]
  {
    if v.List? then seq(|v.items|, i requires 0 <= i < |v.items| => Pair(v.items[i], source)) else [Pair(v, source)]
  }

  /** `set(destData, prop, value)`, where `destData` is `data.canonical`. */
  function SetCanonical(data: Node, prop: string, v: Node): Result<Node, JsError> {
    SetKeys(data, ["canonical"] + SplitAll(prop), v)
  }

  /** `get(destData, key)`. */
  function GetCanonical(data: Node, key: string): Value {
    if data.Map? || data.List? || data.Str? then Get(Member(data, "canonical"), key) else None
  }

  /** `(current || []).concat(added)`: a truthy non-array has no `concat` (a string's concatenates text). */
  function Concat(current: Value, added: seq<Node>): (r: Result<Node, JsError>)
    ensures r.Ok? <==> !JsTruthy(current) || current.value.List?
    ensures r.Ok? ==> r.value.List? && r.value.items == (if JsTruthy(current) then current.value.items else []) + added
    ensures r.Err? ==> r.error == (if current.value.Str? then Unmodelled else TypeError)
  {
    if !JsTruthy(current) then Ok(List(added))
    else
      match current.value
      case List(xs) => Ok(List(xs + added))
      case Str(_) => Err(Unmodelled)
      case _ => Err(TypeError)
  }

  /** Lines 62-68 as written: the list is read back under `ReadKey(prop)` and stored under `WriteKey(prop)`. */
  function Accumulate(data: Node, prop: string, v: Node, source: string): Result<Node, JsError> {
    var merged :- Concat(GetCanonical(data, ReadKey(prop)), Added(v, source));
    SetCanonical(data, WriteKey(prop), merged)
  }

  /** The same step reading the list back from where it is stored. */
  function AccumulateFixed(data: Node, prop: string, v: Node, source: string): Result<Node, JsError> {
    var merged :- Concat(GetCanonical(data, WriteKey(prop)), Added(v, source));
    SetCanonical(data, WriteKey(prop), merged)
  }

  /** Which accumulation step a run uses. */
  datatype Variant = AsWritten | Fixed

  function AccumulateBy(variant: Variant, data: Node, prop: string, v: Node, source: string): Result<Node, JsError> {
    if variant == AsWritten then Accumulate(data, prop, v, source) else AccumulateFixed(data, prop, v, source)
  }

  /**
   * The loop over the candidate paths of a priority list: a non-string candidate raises in
   * `split`; an `undefined` lookup is skipped; `null` counts as found.
   */
  function Candidates(data: Node, prop: string, cands: seq<Node>, variant: Variant): Result<Node, JsError>
    decreases |cands|
  {
    if |cands| == 0 then Ok(data)
    else if !cands[0].Str? then Err(TypeError)
    else
      var path := cands[0].s;
      var value := Get(Some(data), path);
      if value.None? then Candidates(data, prop, cands[1..], variant)
      else if Accumulates(prop) then
        var next :- AccumulateBy(variant, data, prop, value.value, Head(path));
        Candidates(next, prop, cands[1..], variant)
      else SetCanonical(data, prop, Pair(value.value, Head(path)))
  }

  /** `updateKey(propertyPath.join('.'))`, with `fuel` standing for the stack it may still use. */
  function UpdateKey(data: Node, path: seq<string>, trees: Trees, variant: Variant, fuel: nat): Result<Node, JsError>
    decreases fuel, 0
  {
    if fuel == 0 then Err(RangeError)
    else
      var prop := Join(path);
      var kp := KeyPriorities(prop, trees);
      if kp.Some? && kp.value.List? then Candidates(data, prop, kp.value.items, variant)
      else
        var subs :- ObjectKeys(kp);
        UpdateSubKeys(data, path, subs, trees, variant, fuel - 1)
  }

  /** `Object.keys(keyPriorities).forEach(...)`: each sub-property in turn, one level deeper. */
  function UpdateSubKeys(data: Node, path: seq<string>, subs: seq<string>, trees: Trees, variant: Variant, fuel: nat)
    : Result<Node, JsError>
    decreases fuel, 1, |subs|
  {
    if |subs| == 0 then Ok(data)
    else
      var next :- UpdateKey(data, path + [subs[0]], trees, variant, fuel);
      UpdateSubKeys(next, path, subs[1..], trees, variant, fuel)
  }

  /** `updateFile` without the I/O: `data.canonical = {}`, then `updateFromPriorities` from the root. */
  function UpdateFile(data: Value, trees: Trees, variant: Variant, fuel: nat): Result<Node, JsError> {
    if data.None? then Err(TypeError)
    else
      match data.value
      case Map(es) => UpdateKey(Map(Put(es, "canonical", Map([]))), [], trees, variant, fuel)
      case List(_) => Err(Unmodelled)
      case _ => Err(TypeError)
  }

  // Properties of the update

  /** Among the candidates of a plain property, the first one found is written, with its first segment as source. */
  lemma {:induction false} FirstFoundWins(data: Node, prop: string, cands: seq<Node>, k: nat, variant: Variant)
    requires !Accumulates(prop) && k < |cands|
    requires forall i :: 0 <= i < k ==> cands[i].Str? && Get(Some(data), cands[i].s).None?
    requires cands[k].Str? && Get(Some(data), cands[k].s).Some?
    ensures Candidates(data, prop, cands, variant)
         == SetCanonical(data, prop, Pair(Get(Some(data), cands[k].s).value, Head(cands[k].s)))
    decreases k
  {
    if k > 0 {
      assert cands[0].Str? && Get(Some(data), cands[0].s).None?;
      FirstFoundWins(data, prop, cands[1..], k - 1, variant);
    }
  }

  /** When no candidate is found, nothing is written. */
  lemma {:induction false} NoneFound(data: Node, prop: string, cands: seq<Node>, variant: Variant)
    requires forall i :: 0 <= i < |cands| ==> cands[i].Str? && Get(Some(data), cands[i].s).None?
    ensures Candidates(data, prop, cands, variant) == Ok(data)
  {
    if |cands| > 0 {
      NoneFound(data, prop, cands[1..], variant);
    }
  }

  /** The written pair can be read back under the property's path, when it has no empty segment. */
  lemma {:induction false} FoundIsReadBack(data: Node, prop: string, v: Node, source: string)
    requires SetCanonical(data, prop, Pair(v, source)).Ok?
    requires forall i :: 0 <= i < |SplitAll(prop)| ==> SplitAll(prop)[i] != ""
    ensures GetCanonical(SetCanonical(data, prop, Pair(v, source)).value, prop) == Some(Pair(v, source))
  {
    var keys := ["canonical"] + SplitAll(prop);
    var r := SetCanonical(data, prop, Pair(v, source)).value;
    assert forall i :: 0 <= i < |keys| ==> keys[i] != "" by {
      forall i | 0 <= i < |keys| ensures keys[i] != "" {
        if i > 0 {
          assert keys[i] == SplitAll(prop)[i - 1];
        }
      }
    }
    SetThenGet(data, keys, Pair(v, source));
    GetAppend(Some(r), ["canonical"], SplitAll(prop));
  }

  /**
   * As written, an accumulating step reads `ReadKey(prop)`, which never holds the list: the
   * list stored under `WriteKey(prop)` is replaced by the current candidate's items alone.
   */
  lemma {:induction false} AccumulateDropsEarlier(data: Node, prop: string, v: Node, source: string)
    requires Accumulates(prop)
    requires !JsTruthy(GetCanonical(data, ReadKey(prop)))
    ensures Accumulate(data, prop, v, source) == SetCanonical(data, WriteKey(prop), List(Added(v, source)))
  {
  }

  /** The corrected step appends the candidate's items to the list already stored. */
  lemma {:induction false} AccumulateFixedAppends(data: Node, prop: string, v: Node, source: string, earlier: seq<Node>)
    requires Accumulates(prop)
    requires GetCanonical(data, WriteKey(prop)) == Some(List(earlier))
    ensures AccumulateFixed(data, prop, v, source) == SetCanonical(data, WriteKey(prop), List(earlier + Added(v, source)))
  {
  }

  /** The record `{canonical: {}, a: 'x', b: 'y'}` and the priority list `t[]: [a, b]`. */
  function TwoSources(): Node {
    Map([("canonical", Map([])), ("a", Str("x")), ("b", Str("y"))])
  }

  /** `TwoSources` with `canonical` set to `c`. */
  function WithCanonical(c: Node): Node {
    Map([("canonical", c), ("a", Str("x")), ("b", Str("y"))])
  }

  /** Setting `canonical` in the example record. */
  lemma {:induction false} PutCanonical(c: Node, d: Node)
    ensures Put(WithCanonical(c).entries, "canonical", d) == WithCanonical(d).entries
  {
    var es := WithCanonical(c).entries;
    assert es[0].0 == "canonical";
    assert [("canonical", d)] + es[1..] == WithCanonical(d).entries;
  }

  lemma {:induction false} SplitSingle(s: string)
    requires '.' !in s
    ensures SplitAll(s) == [s] && Head(s) == s
  {
    DotFreeHasNoDot(s);
  }

  /** Reading a one-segment key of a record's `canonical` mapping. */
  lemma {:induction false} GetCanonicalOne(es: seq<(string, Node)>, c: seq<(string, Node)>, key: string)
    requires Find(es, "canonical") == Some(Map(c)) && key != "" && '.' !in key
    ensures GetCanonical(Map(es), key) == Find(c, key)
  {
    SplitSingle(key);
    assert [key][1..] == [];
    assert GetKeys(Some(Map(c)), [key]) == GetKeys(Find(c, key), []);
  }

  /** Writing a one-segment key into a record's `canonical` mapping. */
  lemma {:induction false} SetCanonicalOne(es: seq<(string, Node)>, c: seq<(string, Node)>, key: string, v: Node)
    requires Find(es, "canonical") == Some(Map(c)) && '.' !in key
    ensures SetCanonical(Map(es), key, v) == Ok(Map(Put(es, "canonical", Map(Put(c, key, v)))))
  {
    SplitSingle(key);
    var keys := ["canonical"] + [key];
    assert keys[1..] == [key];
    var updated := Map(Put(c, key, v));
    assert SetKeys(Map(c), [key], v) == Ok(updated);
    assert SetKeys(Map(es), keys, v) == Assign(Map(es), "canonical", updated);
  }

  /** Reading a one-segment path of a mapping. */
  lemma {:induction false} GetOne(es: seq<(string, Node)>, key: string)
    requires key != "" && '.' !in key
    ensures Get(Some(Map(es)), key) == Find(es, key)
  {
    SplitSingle(key);
    assert [key][1..] == [];
    assert GetKeys(Some(Map(es)), [key]) == GetKeys(Find(es, key), []);
  }

  /** Candidate `a` of the example is found, with value `'x'` and source `a`. */
  lemma {:induction false} FoundA(c: Node)
    ensures Get(Some(WithCanonical(c)), "a") == Some(Str("x")) && Head("a") == "a"
  {
    SplitSingle("a");
    var es := WithCanonical(c).entries;
    GetOne(es, "a");
    assert es[0].0[0] != 'a';
    assert Find(es, "a") == Find(es[1..], "a");
  }

  /** Candidate `b` of the example is found, with value `'y'` and source `b`. */
  lemma {:induction false} FoundB(c: Node)
    ensures Get(Some(WithCanonical(c)), "b") == Some(Str("y")) && Head("b") == "b"
  {
    SplitSingle("b");
    var es := WithCanonical(c).entries;
    GetOne(es, "b");
    assert es[0].0[0] != 'b' && es[1].0 != "b";
    assert es[1..][1..] == es[2..] == [("b", Str("y"))];
    assert Find(es, "b") == Find(es[1..], "b") == Find(es[2..], "b");
  }

  lemma {:induction false} TwoSourcesKeys()
    ensures Accumulates("t[]") && ReadKey("t[]") == "t]" && WriteKey("t[]") == "t"
  {
  }

  /** One accumulating step of the example, as written: the earlier list under `t` is not read back. */
  lemma {:induction false} AsWrittenStep(earlier: seq<Node>, v: Node, source: string)
    ensures Accumulate(WithCanonical(Map([("t", List(earlier))])), "t[]", v, source)
         == Ok(WithCanonical(Map([("t", List(Added(v, source)))])))
  {
    TwoSourcesKeys();
    var es := WithCanonical(Map([("t", List(earlier))])).entries;
    var c := [("t", List(earlier))];
    GetCanonicalOne(es, c, "t]");
    assert Find(c, "t]") == None;
    SetCanonicalOne(es, c, "t", List(Added(v, source)));
    assert Put(c, "t", List(Added(v, source))) == [("t", List(Added(v, source)))];
    PutCanonical(Map(c), Map([("t", List(Added(v, source)))]));
  }

  /** One accumulating step of the example, corrected: the earlier list under `t` is extended. */
  lemma {:induction false} FixedStep(earlier: seq<Node>, v: Node, source: string)
    ensures AccumulateFixed(WithCanonical(Map([("t", List(earlier))])), "t[]", v, source)
         == Ok(WithCanonical(Map([("t", List(earlier + Added(v, source)))])))
  {
    TwoSourcesKeys();
    var es := WithCanonical(Map([("t", List(earlier))])).entries;
    var c := [("t", List(earlier))];
    var merged := List(earlier + Added(v, source));
    GetCanonicalOne(es, c, "t");
    assert Concat(Some(List(earlier)), Added(v, source)) == Ok(merged);
    SetCanonicalOne(es, c, "t", merged);
    assert Put(c, "t", merged) == [("t", merged)];
    PutCanonical(Map(c), Map([("t", merged)]));
  }

  /** The first step starts from `canonical: {}`, where both variants write the candidate's pair alone. */
  lemma {:induction false} FirstStep(variant: Variant)
    ensures AccumulateBy(variant, TwoSources(), "t[]", Str("x"), "a")
         == Ok(WithCanonical(Map([("t", List([Pair(Str("x"), "a")]))])))
  {
    TwoSourcesKeys();
    var es := TwoSources().entries;
    GetCanonicalOne(es, [], "t]");
    GetCanonicalOne(es, [], "t");
    var merged := List([Pair(Str("x"), "a")]);
    assert Added(Str("x"), "a") == [Pair(Str("x"), "a")];
    assert Concat(None, Added(Str("x"), "a")) == Ok(merged);
    SetCanonicalOne(es, [], "t", merged);
    assert Put([], "t", merged) == [("t", merged)];
    PutCanonical(Map([]), Map([("t", merged)]));
  }

  /** A found candidate of an accumulating property: the loop continues from the updated record. */
  lemma {:induction false} CandidatesStep(data: Node, prop: string, cands: seq<Node>, variant: Variant, next: Node)
    requires |cands| > 0 && cands[0].Str? && Get(Some(data), cands[0].s).Some? && Accumulates(prop)
    requires AccumulateBy(variant, data, prop, Get(Some(data), cands[0].s).value, Head(cands[0].s)) == Ok(next)
    ensures Candidates(data, prop, cands, variant) == Candidates(next, prop, cands[1..], variant)
  {
  }

  /** Both candidates are found, yet as written only the second one's pair remains under `t`. */
  lemma {:induction false} AsWrittenKeepsLast(data: Node, cands: seq<Node>)
    requires data == TwoSources() && cands == [Str("a"), Str("b")]
    ensures Candidates(data, "t[]", cands, AsWritten)
         == Ok(WithCanonical(Map([("t", List([Pair(Str("y"), "b")]))])))
  {
    var px := Pair(Str("x"), "a");
    var first := WithCanonical(Map([("t", List([px]))]));
    var last := WithCanonical(Map([("t", List(Added(Str("y"), "b")))]));
    assert Candidates(TwoSources(), "t[]", cands, AsWritten) == Candidates(first, "t[]", cands[1..], AsWritten) by {
      TwoSourcesKeys();
      FoundA(Map([]));
      FirstStep(AsWritten);
      CandidatesStep(TwoSources(), "t[]", cands, AsWritten, first);
    }
    assert Candidates(first, "t[]", cands[1..], AsWritten) == Candidates(last, "t[]", [], AsWritten) by {
      TwoSourcesKeys();
      FoundB(Map([("t", List([px]))]));
      AsWrittenStep([px], Str("y"), "b");
      CandidatesStep(first, "t[]", cands[1..], AsWritten, last);
      assert cands[1..][1..] == [];
    }
    assert Added(Str("y"), "b") == [Pair(Str("y"), "b")];
  }

  /** The corrected step keeps both candidates' pairs, in priority order. */
  lemma {:induction false} FixedKeepsBoth(data: Node, cands: seq<Node>)
    requires data == TwoSources() && cands == [Str("a"), Str("b")]
    ensures Candidates(data, "t[]", cands, Fixed)
         == Ok(WithCanonical(Map([("t", List([Pair(Str("x"), "a"), Pair(Str("y"), "b")]))])))
  {
    var px, py := Pair(Str("x"), "a"), Pair(Str("y"), "b");
    var first := WithCanonical(Map([("t", List([px]))]));
    var last := WithCanonical(Map([("t", List([px, py]))]));
    assert Candidates(TwoSources(), "t[]", cands, Fixed) == Candidates(first, "t[]", cands[1..], Fixed) by {
      TwoSourcesKeys();
      FoundA(Map([]));
      FirstStep(Fixed);
      CandidatesStep(TwoSources(), "t[]", cands, Fixed, first);
    }
    assert Candidates(first, "t[]", cands[1..], Fixed) == Candidates(last, "t[]", [], Fixed) by {
      TwoSourcesKeys();
      FoundB(Map([("t", List([px]))]));
      FixedStep([px], Str("y"), "b");
      assert [px] + Added(Str("y"), "b") == [px, py] by {
        assert Added(Str("y"), "b") == [py];
      }
      CandidatesStep(first, "t[]", cands[1..], Fixed, last);
      assert cands[1..][1..] == [];
    }
  }

  /** Only `canonical` changes: every other key of the record keeps its value. */
  ghost predicate SameOutside(before: Node, after: Node) {
    before.Map? && after.Map? && forall k :: k != "canonical" ==> Find(after.entries, k) == Find(before.entries, k)
  }

  /** A write under `canonical` touches no other key. */
  lemma {:induction false} SetCanonicalKeepsOutside(data: Node, prop: string, v: Node)
    requires data.Map? && SetCanonical(data, prop, v).Ok?
    ensures SameOutside(data, SetCanonical(data, prop, v).value)
  {
    var keys := ["canonical"] + SplitAll(prop);
    assert keys[0] == "canonical";
    var r := SetKeys(data, keys, v).value;
    forall k | k != "canonical" ensures Find(r.entries, k) == Find(data.entries, k) {
      assert Member(r, k) == Member(data, k);
    }
  }

  /** One accumulating step, in either variant, touches no key but `canonical`. */
  lemma {:induction false} AccumulateKeepsOutside(data: Node, prop: string, v: Node, source: string, variant: Variant)
    requires data.Map?
    requires AccumulateBy(variant, data, prop, v, source).Ok?
    ensures SameOutside(data, AccumulateBy(variant, data, prop, v, source).value)
  {
    var key := if variant == AsWritten then ReadKey(prop) else WriteKey(prop);
    var merged := Concat(GetCanonical(data, key), Added(v, source)).value;
    SetCanonicalKeepsOutside(data, WriteKey(prop), merged);
  }

  lemma {:induction false} CandidatesKeepOutside(data: Node, prop: string, cands: seq<Node>, variant: Variant)
    requires data.Map? && Candidates(data, prop, cands, variant).Ok?
    ensures SameOutside(data, Candidates(data, prop, cands, variant).value)
    decreases |cands|
  {
    if |cands| > 0 && cands[0].Str? {
      var path := cands[0].s;
      var value := Get(Some(data), path);
      if value.None? {
        CandidatesKeepOutside(data, prop, cands[1..], variant);
      } else if Accumulates(prop) {
        var next := AccumulateBy(variant, data, prop, value.value, Head(path)).value;
        AccumulateKeepsOutside(data, prop, value.value, Head(path), variant);
        CandidatesKeepOutside(next, prop, cands[1..], variant);
      } else {
        SetCanonicalKeepsOutside(data, prop, Pair(value.value, Head(path)));
      }
    }
  }

  /**
   * `updateKey` changes no key but `canonical`. Values are stored as copies here; JavaScript
   * stores references, through which a later `set` can reach the record's own objects.
   */
  lemma {:induction false} UpdateKeyKeepsOutside(data: Node, path: seq<string>, trees: Trees, variant: Variant, fuel: nat)
    requires data.Map? && UpdateKey(data, path, trees, variant, fuel).Ok?
    ensures SameOutside(data, UpdateKey(data, path, trees, variant, fuel).value)
    decreases fuel, 0
  {
    var prop := Join(path);
    var kp := KeyPriorities(prop, trees);
    if kp.Some? && kp.value.List? {
      CandidatesKeepOutside(data, prop, kp.value.items, variant);
    } else {
      UpdateSubKeysKeepOutside(data, path, ObjectKeys(kp).value, trees, variant, fuel - 1);
    }
  }

  /** The recursion over sub-properties changes no key but `canonical` (values stored as copies). */
  lemma {:induction false} UpdateSubKeysKeepOutside(data: Node, path: seq<string>, subs: seq<string>, trees: Trees,
                                                    variant: Variant, fuel: nat)
    requires data.Map? && UpdateSubKeys(data, path, subs, trees, variant, fuel).Ok?
    ensures SameOutside(data, UpdateSubKeys(data, path, subs, trees, variant, fuel).value)
    decreases fuel, 1, |subs|
  {
    if |subs| > 0 {
      var next := UpdateKey(data, path + [subs[0]], trees, variant, fuel).value;
      UpdateKeyKeepsOutside(data, path + [subs[0]], trees, variant, fuel);
      UpdateSubKeysKeepOutside(next, path, subs[1..], trees, variant, fuel);
    }
  }

  /** `updateFile` leaves every key of the record but `canonical` as it was (values stored as copies). */
  lemma {:induction false} UpdateFileKeepsOutside(es: seq<(string, Node)>, trees: Trees, variant: Variant, fuel: nat)
    requires UpdateFile(Some(Map(es)), trees, variant, fuel).Ok?
    ensures SameOutside(Map(es), UpdateFile(Some(Map(es)), trees, variant, fuel).value)
  {
    UpdateKeyKeepsOutside(Map(Put(es, "canonical", Map([]))), [], trees, variant, fuel);
  }

  /** `canonical` is rebuilt from `{}`: whatever it held before has no influence on the result. */
  lemma {:induction false} ResetForgetsCanonical(es: seq<(string, Node)>, old1: Node, old2: Node, trees: Trees,
                                                  variant: Variant, fuel: nat)
    ensures UpdateFile(Some(Map(Put(es, "canonical", old1))), trees, variant, fuel)
         == UpdateFile(Some(Map(Put(es, "canonical", old2))), trees, variant, fuel)
  {
    PutPut(es, "canonical", old1, Map([]));
    PutPut(es, "canonical", old2, Map([]));
  }

  // Key order of the dumped YAML

  /** `sortKeys(a, b)`: negative when `a` goes first. */
  function SortKeys(a: string, b: string): int
    decreases if a == "_source" || a == "name" || a == "canonical" then 0 else 1
  {
    if a == "_source" then -1
    else if a == "name" then (if b == "_source" then 1 else -1)
    else if a == "canonical" then (if b == "name" || b == "_source" then 1 else -1)
    else if b == "_source" || b == "name" || b == "canonical" then SortKeys(b, a) * -1
    else if Less(a, b) then -1
    else if Less(b, a) then 1
    else 0
  }

  /** The intended order: `_source`, `name`, `canonical`, then every other key by code point. */
  function Rank(key: string): nat {
    if key == "_source" then 0 else if key == "name" then 1 else if key == "canonical" then 2 else 3
  }

  predicate KeyBefore(a: string, b: string) {
    Rank(a) < Rank(b) || (Rank(a) == 3 && Rank(b) == 3 && Less(a, b))
  }

  /** On two different keys the comparator is antisymmetric and agrees with `KeyBefore`. */
  lemma {:induction false} SortKeysOrder(a: string, b: string)
    requires a != b
    ensures SortKeys(a, b) == -SortKeys(b, a)
    ensures SortKeys(a, b) == -1 || SortKeys(a, b) == 1
    ensures SortKeys(a, b) == -1 <==> KeyBefore(a, b)
  {
    if Rank(a) == 3 && Rank(b) == 3 {
      LessTotal(a, b);
      if Less(a, b) {
        LessAsymmetric(a, b);
      } else {
        LessAsymmetric(b, a);
      }
    }
  }

  /** `KeyBefore` is a strict total order on keys, so the dumped key order is well defined. */
  lemma {:induction false} KeyBeforeOrder(a: string, b: string, c: string)
    ensures !KeyBefore(a, a)
    ensures a != b ==> KeyBefore(a, b) != KeyBefore(b, a)
    ensures KeyBefore(a, b) && KeyBefore(b, c) ==> KeyBefore(a, c)
  {
    LessIrreflexive(a);
    if a != b && Rank(a) == 3 && Rank(b) == 3 {
      LessTotal(a, b);
      if Less(a, b) {
        LessAsymmetric(a, b);
      }
    }
    if KeyBefore(a, b) && KeyBefore(b, c) && Rank(a) == 3 && Rank(b) == 3 && Rank(c) == 3 {
      LessTransitive(a, b, c);
    }
  }
}
