/**
 * Dotted-path resolution over a raw record: `get_path` and `get_path_source` of
 * generate_canonical.py, and the `default`-taking `get_path` of canonical_yaml_to_csv.py.
 */
module Resolve {
  import opened Text
  import opened Tree

  /** The segment a dotted-path piece denotes: a digit string is an index, anything else a key. */
  function Classify(piece: string): Segment {
    if IsDigits(piece) then Index(DigitsValue(piece)) else Key(piece)
  }

  function ClassifyAll(pieces: seq<string>): (r: seq<Segment>)
    ensures |r| == |pieces|
    ensures forall i :: 0 <= i < |pieces| ==> r[i] == Classify(pieces[i])
  {
    if |pieces| == 0 then [] else [Classify(pieces[0])] + ClassifyAll(pieces[1..])
  }

  /** The child of `item` that a single piece selects, when `item` has the kind the piece needs. */
  function Step(item: Node, key: string): Node {
    if IsDigits(key) then
      if item.List? then
        var index := DigitsValue(key);
        if index < |item.items| then item.items[index] else Null
      else Null
    else if item.Map? then MapGet(item.entries, key)
    else Null
  }

  /**
   * `get_path(item, path)` of generate_canonical.py: the node at the dotted `path`, or
   * `Null` (Python's `None`) when anything along the way is missing or of the wrong kind.
   * It never fails: absence is the only signal.
   */
  function GetPath(item: Node, path: string): (r: Node)
    ensures item.Null? ==> r.Null?
    ensures !item.Null? && path == "" ==> r == item
    ensures !item.Null? && path != "" && !HasDot(path) ==> r == Step(item, path)
    decreases |path|
  {
    if item.Null? then item
    else if path == "" then item
    else
      var key := Head(path);
      assert !HasDot(path) ==> key == path;
      if IsDigits(key) && !item.List? then Null
      else if !IsDigits(key) && !item.Map? then Null
      else
        var value := Step(item, key);
        if !HasDot(path) then value else GetPath(value, After(path))
  }

  /**
   * `get_path_source(path)`: the provenance tag of a candidate path, which is the text
   * before its first '.', whatever the record holds.
   */
  function PathSource(path: string): (source: string)
    ensures '.' !in source
    ensures |source| <= |path| && source == path[..|source|]
    ensures |source| == |path| || path[|source|] == '.'
  {
    Head(path)
  }

  /**
   * `get_path(item, path)` agrees with walking the segments a dotted path spells, when the
   * pieces have no dots and the last piece is not empty (a trailing '.' is ignored by Python).
   */
  lemma {:induction false} GetPathIsWalk(item: Node, pieces: seq<string>)
    requires DotFree(pieces)
    requires |pieces| > 0 ==> pieces[|pieces| - 1] != ""
    ensures GetPath(item, Join(pieces)) == Walk(item, ClassifyAll(pieces))
    decreases |pieces|
  {
    var segs := ClassifyAll(pieces);
    if item.Null? {
      WalkNull(segs);
    } else if |pieces| == 0 {
    } else {
      var path := Join(pieces);
      var key := pieces[0];
      var value := Step(item, key);
      assert segs[1..] == ClassifyAll(pieces[1..]);
      WalkStep(item, key, segs[1..]);
      if |pieces| == 1 {
        DotFreeHasNoDot(key);
        assert path == key;
      } else {
        DotAfterDotFree(key, Join(pieces[1..]));
        GetPathIsWalk(value, pieces[1..]);
        if (IsDigits(key) && !item.List?) || (!IsDigits(key) && !item.Map?) {
          assert value.Null?;
          WalkNull(segs[1..]);
        }
      }
    }
  }

  /** Walking from `item` starting with the segment `key` denotes is walking on from `Step(item, key)`. */
  lemma {:induction false} WalkStep(item: Node, key: string, rest: seq<Segment>)
    ensures Walk(item, [Classify(key)] + rest) == Walk(Step(item, key), rest)
  {
    assert ([Classify(key)] + rest)[1..] == rest;
    if !(IsDigits(key) && item.List?) && !(!IsDigits(key) && item.Map?) {
      WalkNull(rest);
    }
  }

  /**
   * `get_path(item, path, default)` of canonical_yaml_to_csv.py: like `GetPath`, but answers
   * `default` wherever the other answers `None`, and also for a final `None` leaf.
   */
  function GetPathOr(item: Node, path: string, default: Node): Node
    decreases |path|
  {
    if item.Null? then default
    else if path == "" then item
    else
      var key := Head(path);
      if IsDigits(key) && !item.List? then default
      else if !IsDigits(key) && !item.Map? then default
      else
        var value := Step(item, key);
        if !HasDot(path) then (if value.Null? then default else value)
        else GetPathOr(value, After(path), default)
  }

  /**
   * The `default` variant is the plain resolver with `None` replaced by `default`: `default`
   * is threaded unchanged through the recursion and returned for every kind of absence.
   */
  lemma {:induction false} GetPathOrIsDefaulted(item: Node, path: string, default: Node)
    ensures GetPathOr(item, path, default) == (if GetPath(item, path).Null? then default else GetPath(item, path))
    decreases |path|
  {
    if !item.Null? && path != "" {
      var key := Head(path);
      if !(IsDigits(key) && !item.List?) && !(!IsDigits(key) && !item.Map?) && HasDot(path) {
        GetPathOrIsDefaulted(Step(item, key), After(path), default);
      }
    }
  }
}
