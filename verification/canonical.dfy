/**
 * The per-field merge loops of generate_canonical.py's `main`: which candidate paths are read,
 * how their nodes become contributions, and how each field's policy folds them into the
 * record's `canonical` mapping. The field tables are parameters (`FieldSpec`); the ones the
 * program hard-codes per entity type are the constants of module `Tables`.
 */
module Canonical {
  import opened Wrappers
  import opened Text
  import opened Tree
  import opened Resolve
  import opened Extract
  import opened Provenance
  import opened Order

  /** Why a record aborts the run (the program has no recovery: the exception ends `main`). */
  datatype Failure =
    | NotAString(path: string)  // `value.strip()` or `assert isinstance(item, str)` on a non-string
    | Malformed(path: string)   // the extractor itself raised on the node at `path`
    | NotAMapping               // `entry['canonical'] = canonical` on a record that is not a mapping

  /** A candidate path of a multi-valued field, with the strategy that reads its node. */
  datatype Candidate = Candidate(path: string, extractor: Extractor)

  /** `language is not None` (tags, tool descriptions) or `language in (None, 'en')` (tools, programming languages). */
  datatype LanguageFilter = AnyLanguage | NoneOrEnglish

  predicate Keeps(filter: LanguageFilter, language: Lang) {
    match filter
    case AnyLanguage => language.Some?
    case NoneOrEnglish => language.None? || language == Some("en")
  }

  // ---------------------------------------------------------------------------------------
  // Scalar fields: the first path whose string is non-empty after stripping wins

  /** A node a scalar loop passes over: `None`, or a string that strips to nothing. */
  predicate Skipped(n: Node) {
    n.Null? || (n.Str? && Blank(n.s))
  }

  /** Every path before position `i` was passed over. */
  predicate SkippedBefore(entry: Node, paths: seq<string>, i: nat)
    requires i <= |paths|
  {
    forall j :: 0 <= j < i ==> Skipped(GetPath(entry, paths[j]))
  }

  /**
   * `for path in paths: value = get_path(entry, path); if value is not None: value = value.strip();
   * if value: ... break`. The first path not passed over decides: a string wins with its
   * stripped text and the path's source tag, anything else makes `.strip()` raise.
   */
  function FirstMatch(entry: Node, paths: seq<string>): (r: Result<Option<Sourced>, Failure>)
    ensures r.Ok? && r.value.Some? ==> r.value.value.value != [] && '.' !in r.value.value.source
    ensures r.Err? ==> r.error.NotAString? && r.error.path in paths
  {
    if |paths| == 0 then Ok(None)
    else
      var value := GetPath(entry, paths[0]);
      if Skipped(value) then FirstMatch(entry, paths[1..])
      else if !value.Str? then Err(NotAString(paths[0]))
      else Ok(Some(Sourced(PathSource(paths[0]), Strip(value.s))))
  }

  /**
   * The scalar search decides at the first path it does not pass over: nothing at all when
   * every path is passed over, the stripped string with its source tag when that path holds a
   * string, and the failure of `.strip()` otherwise.
   */
  lemma {:induction false} FirstMatchSpec(entry: Node, paths: seq<string>)
    ensures FirstMatch(entry, paths) == Ok(None) <==> SkippedBefore(entry, paths, |paths|)
    ensures FirstMatch(entry, paths) != Ok(None) ==>
      exists i :: 0 <= i < |paths| && SkippedBefore(entry, paths, i) && !Skipped(GetPath(entry, paths[i]))
        && FirstMatch(entry, paths) == Decide(GetPath(entry, paths[i]), paths[i])
  {
    if |paths| > 0 {
      var value := GetPath(entry, paths[0]);
      if Skipped(value) {
        FirstMatchSpec(entry, paths[1..]);
        SkippedShift(entry, paths);
        if FirstMatch(entry, paths) != Ok(None) {
          var i :| 0 <= i < |paths[1..]| && SkippedBefore(entry, paths[1..], i) && !Skipped(GetPath(entry, paths[1..][i]))
            && FirstMatch(entry, paths[1..]) == Decide(GetPath(entry, paths[1..][i]), paths[1..][i]);
          assert paths[1..][i] == paths[i + 1];
          assert SkippedBefore(entry, paths, i + 1);
        }
      } else {
        assert SkippedBefore(entry, paths, 0);
        assert !Skipped(GetPath(entry, paths[|paths| - 1 - (|paths| - 1)]));
      }
    }
  }

  /** What the scalar search makes of the first node it does not pass over. */
  function Decide(value: Node, path: string): Result<Option<Sourced>, Failure> {
    if value.Str? then Ok(Some(Sourced(PathSource(path), Strip(value.s)))) else Err(NotAString(path))
  }

  /** Passing over the first path shifts every "passed over before `i`" fact by one. */
  lemma {:induction false} SkippedShift(entry: Node, paths: seq<string>)
    requires |paths| > 0 && Skipped(GetPath(entry, paths[0]))
    ensures forall i :: 0 <= i <= |paths| - 1 ==>
      (SkippedBefore(entry, paths[1..], i) <==> SkippedBefore(entry, paths, i + 1))
  {
    forall i | 0 <= i <= |paths| - 1
      ensures SkippedBefore(entry, paths[1..], i) <==> SkippedBefore(entry, paths, i + 1)
    {
      assert forall j :: 0 <= j < i ==> paths[1..][j] == paths[j + 1];
    }
  }

  /** Once a prefix of the paths has decided the field, later paths cannot change it. */
  lemma {:induction false} FirstMatchDecided(entry: Node, paths: seq<string>, more: seq<string>)
    requires FirstMatch(entry, paths) != Ok(None)
    ensures FirstMatch(entry, paths + more) == FirstMatch(entry, paths)
  {
    assert (paths + more)[0] == paths[0];
    var value := GetPath(entry, paths[0]);
    if Skipped(value) {
      assert (paths + more)[1..] == paths[1..] + more;
      FirstMatchDecided(entry, paths[1..], more);
    } else {
      assert FirstMatch(entry, paths + more) == Decide(value, paths[0]) == FirstMatch(entry, paths);
    }
  }

  /** When every path of a prefix was passed over, the field is decided by the rest alone. */
  lemma {:induction false} FirstMatchUndecided(entry: Node, paths: seq<string>, more: seq<string>)
    requires FirstMatch(entry, paths) == Ok(None)
    ensures FirstMatch(entry, paths + more) == FirstMatch(entry, more)
  {
    if |paths| == 0 {
      assert paths + more == more;
    } else {
      assert (paths + more)[0] == paths[0];
      assert (paths + more)[1..] == paths[1..] + more;
      FirstMatchUndecided(entry, paths[1..], more);
    }
  }

  /**
   * The description of actors and projects: one scalar search per language of a fixed table
   * (`for language, paths in dict(en = ..., es = ..., fr = ...).items()`); a language whose
   * search finds nothing gets no slot.
   */
  function LanguageTable(entry: Node, table: seq<(string, seq<string>)>): (r: Result<seq<(string, Sourced)>, Failure>)
    ensures r.Ok? ==> |r.value| <= |table|
    ensures r.Ok? ==> forall i :: 0 <= i < |r.value| ==> r.value[i].1.value != []
  {
    if |table| == 0 then Ok([])
    else
      var first :- FirstMatch(entry, table[0].1);
      var rest :- LanguageTable(entry, table[1..]);
      Ok((if first.Some? then [(table[0].0, first.value)] else []) + rest)
  }

  /** One step of the language table: the first language's search, then the rest's. */
  function Slot(language: string, first: Result<Option<Sourced>, Failure>,
                rest: Result<seq<(string, Sourced)>, Failure>): Result<seq<(string, Sourced)>, Failure>
  {
    var f :- first;
    var r :- rest;
    Ok((if f.Some? then [(language, f.value)] else []) + r)
  }

  lemma {:induction false} LanguageTableUnfold(entry: Node, table: seq<(string, seq<string>)>)
    requires |table| > 0
    ensures LanguageTable(entry, table)
         == Slot(table[0].0, FirstMatch(entry, table[0].1), LanguageTable(entry, table[1..]))
  {
  }

  /** The table succeeds exactly when every language's search does. */
  lemma {:induction false} LanguageTableOk(entry: Node, table: seq<(string, seq<string>)>)
    ensures LanguageTable(entry, table).Ok? <==> forall i :: 0 <= i < |table| ==> FirstMatch(entry, table[i].1).Ok?
  {
    if |table| > 0 {
      LanguageTableOk(entry, table[1..]);
      LanguageTableUnfold(entry, table);
      assert forall i :: 0 < i < |table| ==> table[i] == table[1..][i - 1];
    }
  }

  /** A language has a slot exactly when its search found a string, and the slot holds what the search found. */
  lemma {:induction false} LanguageTableSlots(entry: Node, table: seq<(string, seq<string>)>)
    requires LanguageTable(entry, table).Ok?
    ensures forall l, s :: (l, s) in LanguageTable(entry, table).value <==>
      exists i :: 0 <= i < |table| && table[i].0 == l && FirstMatch(entry, table[i].1) == Ok(Some(s))
  {
    if |table| > 0 {
      LanguageTableUnfold(entry, table);
      LanguageTableSlots(entry, table[1..]);
      var r := LanguageTable(entry, table);
      var first := FirstMatch(entry, table[0].1);
      var rest := LanguageTable(entry, table[1..]);
      assert r.value == (if first.value.Some? then [(table[0].0, first.value.value)] else []) + rest.value;
      forall l, s ensures (l, s) in r.value <==>
        exists i :: 0 <= i < |table| && table[i].0 == l && FirstMatch(entry, table[i].1) == Ok(Some(s))
      {
        if (l, s) in rest.value {
          var i :| 0 <= i < |table[1..]| && table[1..][i].0 == l && FirstMatch(entry, table[1..][i].1) == Ok(Some(s));
          assert table[i + 1] == table[1..][i];
        }
        if exists i :: 0 <= i < |table| && table[i].0 == l && FirstMatch(entry, table[i].1) == Ok(Some(s)) {
          var i :| 0 <= i < |table| && table[i].0 == l && FirstMatch(entry, table[i].1) == Ok(Some(s));
          if i > 0 {
            assert table[i] == table[1..][i - 1];
          }
        }
      }
    }
  }

  /** A failing table fails with the failure of one language's search. */
  lemma {:induction false} LanguageTableFailure(entry: Node, table: seq<(string, seq<string>)>)
    requires LanguageTable(entry, table).Err?
    ensures exists i :: 0 <= i < |table| && FirstMatch(entry, table[i].1) == Err(LanguageTable(entry, table).error)
  {
    LanguageTableUnfold(entry, table);
    if FirstMatch(entry, table[0].1).Err? {
      assert FirstMatch(entry, table[0].1) == Err(LanguageTable(entry, table).error);
    } else {
      LanguageTableFailure(entry, table[1..]);
      var i :| 0 <= i < |table[1..]| && FirstMatch(entry, table[1..][i].1) == Err(LanguageTable(entry, table[1..]).error);
      assert table[i + 1] == table[1..][i];
    }
  }

  // ---------------------------------------------------------------------------------------
  // Multi-valued fields: candidates are read through their strategies into contributions

  /** An item the loops keep: a string, of a kept language, non-empty once stripped. */
  predicate Admits(p: Pair, filter: LanguageFilter) {
    p.item.Str? && Keeps(filter, p.language) && !Blank(p.item.s)
  }

  /**
   * The body of `for language, item in extractor(value)`: every item must be a string
   * (`assert isinstance(item, str)`), and the admitted ones contribute their stripped text.
   */
  function Accept(pairs: seq<Pair>, filter: LanguageFilter, source: string, path: string)
    : (r: Result<seq<Contribution>, Failure>)
    ensures r.Err? ==> r.error == NotAString(path)
    ensures r.Ok? ==> forall c :: c in r.value ==> c.source == source && Keeps(filter, c.language) && c.value != []
  {
    if |pairs| == 0 then Ok([])
    else if !pairs[0].item.Str? then Err(NotAString(path))
    else
      var rest :- Accept(pairs[1..], filter, source, path);
      if Admits(pairs[0], filter) then
        Ok([Contribution(pairs[0].language, Strip(pairs[0].item.s), source)] + rest)
      else
        Ok(rest)
  }

  /** Accepting fails exactly when some item is not a string. */
  lemma {:induction false} AcceptOk(pairs: seq<Pair>, filter: LanguageFilter, source: string, path: string)
    ensures Accept(pairs, filter, source, path).Ok? <==> forall k :: 0 <= k < |pairs| ==> pairs[k].item.Str?
  {
    if |pairs| > 0 && pairs[0].item.Str? {
      AcceptOk(pairs[1..], filter, source, path);
      assert forall k :: 0 < k < |pairs| ==> pairs[k] == pairs[1..][k - 1];
    }
  }

  /** A successful acceptance keeps exactly the admitted items, stripped and tagged with the candidate's source. */
  lemma {:induction false} AcceptSpec(pairs: seq<Pair>, filter: LanguageFilter, source: string, path: string)
    requires Accept(pairs, filter, source, path).Ok?
    ensures forall c :: c in Accept(pairs, filter, source, path).value <==>
      exists k :: 0 <= k < |pairs| && Admits(pairs[k], filter)
        && c == Contribution(pairs[k].language, Strip(pairs[k].item.s), source)
  {
    if |pairs| > 0 {
      AcceptSpec(pairs[1..], filter, source, path);
      var r := Accept(pairs, filter, source, path);
      var rest := Accept(pairs[1..], filter, source, path);
      forall c
        ensures c in r.value <==>
          exists k :: 0 <= k < |pairs| && Admits(pairs[k], filter)
            && c == Contribution(pairs[k].language, Strip(pairs[k].item.s), source)
      {
        if c in rest.value {
          var k :| 0 <= k < |pairs[1..]| && Admits(pairs[1..][k], filter)
            && c == Contribution(pairs[1..][k].language, Strip(pairs[1..][k].item.s), source);
          assert pairs[k + 1] == pairs[1..][k];
        }
        if exists k :: 0 <= k < |pairs| && Admits(pairs[k], filter)
            && c == Contribution(pairs[k].language, Strip(pairs[k].item.s), source) {
          var k :| 0 <= k < |pairs| && Admits(pairs[k], filter)
            && c == Contribution(pairs[k].language, Strip(pairs[k].item.s), source);
          if k > 0 {
            assert pairs[k] == pairs[1..][k - 1];
          }
        }
      }
    }
  }

  /** One candidate's contributions; the extractor's own failure comes after the items it produced. */
  function Contribute(entry: Node, cand: Candidate, filter: LanguageFilter): (r: Result<seq<Contribution>, Failure>)
    ensures r.Err? ==> r.error in {NotAString(cand.path), Malformed(cand.path)}
    ensures r.Ok? ==> forall c :: c in r.value ==>
      && c.source == PathSource(cand.path)
      && Keeps(filter, c.language)
      && c.value != []
  {
    var ex := Extract.Extract(cand.extractor, GetPath(entry, cand.path));
    var cs :- Accept(ex.pairs, filter, PathSource(cand.path), cand.path);
    if ex.raised then Err(Malformed(cand.path)) else Ok(cs)
  }

  /** All candidates' contributions, in candidate order; the first failing candidate aborts. */
  function Collect(entry: Node, cands: seq<Candidate>, filter: LanguageFilter): (r: Result<seq<Contribution>, Failure>)
    ensures r.Ok? ==> forall c :: c in r.value ==> Keeps(filter, c.language) && c.value != []
  {
    if |cands| == 0 then Ok([])
    else
      var first :- Contribute(entry, cands[0], filter);
      var rest :- Collect(entry, cands[1..], filter);
      Ok(first + rest)
  }

  /** One step of the collection: the first candidate's contributions, then the rest's. */
  function Extend(first: Result<seq<Contribution>, Failure>, rest: Result<seq<Contribution>, Failure>)
    : Result<seq<Contribution>, Failure>
  {
    var f :- first;
    var r :- rest;
    Ok(f + r)
  }

  lemma {:induction false} CollectUnfold(entry: Node, cands: seq<Candidate>, filter: LanguageFilter)
    requires |cands| > 0
    ensures Collect(entry, cands, filter) == Extend(Contribute(entry, cands[0], filter), Collect(entry, cands[1..], filter))
  {
  }

  /** Collecting succeeds exactly when every candidate does. */
  lemma {:induction false} CollectOk(entry: Node, cands: seq<Candidate>, filter: LanguageFilter)
    ensures Collect(entry, cands, filter).Ok? <==> forall i :: 0 <= i < |cands| ==> Contribute(entry, cands[i], filter).Ok?
  {
    if |cands| > 0 {
      CollectOk(entry, cands[1..], filter);
      assert forall i :: 0 < i < |cands| ==> cands[i] == cands[1..][i - 1];
    }
  }

  /** A successful collection holds exactly the contributions of every candidate. */
  lemma {:induction false} CollectMembers(entry: Node, cands: seq<Candidate>, filter: LanguageFilter)
    requires Collect(entry, cands, filter).Ok?
    ensures forall c :: c in Collect(entry, cands, filter).value <==>
      exists i :: 0 <= i < |cands| && Contribute(entry, cands[i], filter).Ok?
        && c in Contribute(entry, cands[i], filter).value
  {
    if |cands| > 0 {
      CollectMembers(entry, cands[1..], filter);
      var r := Collect(entry, cands, filter);
      var first := Contribute(entry, cands[0], filter);
      var rest := Collect(entry, cands[1..], filter);
      assert r.value == first.value + rest.value;
      forall c
        ensures c in r.value <==>
          exists i :: 0 <= i < |cands| && Contribute(entry, cands[i], filter).Ok?
            && c in Contribute(entry, cands[i], filter).value
      {
        if c in rest.value {
          var i :| 0 <= i < |cands[1..]| && Contribute(entry, cands[1..][i], filter).Ok?
            && c in Contribute(entry, cands[1..][i], filter).value;
          assert cands[i + 1] == cands[1..][i];
        }
        if exists i :: 0 <= i < |cands| && Contribute(entry, cands[i], filter).Ok? && c in Contribute(entry, cands[i], filter).value {
          var i :| 0 <= i < |cands| && Contribute(entry, cands[i], filter).Ok?
            && c in Contribute(entry, cands[i], filter).value;
          if i > 0 {
            assert cands[i] == cands[1..][i - 1];
          }
        }
      }
    }
  }

  /** A failed collection carries the failure of the first candidate that failed. */
  lemma {:induction false} CollectFirstFailure(entry: Node, cands: seq<Candidate>, filter: LanguageFilter)
    requires Collect(entry, cands, filter).Err?
    ensures exists i :: (0 <= i < |cands|
      && (forall j :: 0 <= j < i ==> Contribute(entry, cands[j], filter).Ok?)
      && Contribute(entry, cands[i], filter) == Err(Collect(entry, cands, filter).error))
  {
    var first := Contribute(entry, cands[0], filter);
    if first.Ok? {
      var rest := Collect(entry, cands[1..], filter);
      CollectFirstFailure(entry, cands[1..], filter);
      var i :| 0 <= i < |cands[1..]| && (forall j :: 0 <= j < i ==> Contribute(entry, cands[1..][j], filter).Ok?)
        && Contribute(entry, cands[1..][i], filter) == Err(rest.error);
      assert cands[i + 1] == cands[1..][i];
      assert forall j :: 0 < j < i + 1 ==> cands[j] == cands[1..][j - 1];
    }
  }

  /** Reading more candidates only appends their contributions: earlier ones are already final. */
  lemma {:induction false} CollectAppend(entry: Node, cands: seq<Candidate>, more: seq<Candidate>, filter: LanguageFilter)
    requires Collect(entry, cands + more, filter).Ok?
    ensures Collect(entry, cands, filter).Ok? && Collect(entry, more, filter).Ok?
    ensures Collect(entry, cands + more, filter).value
         == Collect(entry, cands, filter).value + Collect(entry, more, filter).value
  {
    if |cands| == 0 {
      assert cands + more == more;
    } else {
      assert (cands + more)[0] == cands[0];
      assert (cands + more)[1..] == cands[1..] + more;
      CollectAppend(entry, cands[1..], more, filter);
      assert Collect(entry, cands + more, filter).value
          == Contribute(entry, cands[0], filter).value + Collect(entry, cands[1..] + more, filter).value;
    }
  }

  // ---------------------------------------------------------------------------------------
  // Fields and the `canonical` mapping

  /** The field tables of `main`, one variant per merge policy. */
  datatype FieldSpec =
    | ScalarSpec(name: string, paths: seq<string>)                          // name, website, license, ...
    | LanguageTableSpec(name: string, table: seq<(string, seq<string>)>)    // longDescription of actors, projects
    | FirstPerLanguageSpec(name: string, cands: seq<Candidate>)             // longDescription of tools
    | TagSpec(name: string, cands: seq<Candidate>)                          // tags
    | SetSpec(name: string, cands: seq<Candidate>)                          // tools, programmingLanguages

  /** The value a policy stores under its field name. */
  datatype Value =
    | One(sourced: Sourced)
    | PerLanguage(slots: seq<(string, Sourced)>)
    | Tags(groups: seq<LanguageGroup>)
    | Set(entries: seq<SetEntry>)

  datatype Field = Field(name: string, value: Value)

  /** What a field's loop gathers from the record before its policy shapes it. */
  datatype Reading =
    | Found(first: Option<Sourced>)              // a scalar search
    | Slots(slots: seq<(string, Sourced)>)       // one scalar search per language
    | Contributed(cs: seq<Contribution>)         // the items of every candidate, in order

  /** Runs a field's candidate loop over the record; the record is consulted only here. */
  function Read(entry: Node, spec: FieldSpec): (r: Result<Reading, Failure>)
    ensures r.Ok? ==> Fits(spec, r.value)
  {
    match spec
    case ScalarSpec(_, paths) =>
      var m :- FirstMatch(entry, paths);
      Ok(Found(m))
    case LanguageTableSpec(_, table) =>
      var slots :- LanguageTable(entry, table);
      Ok(Slots(slots))
    case FirstPerLanguageSpec(_, cands) =>
      var cs :- Collect(entry, cands, AnyLanguage);
      Ok(Contributed(cs))
    case TagSpec(_, cands) =>
      var cs :- Collect(entry, cands, AnyLanguage);
      Ok(Contributed(cs))
    case SetSpec(_, cands) =>
      var cs :- Collect(entry, cands, NoneOrEnglish);
      Ok(Contributed(cs))
  }

  /** The reading has the shape the field's loop produces. */
  predicate Fits(spec: FieldSpec, reading: Reading) {
    match spec
    case ScalarSpec(_, _) => reading.Found?
    case LanguageTableSpec(_, _) => reading.Slots?
    case _ => reading.Contributed?
  }

  /**
   * A field's policy applied to what its loop gathered. The key is absent exactly when
   * nothing was gathered: no scalar found, no language slot filled, no contribution kept.
   */
  function Build(spec: FieldSpec, reading: Reading): (r: Option<Field>)
    requires Fits(spec, reading)
    ensures r.Some? ==> r.value.name == spec.name
    ensures spec.ScalarSpec? ==> (r.None? <==> reading.first.None?)
    ensures spec.ScalarSpec? && r.Some? ==> r.value.value == One(reading.first.value)
    ensures spec.LanguageTableSpec? ==> (r.None? <==> reading.slots == [])
    ensures (spec.FirstPerLanguageSpec? || spec.TagSpec?) ==> (r.None? <==> LanguageSet(reading.cs) == {})
    ensures spec.SetSpec? ==> (r.None? <==> reading.cs == [])
    ensures spec.FirstPerLanguageSpec? && r.Some? ==>
      && r.value.value.PerLanguage?
      && Distinct(SlotLanguages(r.value.value.slots))
      && Elems(SlotLanguages(r.value.value.slots)) == LanguageSet(reading.cs)
      && forall i :: 0 <= i < |r.value.value.slots| ==>
           FirstOf(reading.cs, r.value.value.slots[i].0) == Some(r.value.value.slots[i].1)
    ensures spec.TagSpec? && r.Some? ==> r.value.value.Tags? && GroupsOf(r.value.value.groups, reading.cs)
    ensures spec.SetSpec? && r.Some? ==> r.value.value.Set? && Summarizes(r.value.value.entries, reading.cs)
  {
    match spec
    case ScalarSpec(name, _) =>
      if reading.first.Some? then Some(Field(name, One(reading.first.value))) else None
    case LanguageTableSpec(name, _) =>
      if |reading.slots| > 0 then Some(Field(name, PerLanguage(reading.slots))) else None
    case FirstPerLanguageSpec(name, _) =>
      var slots := FirstPerLanguage(reading.cs);
      ElemsEmpty(SlotLanguages(slots));
      if |slots| > 0 then Some(Field(name, PerLanguage(slots))) else None
    case TagSpec(name, _) =>
      var groups := TagGroups(reading.cs);
      ElemsEmpty(GroupLanguages(groups));
      if |groups| > 0 then Some(Field(name, Tags(groups))) else None
    case SetSpec(name, _) =>
      var entries := SourcedSet(reading.cs);
      SetEmpty(entries, reading.cs);
      if |entries| > 0 then Some(Field(name, Set(entries))) else None
  }

  /** A value set is empty exactly when nothing contributed. */
  lemma {:induction false} SetEmpty(es: seq<SetEntry>, cs: seq<Contribution>)
    requires Values(es) == ValueSet(cs)
    ensures |es| == 0 <==> |cs| == 0
  {
    if |es| > 0 {
      assert es[0].value in Values(es);
    }
    if |cs| > 0 {
      assert cs[0].value in ValueSet(cs);
    }
  }

  /** One field of the record: its loop's failure, or its policy applied to what the loop gathered. */
  function FieldOf(entry: Node, spec: FieldSpec): Result<Option<Field>, Failure> {
    var reading :- Read(entry, spec);
    Ok(Build(spec, reading))
  }

  /** Every field of the table, in table order; absent fields leave no key. */
  function Merge(entry: Node, specs: seq<FieldSpec>): (r: Result<seq<Field>, Failure>)
    ensures r.Ok? ==> |r.value| <= |specs|
  {
    if |specs| == 0 then Ok([])
    else
      var first :- FieldOf(entry, specs[0]);
      var rest :- Merge(entry, specs[1..]);
      Ok((if first.Some? then [first.value] else []) + rest)
  }

  /** One step of the merge: the first field, then the rest, the first failure winning. */
  function Combine<T>(first: Result<Option<T>, Failure>, rest: Result<seq<T>, Failure>): Result<seq<T>, Failure> {
    var f :- first;
    var r :- rest;
    Ok((if f.Some? then [f.value] else []) + r)
  }

  lemma {:induction false} MergeUnfold(entry: Node, specs: seq<FieldSpec>)
    requires |specs| > 0
    ensures Merge(entry, specs) == Combine(FieldOf(entry, specs[0]), Merge(entry, specs[1..]))
  {
  }

  /** The merge succeeds exactly when every field's loop does. */
  lemma {:induction false} MergeOk(entry: Node, specs: seq<FieldSpec>)
    ensures Merge(entry, specs).Ok? <==> forall i :: 0 <= i < |specs| ==> FieldOf(entry, specs[i]).Ok?
  {
    if |specs| > 0 {
      MergeOk(entry, specs[1..]);
      assert forall i :: 0 < i < |specs| ==> specs[i] == specs[1..][i - 1];
    }
  }

  /** A successful merge holds exactly the present fields. */
  lemma {:induction false} MergeMembers(entry: Node, specs: seq<FieldSpec>)
    requires Merge(entry, specs).Ok?
    ensures forall f :: f in Merge(entry, specs).value <==>
      exists i :: 0 <= i < |specs| && FieldOf(entry, specs[i]) == Ok(Some(f))
  {
    if |specs| > 0 {
      MergeMembers(entry, specs[1..]);
      var r := Merge(entry, specs);
      var first := FieldOf(entry, specs[0]);
      var rest := Merge(entry, specs[1..]);
      assert r.value == (if first.value.Some? then [first.value.value] else []) + rest.value;
      forall f
        ensures f in r.value <==> exists i :: 0 <= i < |specs| && FieldOf(entry, specs[i]) == Ok(Some(f))
      {
        if f in rest.value {
          var i :| 0 <= i < |specs[1..]| && FieldOf(entry, specs[1..][i]) == Ok(Some(f));
          assert specs[i + 1] == specs[1..][i];
        }
        if exists i :: 0 <= i < |specs| && FieldOf(entry, specs[i]) == Ok(Some(f)) {
          var i :| 0 <= i < |specs| && FieldOf(entry, specs[i]) == Ok(Some(f));
          if i > 0 {
            assert specs[i] == specs[1..][i - 1];
          }
        }
      }
    }
  }

  /** A failed merge carries the failure of the first field whose loop failed. */
  lemma {:induction false} MergeFirstFailure(entry: Node, specs: seq<FieldSpec>)
    requires Merge(entry, specs).Err?
    ensures exists i :: (0 <= i < |specs|
      && (forall j :: 0 <= j < i ==> FieldOf(entry, specs[j]).Ok?)
      && FieldOf(entry, specs[i]) == Err(Merge(entry, specs).error))
  {
    var first := FieldOf(entry, specs[0]);
    if first.Ok? {
      var rest := Merge(entry, specs[1..]);
      MergeFirstFailure(entry, specs[1..]);
      var i :| 0 <= i < |specs[1..]| && (forall j :: 0 <= j < i ==> FieldOf(entry, specs[1..][j]).Ok?)
        && FieldOf(entry, specs[1..][i]) == Err(rest.error);
      assert specs[i + 1] == specs[1..][i];
      assert forall j :: 0 < j < i + 1 ==> specs[j] == specs[1..][j - 1];
    }
  }

  /** `dict(source = ..., value = ...)`. */
  function SourcedNode(s: Sourced): Node {
    Map([("source", Str(s.source)), ("value", Str(s.value))])
  }

  function Strs(xs: seq<string>): (r: seq<Node>)
    ensures |r| == |xs| && forall i :: 0 <= i < |xs| ==> r[i] == Str(xs[i])
  {
    seq(|xs|, i requires 0 <= i < |xs| => Str(xs[i]))
  }

  /** `dict(sources = sorted(sources), value = value)`. */
  function EntryNode(e: SetEntry): Node {
    Map([("sources", List(Strs(e.sources))), ("value", Str(e.value))])
  }

  function EntriesNode(es: seq<SetEntry>): Node {
    List(seq(|es|, i requires 0 <= i < |es| => EntryNode(es[i])))
  }

  function ValueNode(v: Value): Node {
    match v
    case One(s) => SourcedNode(s)
    case PerLanguage(slots) => Map(seq(|slots|, i requires 0 <= i < |slots| => (slots[i].0, SourcedNode(slots[i].1))))
    case Tags(groups) => Map(seq(|groups|, i requires 0 <= i < |groups| => (groups[i].language, EntriesNode(groups[i].entries))))
    case Set(entries) => EntriesNode(entries)
  }

  /**
   * The `canonical` OrderedDict as it stands when it is assigned to `entry['canonical']`,
   * fields in insertion order (the order `yaml.dump` then writes is not modelled).
   */
  function CanonicalNode(fields: seq<Field>): (r: Node)
    ensures r.Map? && |r.entries| == |fields|
    ensures forall i :: 0 <= i < |fields| ==> r.entries[i] == (fields[i].name, ValueNode(fields[i].value))
  {
    Map(seq(|fields|, i requires 0 <= i < |fields| => (fields[i].name, ValueNode(fields[i].value))))
  }

  /**
   * One record through `main`: the fields are computed, and `entry['canonical'] = canonical`
   * runs only when at least one field is present.
   */
  function MergeEntry(entry: Node, specs: seq<FieldSpec>): (r: Result<Node, Failure>)
    ensures Merge(entry, specs).Err? ==> r == Err(Merge(entry, specs).error)
    ensures Merge(entry, specs) == Ok([]) ==> r == Ok(entry)
    ensures Merge(entry, specs).Ok? && Merge(entry, specs) != Ok([]) ==>
      if entry.Map? then
        && r.Ok? && r.value.Map?
        && Find(r.value.entries, "canonical") == Some(CanonicalNode(Merge(entry, specs).value))
        && forall k :: k != "canonical" ==> Find(r.value.entries, k) == Find(entry.entries, k)
      else r == Err(NotAMapping)
  {
    var fields :- Merge(entry, specs);
    if |fields| == 0 then Ok(entry)
    else if entry.Map? then Ok(Map(Put(entry.entries, "canonical", CanonicalNode(fields))))
    else Err(NotAMapping)
  }

  // ---------------------------------------------------------------------------------------
  // What the merge reads, and running it again

  /** Every path a field reads. */
  function SpecPaths(spec: FieldSpec): seq<string> {
    match spec
    case ScalarSpec(_, paths) => paths
    case LanguageTableSpec(_, table) => TablePaths(table)
    case FirstPerLanguageSpec(_, cands) => CandidatePaths(cands)
    case TagSpec(_, cands) => CandidatePaths(cands)
    case SetSpec(_, cands) => CandidatePaths(cands)
  }

  function TablePaths(table: seq<(string, seq<string>)>): seq<string> {
    if |table| == 0 then [] else table[0].1 + TablePaths(table[1..])
  }

  function CandidatePaths(cands: seq<Candidate>): (r: seq<string>)
    ensures |r| == |cands| && forall i :: 0 <= i < |cands| ==> r[i] == cands[i].path
  {
    seq(|cands|, i requires 0 <= i < |cands| => cands[i].path)
  }

  /** Two records that resolve every path of the table to the same node. */
  ghost predicate AgreeOn(e1: Node, e2: Node, specs: seq<FieldSpec>) {
    forall i, p :: 0 <= i < |specs| && p in SpecPaths(specs[i]) ==> GetPath(e1, p) == GetPath(e2, p)
  }

  lemma {:induction false} FirstMatchReads(e1: Node, e2: Node, paths: seq<string>)
    requires forall p :: p in paths ==> GetPath(e1, p) == GetPath(e2, p)
    ensures FirstMatch(e1, paths) == FirstMatch(e2, paths)
  {
    if |paths| > 0 {
      assert paths[0] in paths;
      FirstMatchReads(e1, e2, paths[1..]);
    }
  }

  lemma {:induction false} LanguageTableReads(e1: Node, e2: Node, table: seq<(string, seq<string>)>)
    requires forall p :: p in TablePaths(table) ==> GetPath(e1, p) == GetPath(e2, p)
    ensures LanguageTable(e1, table) == LanguageTable(e2, table)
  {
    if |table| > 0 {
      assert TablePaths(table) == table[0].1 + TablePaths(table[1..]);
      FirstMatchReads(e1, e2, table[0].1);
      LanguageTableReads(e1, e2, table[1..]);
    }
  }

  lemma {:induction false} CollectReads(e1: Node, e2: Node, cands: seq<Candidate>, filter: LanguageFilter)
    requires forall i :: 0 <= i < |cands| ==> GetPath(e1, cands[i].path) == GetPath(e2, cands[i].path)
    ensures Collect(e1, cands, filter) == Collect(e2, cands, filter)
  {
    if |cands| > 0 {
      assert Contribute(e1, cands[0], filter) == Contribute(e2, cands[0], filter);
      CollectReads(e1, e2, cands[1..], filter);
      CollectUnfold(e1, cands, filter);
      CollectUnfold(e2, cands, filter);
    }
  }

  /** A field depends on the record only through the nodes its paths resolve to. */
  lemma {:induction false} FieldReads(e1: Node, e2: Node, spec: FieldSpec)
    requires forall p :: p in SpecPaths(spec) ==> GetPath(e1, p) == GetPath(e2, p)
    ensures FieldOf(e1, spec) == FieldOf(e2, spec)
  {
    ReadReads(e1, e2, spec);
  }

  lemma {:induction false} ReadReads(e1: Node, e2: Node, spec: FieldSpec)
    requires forall p :: p in SpecPaths(spec) ==> GetPath(e1, p) == GetPath(e2, p)
    ensures Read(e1, spec) == Read(e2, spec)
  {
    if spec.ScalarSpec? {
      FirstMatchReads(e1, e2, spec.paths);
      assert Read(e1, spec) == Read(e2, spec);
    } else if spec.LanguageTableSpec? {
      LanguageTableReads(e1, e2, spec.table);
      assert Read(e1, spec) == Read(e2, spec);
    } else {
      CandidatesRead(e1, e2, spec);
    }
  }

  /** The language filter of a multi-valued field: only `set_fields` drops languages other than English. */
  function FilterOf(spec: FieldSpec): LanguageFilter {
    if spec.SetSpec? then NoneOrEnglish else AnyLanguage
  }

  function AsReading(collected: Result<seq<Contribution>, Failure>): Result<Reading, Failure> {
    var cs :- collected;
    Ok(Contributed(cs))
  }

  lemma {:induction false} ReadCandidates(entry: Node, spec: FieldSpec)
    requires spec.FirstPerLanguageSpec? || spec.TagSpec? || spec.SetSpec?
    ensures Read(entry, spec) == AsReading(Collect(entry, spec.cands, FilterOf(spec)))
  {
  }

  lemma {:induction false} CandidatesRead(e1: Node, e2: Node, spec: FieldSpec)
    requires spec.FirstPerLanguageSpec? || spec.TagSpec? || spec.SetSpec?
    requires forall p :: p in CandidatePaths(spec.cands) ==> GetPath(e1, p) == GetPath(e2, p)
    ensures Read(e1, spec) == Read(e2, spec)
  {
    forall i | 0 <= i < |spec.cands| ensures GetPath(e1, spec.cands[i].path) == GetPath(e2, spec.cands[i].path) {
      assert CandidatePaths(spec.cands)[i] in CandidatePaths(spec.cands);
    }
    CollectReads(e1, e2, spec.cands, FilterOf(spec));
    ReadCandidates(e1, spec);
    ReadCandidates(e2, spec);
  }

  /** The merge reads the record only through the table's paths. */
  lemma {:induction false} MergeReads(e1: Node, e2: Node, specs: seq<FieldSpec>)
    requires AgreeOn(e1, e2, specs)
    ensures Merge(e1, specs) == Merge(e2, specs)
  {
    if |specs| > 0 {
      FieldReads(e1, e2, specs[0]);
      assert AgreeOn(e1, e2, specs[1..]) by {
        assert forall i :: 0 <= i < |specs| - 1 ==> specs[1..][i] == specs[i + 1];
      }
      MergeReads(e1, e2, specs[1..]);
      MergeUnfold(e1, specs);
      MergeUnfold(e2, specs);
    }
  }

  /** No path of the table is empty or starts at the record's `key` entry. */
  ghost predicate Avoids(specs: seq<FieldSpec>, key: string) {
    forall i :: 0 <= i < |specs| ==> FieldAvoids(specs[i], key)
  }

  ghost predicate FieldAvoids(spec: FieldSpec, key: string) {
    forall p :: p in SpecPaths(spec) ==> p != "" && PathSource(p) != key
  }

  /** Every path of the table starts with a mapping key rather than a list index. */
  ghost predicate Keyed(specs: seq<FieldSpec>) {
    forall i :: 0 <= i < |specs| ==> FieldKeyed(specs[i])
  }

  ghost predicate FieldKeyed(spec: FieldSpec) {
    forall p :: p in SpecPaths(spec) ==> p != "" && !IsDigits(PathSource(p))
  }

  /** Replacing the `key` entry of a mapping changes nothing a path starting elsewhere resolves to. */
  lemma {:induction false} GetPathBesidesKey(entries: seq<(string, Node)>, key: string, v: Node, path: string)
    requires path != "" && PathSource(path) != key
    ensures GetPath(Map(Put(entries, key, v)), path) == GetPath(Map(entries), path)
  {
    var head := Head(path);
    assert MapGet(Put(entries, key, v), head) == MapGet(entries, head);
    assert Step(Map(Put(entries, key, v)), head) == Step(Map(entries), head);
  }

  /**
   * Re-running the merge on its own output gives the same record: the stale `canonical` the
   * first run wrote is never read back, and writing the same fields again changes nothing.
   */
  lemma {:induction false} MergeEntryIdempotent(entry: Node, specs: seq<FieldSpec>)
    requires Avoids(specs, "canonical")
    requires MergeEntry(entry, specs).Ok?
    ensures MergeEntry(MergeEntry(entry, specs).value, specs) == MergeEntry(entry, specs)
  {
    var fields := Merge(entry, specs).value;
    if |fields| > 0 {
      var es := entry.entries;
      MergeBesidesCanonical(es, specs, CanonicalNode(fields));
      PutPut(es, "canonical", CanonicalNode(fields), CanonicalNode(fields));
    }
  }

  /** Whatever a mapping holds under `canonical`, the merge of a table that avoids it is the same. */
  lemma {:induction false} MergeBesidesCanonical(es: seq<(string, Node)>, specs: seq<FieldSpec>, v: Node)
    requires Avoids(specs, "canonical")
    ensures Merge(Map(Put(es, "canonical", v)), specs) == Merge(Map(es), specs)
  {
    forall i, p | 0 <= i < |specs| && p in SpecPaths(specs[i])
      ensures GetPath(Map(Put(es, "canonical", v)), p) == GetPath(Map(es), p)
    {
      assert FieldAvoids(specs[i], "canonical");
      GetPathBesidesKey(es, "canonical", v, p);
    }
    MergeReads(Map(Put(es, "canonical", v)), Map(es), specs);
  }

  /**
   * A record whose fields all come out empty keeps whatever `canonical` entry it already had:
   * the previous run's data survives instead of being cleared.
   */
  lemma {:induction false} EmptyMergeKeepsStale(entry: Node, specs: seq<FieldSpec>, stale: Node)
    requires entry.Map? && Find(entry.entries, "canonical") == Some(stale)
    requires Merge(entry, specs) == Ok([])
    ensures MergeEntry(entry, specs).Ok?
    ensures Find(MergeEntry(entry, specs).value.entries, "canonical") == Some(stale)
  {
  }

  /** Nothing resolves in an empty record, so every field is absent. */
  lemma {:induction false} MergeNull(specs: seq<FieldSpec>)
    ensures Merge(Null, specs) == Ok([])
  {
    if |specs| > 0 {
      MergeNull(specs[1..]);
      assert FieldOf(Null, specs[0]) == Ok(None) by {
        match specs[0]
        case ScalarSpec(_, paths) => FirstMatchNull(paths);
        case LanguageTableSpec(_, table) => LanguageTableNull(table);
        case FirstPerLanguageSpec(_, cands) => CollectNull(cands, AnyLanguage);
        case TagSpec(_, cands) => CollectNull(cands, AnyLanguage);
        case SetSpec(_, cands) => CollectNull(cands, NoneOrEnglish);
      }
    }
  }

  lemma {:induction false} FirstMatchNull(paths: seq<string>)
    ensures FirstMatch(Null, paths) == Ok(None)
  {
    if |paths| > 0 {
      FirstMatchNull(paths[1..]);
    }
  }

  lemma {:induction false} LanguageTableNull(table: seq<(string, seq<string>)>)
    ensures LanguageTable(Null, table) == Ok([])
  {
    if |table| > 0 {
      FirstMatchNull(table[0].1);
      LanguageTableNull(table[1..]);
    }
  }

  lemma {:induction false} CollectNull(cands: seq<Candidate>, filter: LanguageFilter)
    ensures Collect(Null, cands, filter) == Ok([])
  {
    if |cands| > 0 {
      assert Extract.Extract(cands[0].extractor, GetPath(Null, cands[0].path)) == Nothing;
      assert Contribute(Null, cands[0], filter) == Ok([]);
      CollectNull(cands[1..], filter);
      assert Collect(Null, cands, filter).value == [] + [];
    }
  }

  /**
   * A record that is not a mapping is written back unchanged and never fails, as long as no
   * path starts with an index: every path resolves to nothing, so `canonical` stays empty.
   */
  lemma {:induction false} NonMappingUntouched(entry: Node, specs: seq<FieldSpec>)
    requires !entry.Map?
    requires Keyed(specs)
    ensures MergeEntry(entry, specs) == Ok(entry)
  {
    forall i, p | 0 <= i < |specs| && p in SpecPaths(specs[i]) ensures GetPath(entry, p) == GetPath(Null, p) {
      assert FieldKeyed(specs[i]);
      if !entry.Null? {
        assert Head(p) == PathSource(p);
      }
    }
    MergeReads(entry, Null, specs);
    MergeNull(specs);
  }
}
