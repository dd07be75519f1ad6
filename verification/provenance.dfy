/**
 * The merge policies of generate_canonical.py that fold a stream of accepted items:
 * the sourced set (`sources_by_value`, one per language for tags, one overall for tools
 * and programming languages) and the per-language first fill of a tool's `longDescription`.
 */
module Provenance {
  import opened Wrappers
  import opened Order
  import opened Extract

  /** One accepted item: its language, its stripped non-empty text, and its path's source tag. */
  datatype Contribution = Contribution(language: Lang, value: string, source: string)

  /** A canonical `{source, value}` pair. */
  datatype Sourced = Sourced(source: string, value: string)

  /** One element of a sourced set, `dict(sources = sorted(sources), value = value)`. */
  datatype SetEntry = SetEntry(sources: seq<string>, value: string)

  /** Entries sorted by value with no value twice, each with a non-empty, strictly sorted source list. */
  predicate Canonical(es: seq<SetEntry>) {
    && (forall i, j :: 0 <= i < j < |es| ==> Less(es[i].value, es[j].value))
    && (forall i :: 0 <= i < |es| ==> Increasing(es[i].sources) && |es[i].sources| > 0)
  }

  function Values(es: seq<SetEntry>): set<string> {
    set e | e in es :: e.value
  }

  /** The sources listed for value `v`, or none when `v` is not in the set. */
  function SourcesOf(es: seq<SetEntry>, v: string): set<string> {
    if |es| == 0 then {} else if es[0].value == v then Elems(es[0].sources) else SourcesOf(es[1..], v)
  }

  /** Every value of the contributions. */
  function ValueSet(cs: seq<Contribution>): set<string> {
    set c | c in cs :: c.value
  }

  /** Every source that contributed value `v`. */
  function SourcesFor(cs: seq<Contribution>, v: string): set<string> {
    set c | c in cs && c.value == v :: c.source
  }

  /**
   * `es` is the sourced set of `cs`: each distinct value once, sorted, listing exactly the
   * sources that contributed it, sorted.
   */
  ghost predicate Summarizes(es: seq<SetEntry>, cs: seq<Contribution>) {
    && Canonical(es)
    && Values(es) == ValueSet(cs)
    && forall v :: SourcesOf(es, v) == SourcesFor(cs, v)
  }

  lemma {:induction false} SourcesOfMissing(es: seq<SetEntry>, v: string)
    requires v !in Values(es)
    ensures SourcesOf(es, v) == {}
  {
    if |es| > 0 {
      assert es[0] in es;
      assert Values(es[1..]) <= Values(es) by {
        forall w | w in Values(es[1..]) ensures w in Values(es) {
          var e :| e in es[1..] && e.value == w;
          assert e in es;
        }
      }
      SourcesOfMissing(es[1..], v);
    }
  }

  lemma {:induction false} CanonicalTail(es: seq<SetEntry>)
    requires Canonical(es) && |es| > 0
    ensures Canonical(es[1..])
    ensures Values(es[1..]) == Values(es) - {es[0].value}
    ensures forall w :: w != es[0].value ==> SourcesOf(es[1..], w) == SourcesOf(es, w)
  {
    assert es == [es[0]] + es[1..];
    forall w | w in Values(es[1..]) ensures w != es[0].value {
      var k :| 0 <= k < |es[1..]| && es[1..][k].value == w;
      assert Less(es[0].value, es[k + 1].value);
      LessIrreflexive(w);
    }
  }

  /** `sources_by_value.setdefault(v, set()).add(s)`, on the sorted representation. */
  function AddEntry(es: seq<SetEntry>, v: string, s: string): (r: seq<SetEntry>)
    requires Canonical(es)
    ensures Canonical(r)
    ensures Values(r) == Values(es) + {v}
    ensures forall w :: SourcesOf(r, w) == SourcesOf(es, w) + (if w == v then {s} else {})
  {
    if |es| == 0 || Less(v, es[0].value) then
      AddedInFront(es, v, s);
      [SetEntry([s], v)] + es
    else if es[0].value == v then
      AddedHere(es, s);
      [SetEntry(Insert(es[0].sources, s), v)] + es[1..]
    else
      LessTotal(v, es[0].value);
      CanonicalTail(es);
      var tail := AddEntry(es[1..], v, s);
      AddedBehind(es, v, s, tail);
      [es[0]] + tail
  }

  lemma {:induction false} AddedInFront(es: seq<SetEntry>, v: string, s: string)
    requires Canonical(es)
    requires |es| > 0 ==> Less(v, es[0].value)
    ensures Canonical([SetEntry([s], v)] + es)
    ensures Values([SetEntry([s], v)] + es) == Values(es) + {v}
    ensures forall w :: SourcesOf([SetEntry([s], v)] + es, w) == SourcesOf(es, w) + (if w == v then {s} else {})
  {
    var r := [SetEntry([s], v)] + es;
    assert r[1..] == es;
    assert forall j :: 0 <= j < |es| ==> Less(v, es[j].value) by {
      forall j | 0 < j < |es| ensures Less(v, es[j].value) {
        LessTransitive(v, es[0].value, es[j].value);
      }
    }
    assert v !in Values(es) by {
      forall e | e in es ensures e.value != v {
        var j :| 0 <= j < |es| && es[j] == e;
        LessIrreflexive(v);
      }
    }
    SourcesOfMissing(es, v);
    assert Values(r) == {v} + Values(es);
  }

  lemma {:induction false} AddedHere(es: seq<SetEntry>, s: string)
    requires Canonical(es) && |es| > 0
    ensures Canonical([SetEntry(Insert(es[0].sources, s), es[0].value)] + es[1..])
    ensures Values([SetEntry(Insert(es[0].sources, s), es[0].value)] + es[1..]) == Values(es)
    ensures forall w :: SourcesOf([SetEntry(Insert(es[0].sources, s), es[0].value)] + es[1..], w)
                     == SourcesOf(es, w) + (if w == es[0].value then {s} else {})
  {
    var r := [SetEntry(Insert(es[0].sources, s), es[0].value)] + es[1..];
    CanonicalTail(es);
    assert r[1..] == es[1..];
    assert es == [es[0]] + es[1..];
    assert Values(r) == {es[0].value} + Values(es[1..]);
  }

  lemma {:induction false} AddedBehind(es: seq<SetEntry>, v: string, s: string, tail: seq<SetEntry>)
    requires Canonical(es) && |es| > 0 && Less(es[0].value, v)
    requires Canonical(tail)
    requires Values(tail) == Values(es[1..]) + {v}
    requires forall w :: SourcesOf(tail, w) == SourcesOf(es[1..], w) + (if w == v then {s} else {})
    ensures Canonical([es[0]] + tail)
    ensures Values([es[0]] + tail) == Values(es) + {v}
    ensures forall w :: SourcesOf([es[0]] + tail, w) == SourcesOf(es, w) + (if w == v then {s} else {})
  {
    BehindCanonical(es, v, tail);
    BehindSources(es, v, s, tail);
    var r := [es[0]] + tail;
    assert Values(r) == {es[0].value} + Values(tail);
    assert es == [es[0]] + es[1..];
    assert Values(es) == {es[0].value} + Values(es[1..]);
  }

  lemma {:induction false} BehindCanonical(es: seq<SetEntry>, v: string, tail: seq<SetEntry>)
    requires Canonical(es) && |es| > 0 && Less(es[0].value, v)
    requires Canonical(tail)
    requires Values(tail) == Values(es[1..]) + {v}
    ensures Canonical([es[0]] + tail)
  {
    forall x | x in Values(tail) ensures Less(es[0].value, x) {
      if x != v {
        var e :| e in es[1..] && e.value == x;
        var k :| 0 <= k < |es[1..]| && es[1..][k] == e;
        assert Less(es[0].value, es[k + 1].value);
      }
    }
    ConsCanonical(es[0], tail);
  }

  lemma {:induction false} BehindSources(es: seq<SetEntry>, v: string, s: string, tail: seq<SetEntry>)
    requires |es| > 0 && Less(es[0].value, v)
    requires forall w :: SourcesOf(tail, w) == SourcesOf(es[1..], w) + (if w == v then {s} else {})
    ensures forall w :: SourcesOf([es[0]] + tail, w) == SourcesOf(es, w) + (if w == v then {s} else {})
  {
    var r := [es[0]] + tail;
    forall w ensures SourcesOf(r, w) == SourcesOf(es, w) + (if w == v then {s} else {}) {
      assert r[1..] == tail;
      if w != es[0].value {
        assert SourcesOf(r, w) == SourcesOf(tail, w);
        assert SourcesOf(es, w) == SourcesOf(es[1..], w);
      } else {
        LessIrreflexive(v);
      }
    }
  }

  lemma {:induction false} ConsCanonical(e: SetEntry, tail: seq<SetEntry>)
    requires Canonical(tail) && Increasing(e.sources) && |e.sources| > 0
    requires forall x :: x in Values(tail) ==> Less(e.value, x)
    ensures Canonical([e] + tail)
  {
    var r := [e] + tail;
    forall i, j | 0 <= i < j < |r| ensures Less(r[i].value, r[j].value) {
      if i == 0 {
        assert r[j] == tail[j - 1];
        assert tail[j - 1] in tail;
      } else {
        assert r[i] == tail[i - 1] && r[j] == tail[j - 1];
      }
    }
  }

  /** Appending one contribution adds its value, and its source to that value's sources. */
  lemma {:induction false} SummarizesAdd(es: seq<SetEntry>, cs: seq<Contribution>, c: Contribution)
    requires Summarizes(es, cs)
    ensures Summarizes(AddEntry(es, c.value, c.source), cs + [c])
  {
    var cs' := cs + [c];
    assert forall x :: x in cs' <==> x in cs || x == c;
    assert ValueSet(cs') == ValueSet(cs) + {c.value};
    forall w ensures SourcesFor(cs', w) == SourcesFor(cs, w) + (if w == c.value then {c.source} else {}) {
    }
  }

  /**
   * The sourced set of a stream of contributions, folded left to right as the source's
   * loop does: every distinct value once, sorted by value, with its sorted sources.
   */
  function SourcedSet(cs: seq<Contribution>): (es: seq<SetEntry>)
    ensures Summarizes(es, cs)
  {
    if |cs| == 0 then []
    else
      var prefix := cs[..|cs| - 1];
      var last := cs[|cs| - 1];
      var es := SourcedSet(prefix);
      SummarizesAdd(es, prefix, last);
      assert prefix + [last] == cs;
      AddEntry(es, last.value, last.source)
  }

  /** Two canonical sets that agree on values and on each value's sources are identical. */
  lemma {:induction false} CanonicalUnique(e1: seq<SetEntry>, e2: seq<SetEntry>)
    requires Canonical(e1) && Canonical(e2)
    requires Values(e1) == Values(e2)
    requires forall v :: SourcesOf(e1, v) == SourcesOf(e2, v)
    ensures e1 == e2
  {
    if |e1| > 0 || |e2| > 0 {
      assert |e1| > 0 && |e2| > 0 by {
        if |e1| > 0 { assert e1[0] in e1; assert e1[0].value in Values(e2); }
        if |e2| > 0 { assert e2[0] in e2; assert e2[0].value in Values(e1); }
      }
      var v1, v2 := e1[0].value, e2[0].value;
      assert v1 in Values(e2) && v2 in Values(e1) by {
        assert e1[0] in e1 && e2[0] in e2;
      }
      LeastValueFirst(e1, v2);
      LeastValueFirst(e2, v1);
      if v1 != v2 {
        LessAsymmetric(v1, v2);
      }
      assert Elems(e1[0].sources) == SourcesOf(e1, v1) == SourcesOf(e2, v1) == Elems(e2[0].sources);
      IncreasingUnique(e1[0].sources, e2[0].sources);
      CanonicalTail(e1);
      CanonicalTail(e2);
      forall w ensures SourcesOf(e1[1..], w) == SourcesOf(e2[1..], w) {
        if w == v1 {
          SourcesOfMissing(e1[1..], w);
          SourcesOfMissing(e2[1..], w);
        }
      }
      CanonicalUnique(e1[1..], e2[1..]);
      assert e1 == [e1[0]] + e1[1..] && e2 == [e2[0]] + e2[1..];
    }
  }

  lemma {:induction false} LeastValueFirst(es: seq<SetEntry>, v: string)
    requires Canonical(es) && |es| > 0 && v in Values(es)
    ensures LessEq(es[0].value, v)
  {
    var e :| e in es && e.value == v;
    var k :| 0 <= k < |es| && es[k] == e;
    if k > 0 {
      assert Less(es[0].value, es[k].value);
    }
  }

  /**
   * The sourced set depends only on which contributions occurred: not on their order,
   * nor on repetitions. Re-running the merge on the same record gives the same set.
   */
  lemma {:induction false} SourcedSetOrderFree(cs1: seq<Contribution>, cs2: seq<Contribution>)
    requires Elems(cs1) == Elems(cs2)
    ensures SourcedSet(cs1) == SourcedSet(cs2)
  {
    var e1, e2 := SourcedSet(cs1), SourcedSet(cs2);
    assert forall c :: c in cs1 <==> c in cs2 by {
      forall c ensures c in cs1 <==> c in cs2 {
        assert c in cs1 <==> c in Elems(cs1);
        assert c in cs2 <==> c in Elems(cs2);
      }
    }
    assert ValueSet(cs1) == ValueSet(cs2);
    forall v ensures SourcesOf(e1, v) == SourcesOf(e2, v) {
      assert SourcesFor(cs1, v) == SourcesFor(cs2, v);
    }
    CanonicalUnique(e1, e2);
  }

  // ---------------------------------------------------------------------------------------
  // Tags: one sourced set per language (`sources_by_value_by_language`)

  datatype LanguageGroup = LanguageGroup(language: string, entries: seq<SetEntry>)

  function GroupLanguages(gs: seq<LanguageGroup>): (r: seq<string>)
    ensures |r| == |gs|
    ensures forall i :: 0 <= i < |gs| ==> r[i] == gs[i].language
  {
    seq(|gs|, i requires 0 <= i < |gs| => gs[i].language)
  }

  predicate Distinct(xs: seq<string>) {
    forall i, j :: 0 <= i < j < |xs| ==> xs[i] != xs[j]
  }

  /** The contributions in language `l`, in order. */
  function InLanguage(cs: seq<Contribution>, l: string): (r: seq<Contribution>)
    ensures forall c :: c in r <==> c in cs && c.language == Some(l)
  {
    if |cs| == 0 then []
    else (if cs[0].language == Some(l) then [cs[0]] else []) + InLanguage(cs[1..], l)
  }

  lemma {:induction false} InLanguageSnoc(cs: seq<Contribution>, c: Contribution, l: string)
    ensures InLanguage(cs + [c], l) == InLanguage(cs, l) + (if c.language == Some(l) then [c] else [])
  {
    if |cs| > 0 {
      assert (cs + [c])[1..] == cs[1..] + [c];
      InLanguageSnoc(cs[1..], c, l);
    } else {
      assert cs + [c] == [c];
    }
  }

  /** The languages of the contributions that carry one. */
  function LanguageSet(cs: seq<Contribution>): set<string> {
    set c | c in cs && c.language.Some? :: c.language.value
  }

  function GroupIndex(gs: seq<LanguageGroup>, l: string): (k: nat)
    ensures k <= |gs|
    ensures k < |gs| ==> gs[k].language == l
    ensures forall i :: 0 <= i < k ==> gs[i].language != l
  {
    if |gs| == 0 || gs[0].language == l then 0 else 1 + GroupIndex(gs[1..], l)
  }

  /** The tag groups of `cs`: one canonical sourced set per language, languages in first-seen order. */
  ghost predicate GroupsOf(gs: seq<LanguageGroup>, cs: seq<Contribution>) {
    && Distinct(GroupLanguages(gs))
    && Elems(GroupLanguages(gs)) == LanguageSet(cs)
    && forall i :: 0 <= i < |gs| ==> Summarizes(gs[i].entries, InLanguage(cs, gs[i].language))
  }

  /**
   * `sources_by_value_by_language.setdefault(language, {}).setdefault(item, set()).add(source)`:
   * items without a language are skipped; a new language opens a group at the end.
   */
  function AddToGroups(gs: seq<LanguageGroup>, cs: seq<Contribution>, c: Contribution): (r: seq<LanguageGroup>)
    requires GroupsOf(gs, cs)
    ensures GroupsOf(r, cs + [c])
    ensures |r| >= |gs| && forall i :: 0 <= i < |gs| ==> r[i].language == gs[i].language
  {
    if c.language.None? then
      UnlabelledIgnored(gs, cs, c);
      gs
    else
      var l := c.language.value;
      var k := GroupIndex(gs, l);
      if k < |gs| then
        JoinedGroup(gs, cs, c, k);
        gs[k := LanguageGroup(l, AddEntry(gs[k].entries, c.value, c.source))]
      else
        OpenedGroup(gs, cs, c);
        gs + [LanguageGroup(l, AddEntry([], c.value, c.source))]
  }

  lemma {:induction false} LanguageSnoc(cs: seq<Contribution>, c: Contribution)
    ensures LanguageSet(cs + [c]) == LanguageSet(cs) + (if c.language.Some? then {c.language.value} else {})
    ensures forall l :: InLanguage(cs + [c], l) == InLanguage(cs, l) + (if c.language == Some(l) then [c] else [])
  {
    var cs' := cs + [c];
    assert forall x :: x in cs' <==> x in cs || x == c;
    forall l ensures InLanguage(cs', l) == InLanguage(cs, l) + (if c.language == Some(l) then [c] else []) {
      InLanguageSnoc(cs, c, l);
    }
  }

  lemma {:induction false} UnlabelledIgnored(gs: seq<LanguageGroup>, cs: seq<Contribution>, c: Contribution)
    requires GroupsOf(gs, cs) && c.language.None?
    ensures GroupsOf(gs, cs + [c])
  {
    LanguageSnoc(cs, c);
  }

  lemma {:induction false} JoinedGroup(gs: seq<LanguageGroup>, cs: seq<Contribution>, c: Contribution, k: nat)
    requires GroupsOf(gs, cs) && k < |gs| && c.language == Some(gs[k].language)
    ensures GroupsOf(gs[k := LanguageGroup(gs[k].language, AddEntry(gs[k].entries, c.value, c.source))], cs + [c])
  {
    var l := gs[k].language;
    var r := gs[k := LanguageGroup(l, AddEntry(gs[k].entries, c.value, c.source))];
    LanguageSnoc(cs, c);
    OtherGroupsKept(gs, cs, c);
    assert GroupLanguages(r) == GroupLanguages(gs);
    assert l in Elems(GroupLanguages(gs)) by {
      assert GroupLanguages(gs)[k] == l;
    }
    assert Distinct(GroupLanguages(r));
    assert Elems(GroupLanguages(r)) == LanguageSet(cs + [c]);
    forall i | 0 <= i < |r| ensures Summarizes(r[i].entries, InLanguage(cs + [c], r[i].language)) {
      if i == k {
        SummarizesAdd(gs[k].entries, InLanguage(cs, l), c);
      } else {
        assert r[i] == gs[i] && GroupLanguages(gs)[i] != GroupLanguages(gs)[k];
      }
    }
  }

  lemma {:induction false} OpenedGroup(gs: seq<LanguageGroup>, cs: seq<Contribution>, c: Contribution)
    requires GroupsOf(gs, cs) && c.language.Some?
    requires GroupIndex(gs, c.language.value) == |gs|
    ensures GroupsOf(gs + [LanguageGroup(c.language.value, AddEntry([], c.value, c.source))], cs + [c])
  {
    var l := c.language.value;
    var r := gs + [LanguageGroup(l, AddEntry([], c.value, c.source))];
    NoGroupNoItems(gs, cs, l);
    LanguageSnoc(cs, c);
    OtherGroupsKept(gs, cs, c);
    assert GroupLanguages(r) == GroupLanguages(gs) + [l];
    assert Distinct(GroupLanguages(r));
    assert Elems(GroupLanguages(r)) == LanguageSet(cs + [c]);
    forall i | 0 <= i < |r| ensures Summarizes(r[i].entries, InLanguage(cs + [c], r[i].language)) {
      if i == |gs| {
        SummarizesAdd([], [], c);
        assert InLanguage(cs + [c], l) == [c];
      } else {
        assert r[i] == gs[i] && GroupLanguages(gs)[i] != l;
      }
    }
  }

  /** A language with no group has no contributions. */
  lemma {:induction false} NoGroupNoItems(gs: seq<LanguageGroup>, cs: seq<Contribution>, l: string)
    requires GroupsOf(gs, cs)
    requires GroupIndex(gs, l) == |gs|
    ensures l !in GroupLanguages(gs)
    ensures InLanguage(cs, l) == []
  {
    assert l !in LanguageSet(cs) by {
      assert l !in Elems(GroupLanguages(gs));
    }
    assert Elems(InLanguage(cs, l)) == {};
    ElemsEmpty(InLanguage(cs, l));
  }

  /** A contribution leaves the groups of the other languages as they were. */
  lemma {:induction false} OtherGroupsKept(gs: seq<LanguageGroup>, cs: seq<Contribution>, c: Contribution)
    requires GroupsOf(gs, cs)
    ensures forall i :: 0 <= i < |gs| && c.language != Some(gs[i].language) ==>
      Summarizes(gs[i].entries, InLanguage(cs + [c], gs[i].language))
  {
    forall i | 0 <= i < |gs| && c.language != Some(gs[i].language)
      ensures Summarizes(gs[i].entries, InLanguage(cs + [c], gs[i].language))
    {
      InLanguageSnoc(cs, c, gs[i].language);
    }
  }

  /** The `tags` field: the per-language sourced sets of a stream of contributions. */
  function TagGroups(cs: seq<Contribution>): (gs: seq<LanguageGroup>)
    ensures GroupsOf(gs, cs)
  {
    if |cs| == 0 then []
    else
      var prefix := cs[..|cs| - 1];
      assert prefix + [cs[|cs| - 1]] == cs;
      AddToGroups(TagGroups(prefix), prefix, cs[|cs| - 1])
  }

  /** Languages keep the order in which they were first seen: later items only append languages. */
  lemma {:induction false} TagGroupsExtend(cs: seq<Contribution>, k: nat)
    requires k <= |cs|
    ensures |TagGroups(cs[..k])| <= |TagGroups(cs)|
    ensures GroupLanguages(TagGroups(cs[..k])) == GroupLanguages(TagGroups(cs))[..|TagGroups(cs[..k])|]
  {
    if k < |cs| {
      var prefix := cs[..|cs| - 1];
      assert prefix[..k] == cs[..k];
      TagGroupsExtend(prefix, k);
    } else {
      assert cs[..k] == cs;
    }
  }

  // ---------------------------------------------------------------------------------------
  // A tool's longDescription: per language, the first item wins

  /** Reference: the first contribution in language `l`, as a `{source, value}` pair. */
  function FirstOf(cs: seq<Contribution>, l: string): Option<Sourced> {
    if |cs| == 0 then None
    else if cs[0].language == Some(l) then Some(Sourced(cs[0].source, cs[0].value))
    else FirstOf(cs[1..], l)
  }

  lemma {:induction false} FirstOfSnoc(cs: seq<Contribution>, c: Contribution, l: string)
    ensures FirstOf(cs + [c], l)
         == if FirstOf(cs, l).Some? then FirstOf(cs, l)
            else if c.language == Some(l) then Some(Sourced(c.source, c.value))
            else None
  {
    if |cs| > 0 {
      assert (cs + [c])[1..] == cs[1..] + [c];
      FirstOfSnoc(cs[1..], c, l);
    }
  }

  lemma {:induction false} FirstOfFound(cs: seq<Contribution>, l: string)
    ensures FirstOf(cs, l).Some? <==> l in LanguageSet(cs)
  {
    if |cs| > 0 {
      FirstOfFound(cs[1..], l);
      assert cs == [cs[0]] + cs[1..];
      assert forall c :: c in cs <==> c == cs[0] || c in cs[1..];
    }
  }

  function SlotLanguages(slots: seq<(string, Sourced)>): (r: seq<string>)
    ensures |r| == |slots|
    ensures forall i :: 0 <= i < |slots| ==> r[i] == slots[i].0
  {
    seq(|slots|, i requires 0 <= i < |slots| => slots[i].0)
  }

  /**
   * `if language not in canonical_value_by_language: canonical_value_by_language[language] = ...`
   * over the stream: one slot per language that occurs, holding that language's first item.
   */
  function FirstPerLanguage(cs: seq<Contribution>): (slots: seq<(string, Sourced)>)
    ensures Distinct(SlotLanguages(slots))
    ensures Elems(SlotLanguages(slots)) == LanguageSet(cs)
    ensures forall i :: 0 <= i < |slots| ==> FirstOf(cs, slots[i].0) == Some(slots[i].1)
  {
    if |cs| == 0 then []
    else
      var prefix := cs[..|cs| - 1];
      var c := cs[|cs| - 1];
      assert prefix + [c] == cs;
      assert forall x :: x in cs <==> x in prefix || x == c;
      var slots := FirstPerLanguage(prefix);
      forall l ensures FirstOf(cs, l) == if FirstOf(prefix, l).Some? then FirstOf(prefix, l)
            else if c.language == Some(l) then Some(Sourced(c.source, c.value)) else None {
        FirstOfSnoc(prefix, c, l);
      }
      if c.language.Some? && c.language.value !in SlotLanguages(slots) then
        var l := c.language.value;
        FirstOfFound(prefix, l);
        assert l !in Elems(SlotLanguages(slots));
        assert LanguageSet(cs) == LanguageSet(prefix) + {l};
        var r := slots + [(l, Sourced(c.source, c.value))];
        assert SlotLanguages(r) == SlotLanguages(slots) + [l];
        r
      else
        assert c.language.Some? ==> c.language.value in Elems(SlotLanguages(slots));
        slots
  }

  /** A language slot, once filled, is never overwritten: later items only add new languages. */
  lemma {:induction false} FirstPerLanguageExtend(cs: seq<Contribution>, k: nat)
    requires k <= |cs|
    ensures |FirstPerLanguage(cs[..k])| <= |FirstPerLanguage(cs)|
    ensures FirstPerLanguage(cs[..k]) == FirstPerLanguage(cs)[..|FirstPerLanguage(cs[..k])|]
  {
    if k < |cs| {
      var prefix := cs[..|cs| - 1];
      assert prefix[..k] == cs[..k];
      FirstPerLanguageExtend(prefix, k);
    } else {
      assert cs[..k] == cs;
    }
  }
}
