/**
 * The `extract_from_*` generators of generate_canonical.py: each turns the node a candidate
 * path resolved to into `(language, item)` pairs.
 */
module Extract {
  import opened Wrappers
  import opened Tree

  /** A language code, or `None` for "no language". */
  type Lang = Option<string>

  /** The extraction strategies, as one closed set of variants (the `functools.partial` tables). */
  datatype Extractor =
    | FromValue(language: Lang)            // extract_from_value
    | FromList(language: Lang)             // extract_from_list
    | FromSingletonOrList(language: Lang)  // extract_from_singletion_or_list
    | FromNameId                           // extract_from_name_id
    | FromNameIdList                       // extract_from_name_id_list
    | FromValueByLanguage                  // extract_from_value_by_language
    | FromWikidata                         // extract_from_wikidata

  datatype Pair = Pair(language: Lang, item: Node)

  /**
   * What a generator produced before it stopped: the pairs it yielded, and whether it
   * stopped by raising (a node of a shape the strategy cannot read).
   */
  datatype Extraction = Extraction(pairs: seq<Pair>, raised: bool)

  const Nothing := Extraction([], false)
  const Raise := Extraction([], true)

  /** `yield from a; yield from b`: `b` only runs when `a` finished without raising. */
  function Then(a: Extraction, b: Extraction): (r: Extraction)
    ensures a.raised ==> r == a
    ensures !a.raised ==> r == Extraction(a.pairs + b.pairs, b.raised)
  {
    if a.raised then a else Extraction(a.pairs + b.pairs, b.raised)
  }

  function Tagged(language: Lang, items: seq<Node>): (r: seq<Pair>)
    ensures |r| == |items|
    ensures forall i :: 0 <= i < |items| ==> r[i] == Pair(language, items[i])
  {
    seq(|items|, i requires 0 <= i < |items| => Pair(language, items[i]))
  }

  /** `extract_from_value_by_language`: one pair per entry of a mapping, keyed by language. */
  function ValueByLanguage(value: Node): (r: Extraction)
    ensures value.Null? ==> r == Nothing
    ensures value.Map? ==>
      (&& !r.raised
       && |r.pairs| == |value.entries|
       && forall i :: 0 <= i < |value.entries| ==>
            r.pairs[i] == Pair(Some(value.entries[i].0), value.entries[i].1))
    ensures !value.Null? && !value.Map? ==> r == Raise
  {
    match value
    case Null => Nothing
    case Map(es) => Extraction(seq(|es|, i requires 0 <= i < |es| => Pair(Some(es[i].0), es[i].1)), false)
    case _ => Raise
  }

  /**
   * `extract_from_name_id`: a mapping's `name`, tagged 'en' when it is a string and
   * expanded by language otherwise; a missing `name` or a non-mapping raises.
   */
  function NameId(value: Node): (r: Extraction)
    ensures value.Null? ==> r == Nothing
    ensures !value.Null? && !value.Map? ==> r == Raise
    ensures value.Map? && Find(value.entries, "name").None? ==> r == Raise
    ensures value.Map? && Find(value.entries, "name").Some? && Find(value.entries, "name").value.Str? ==>
      r == Extraction([Pair(Some("en"), Find(value.entries, "name").value)], false)
    ensures value.Map? && Find(value.entries, "name").Some? && !Find(value.entries, "name").value.Str? ==>
      r == ValueByLanguage(Find(value.entries, "name").value)
  {
    match value
    case Null => Nothing
    case Map(es) =>
      (match Find(es, "name")
       case None => Raise
       case Some(name) =>
         if name.Str? then Extraction([Pair(Some("en"), name)], false) else ValueByLanguage(name))
    case _ => Raise
  }

  /** `extract_from_name_id_list` once the node has been iterated. */
  function NameIdItems(items: seq<Node>): Extraction {
    if |items| == 0 then Nothing else Then(NameId(items[0]), NameIdItems(items[1..]))
  }

  /** The `xml:lang` of a Wikidata literal (`item.get('xml:lang')`): absent or null means no language. */
  function LiteralLanguage(entries: seq<(string, Node)>): Option<Lang> {
    match Find(entries, "xml:lang")
    case None => Some(None)
    case Some(Null) => Some(None)
    case Some(Str(l)) => Some(Some(l))
    case Some(_) => None
  }

  /** A Wikidata literal the extractor can read: a mapping with a `value` and a usable language. */
  predicate ReadableLiteral(item: Node) {
    item.Map? && Find(item.entries, "value").Some? && LiteralLanguage(item.entries).Some?
  }

  /** `extract_from_wikidata` once the node has been iterated: `(item['xml:lang'], item['value'])`. */
  function WikidataItems(items: seq<Node>): (r: Extraction)
    ensures |r.pairs| <= |items|
    ensures forall i :: 0 <= i < |r.pairs| ==>
      && ReadableLiteral(items[i])
      && r.pairs[i] == Pair(LiteralLanguage(items[i].entries).value, Find(items[i].entries, "value").value)
    ensures r.raised <==> exists i :: 0 <= i < |items| && !ReadableLiteral(items[i])
    ensures !r.raised ==> |r.pairs| == |items|
  {
    if |items| == 0 then Nothing
    else if !ReadableLiteral(items[0]) then Raise
    else
      var head := Pair(LiteralLanguage(items[0].entries).value, Find(items[0].entries, "value").value);
      var rest := WikidataItems(items[1..]);
      assert rest.raised <==> exists i :: 1 <= i < |items| && !ReadableLiteral(items[i]) by {
        if rest.raised {
          var i :| 0 <= i < |items[1..]| && !ReadableLiteral(items[1..][i]);
          assert !ReadableLiteral(items[i + 1]);
        }
      }
      Extraction([head] + rest.pairs, rest.raised)
  }

  /** Runs one strategy on a resolved node; a `None` node yields nothing and never raises. */
  function Extract(ex: Extractor, value: Node): (r: Extraction)
    ensures value.Null? ==> r == Nothing
    ensures (ex.FromValue? || ex.FromList? || ex.FromSingletonOrList?) ==>
      forall i :: 0 <= i < |r.pairs| ==> r.pairs[i].language == ex.language
  {
    if value.Null? then Nothing
    else match ex
      case FromValue(language) => Extraction([Pair(language, value)], false)
      case FromList(language) =>
        (match Iterate(value)
         case None => Raise
         case Some(items) => Extraction(Tagged(language, items), false))
      case FromSingletonOrList(language) =>
        if value.List? then Extraction(Tagged(language, value.items), false)
        else Extraction([Pair(language, value)], false)
      case FromNameId => NameId(value)
      case FromNameIdList =>
        (match Iterate(value)
         case None => Raise
         case Some(items) => NameIdItems(items))
      case FromValueByLanguage => ValueByLanguage(value)
      case FromWikidata =>
        (match Iterate(value)
         case None => Raise
         case Some(items) => WikidataItems(items))
  }

  /**
   * What each strategy yields on a node that is not `None`: the value strategy the node
   * itself, the list strategies one pair per iterated item (raising on a node that cannot be
   * iterated), and the name/id, by-language and Wikidata strategies what their readers yield.
   */
  lemma {:induction false} ExtractSpec(ex: Extractor, value: Node)
    ensures !value.Null? && ex.FromValue? ==> Extract(ex, value) == Extraction([Pair(ex.language, value)], false)
    ensures !value.Null? && (ex.FromList? || ex.FromNameIdList? || ex.FromWikidata?) && Iterate(value).None? ==>
      Extract(ex, value) == Raise
    ensures !value.Null? && ex.FromList? && Iterate(value).Some? ==>
      (&& !Extract(ex, value).raised
       && |Extract(ex, value).pairs| == |Iterate(value).value|
       && forall i :: 0 <= i < |Extract(ex, value).pairs| ==> Extract(ex, value).pairs[i] == Pair(ex.language, Iterate(value).value[i]))
    ensures ex.FromSingletonOrList? && value.List? ==>
      (&& !Extract(ex, value).raised
       && |Extract(ex, value).pairs| == |value.items|
       && forall i :: 0 <= i < |Extract(ex, value).pairs| ==> Extract(ex, value).pairs[i] == Pair(ex.language, value.items[i]))
    ensures ex.FromSingletonOrList? && !value.Null? && !value.List? ==>
      Extract(ex, value) == Extraction([Pair(ex.language, value)], false)
    ensures ex.FromNameId? ==> Extract(ex, value) == NameId(value)
    ensures !value.Null? && ex.FromNameIdList? && Iterate(value).Some? ==> Extract(ex, value) == NameIdItems(Iterate(value).value)
    ensures ex.FromValueByLanguage? ==> Extract(ex, value) == ValueByLanguage(value)
    ensures !value.Null? && ex.FromWikidata? && Iterate(value).Some? ==> Extract(ex, value) == WikidataItems(Iterate(value).value)
  {
  }

  /** The singleton-or-list strategy is the list strategy on a list and the value strategy otherwise. */
  lemma {:induction false} SingletonOrListAgrees(language: Lang, value: Node)
    ensures Extract(FromSingletonOrList(language), value)
         == if value.List? then Extract(FromList(language), value) else Extract(FromValue(language), value)
  {
  }

  /** A name/id object `extract_from_name_id` cannot read: not a mapping, no `name`, or a `name` of the wrong shape. */
  predicate NameIdUnreadable(value: Node) {
    && !value.Null?
    && (|| !value.Map?
        || Find(value.entries, "name").None?
        || (var name := Find(value.entries, "name").value; !name.Str? && !name.Null? && !name.Map?))
  }

  /** When a strategy raises, stated from the node's shape alone rather than from the generators. */
  predicate Unreadable(ex: Extractor, value: Node) {
    && !value.Null?
    && match ex
       case FromValue(_) => false
       case FromSingletonOrList(_) => false
       case FromList(_) => Iterate(value).None?
       case FromNameId => NameIdUnreadable(value)
       case FromNameIdList =>
         || Iterate(value).None?
         || exists i :: 0 <= i < |Iterate(value).value| && NameIdUnreadable(Iterate(value).value[i])
       case FromValueByLanguage => !value.Map?
       case FromWikidata =>
         || Iterate(value).None?
         || exists i :: 0 <= i < |Iterate(value).value| && !ReadableLiteral(Iterate(value).value[i])
  }

  /** A strategy raises on a node exactly when the node has a shape that strategy cannot read. */
  lemma {:induction false} ExtractRaises(ex: Extractor, value: Node)
    ensures Extract(ex, value).raised <==> Unreadable(ex, value)
  {
    if !value.Null? && ex.FromNameIdList? && Iterate(value).Some? {
      var items := Iterate(value).value;
      NameIdItemsRaises(items);
      assert forall i :: 0 <= i < |items| ==> (NameId(items[i]).raised <==> NameIdUnreadable(items[i]));
    }
  }

  /** A name/id list raises exactly when one of its objects is not a readable name/id object. */
  lemma {:induction false} NameIdItemsRaises(items: seq<Node>)
    ensures NameIdItems(items).raised <==> exists i :: 0 <= i < |items| && NameId(items[i]).raised
  {
    if |items| > 0 {
      NameIdItemsRaises(items[1..]);
      if NameIdItems(items[1..]).raised {
        var i :| 0 <= i < |items[1..]| && NameId(items[1..][i]).raised;
        assert NameId(items[i + 1]).raised;
      }
      if exists i :: 0 <= i < |items| && NameId(items[i]).raised {
        var i :| 0 <= i < |items| && NameId(items[i]).raised;
        if i > 0 {
          assert NameId(items[1..][i - 1]).raised;
        }
      }
    }
  }
}
