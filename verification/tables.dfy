/**
 * The field tables `main` of generate_canonical.py hard-codes for actors, projects and tools.
 * Every candidate path starts with the section a harvester wrote into the record, so the
 * tables are written over a closed set of sections and lowered to `FieldSpec`s.
 */
module Tables {
  import opened Wrappers
  import opened Text
  import opened Resolve
  import opened Extract
  import opened Tree
  import opened Canonical

  /** The record sections the tables read, one per harvested upstream source. */
  datatype Section =
    | CivicGraph | ParticipateDb | Wikidata | Framacalc | Civicstack | NuitDebout
    | DebianAppstream | Debian | FieldGuide | TechPlateforms | Harnessing

  function Name(s: Section): (r: string)
    ensures |r| > 0 && !IsDigit(r[0])
  {
    match s
    case CivicGraph => "civic-graph"
    case ParticipateDb => "participatedb"
    case Wikidata => "wikidata"
    case Framacalc => "ogptoolbox-framacalc"
    case Civicstack => "civicstack"
    case NuitDebout => "nuit-debout"
    case DebianAppstream => "debian_appstream"
    case Debian => "debian"
    case FieldGuide => "civic-tech-field-guide"
    case TechPlateforms => "tech-plateforms"
    case Harnessing => "harnessing-collaborative-technologies"
  }

  /** A section name is a single path piece, is not the `canonical` key and is not an index. */
  lemma {:induction false} NameIsPiece(s: Section)
    ensures '.' !in Name(s) && Name(s) != "canonical" && !IsDigits(Name(s))
  {
    if s.Harnessing? {
      LongNameIsPiece();
    } else if s.FieldGuide? || s.Framacalc? || s.DebianAppstream? || s.TechPlateforms? {
      CompoundNameIsPiece(s);
    } else {
      ShortNameIsPiece(s);
    }
  }

  lemma {:induction false} LongNameIsPiece()
    ensures '.' !in Name(Harnessing)
  {
  }

  lemma {:induction false} CompoundNameIsPiece(s: Section)
    requires s.FieldGuide? || s.Framacalc? || s.DebianAppstream? || s.TechPlateforms?
    ensures '.' !in Name(s)
  {
  }

  lemma {:induction false} ShortNameIsPiece(s: Section)
    requires !(s.Harnessing? || s.FieldGuide? || s.Framacalc? || s.DebianAppstream? || s.TechPlateforms?)
    ensures '.' !in Name(s)
  {
  }

  /** A candidate path: a section, then the path inside it. */
  datatype Loc = Loc(section: Section, rest: string)

  function PathOf(l: Loc): string {
    Name(l.section) + "." + l.rest
  }

  /** The provenance tag of a table path is its section's name. */
  lemma {:induction false} PathOfSource(l: Loc)
    ensures PathOf(l) != "" && PathSource(PathOf(l)) == Name(l.section)
  {
    NameIsPiece(l.section);
    DotAfterDotFree(Name(l.section), l.rest);
  }

  /** A field of a table, in the section-based spelling; `Lower` gives its `FieldSpec`. */
  datatype Rule =
    | ScalarRule(name: string, locs: seq<Loc>)
    | LocalizedRule(name: string, rows: seq<(string, seq<Loc>)>)
    | EarliestRule(name: string, cands: seq<(Loc, Extractor)>)
    | TagRule(name: string, cands: seq<(Loc, Extractor)>)
    | SetRule(name: string, cands: seq<(Loc, Extractor)>)

  function Paths(locs: seq<Loc>): (r: seq<string>)
    ensures |r| == |locs| && forall k :: 0 <= k < |locs| ==> r[k] == PathOf(locs[k])
  {
    seq(|locs|, k requires 0 <= k < |locs| => PathOf(locs[k]))
  }

  function Candidates(cands: seq<(Loc, Extractor)>): (r: seq<Candidate>)
    ensures |r| == |cands| && forall k :: 0 <= k < |cands| ==> r[k] == Candidate(PathOf(cands[k].0), cands[k].1)
  {
    seq(|cands|, k requires 0 <= k < |cands| => Candidate(PathOf(cands[k].0), cands[k].1))
  }

  function Rows(rows: seq<(string, seq<Loc>)>): (r: seq<(string, seq<string>)>)
    ensures |r| == |rows| && forall k :: 0 <= k < |rows| ==> r[k] == (rows[k].0, Paths(rows[k].1))
  {
    seq(|rows|, k requires 0 <= k < |rows| => (rows[k].0, Paths(rows[k].1)))
  }

  function Lower(rule: Rule): (spec: FieldSpec)
    ensures spec.name == rule.name
  {
    match rule
    case ScalarRule(name, locs) => ScalarSpec(name, Paths(locs))
    case LocalizedRule(name, rows) => LanguageTableSpec(name, Rows(rows))
    case EarliestRule(name, cands) => FirstPerLanguageSpec(name, Candidates(cands))
    case TagRule(name, cands) => TagSpec(name, Candidates(cands))
    case SetRule(name, cands) => SetSpec(name, Candidates(cands))
  }

  function LowerAll(rules: seq<Rule>): (specs: seq<FieldSpec>)
    ensures |specs| == |rules| && forall i :: 0 <= i < |rules| ==> specs[i] == Lower(rules[i])
  {
    seq(|rules|, i requires 0 <= i < |rules| => Lower(rules[i]))
  }

  /** Every path a lowered rule reads is the path of one of its locations. */
  lemma {:induction false} LoweredPathsAreLocs(rule: Rule, p: string)
    requires p in SpecPaths(Lower(rule))
    ensures exists l: Loc :: p == PathOf(l)
  {
    match rule
    case ScalarRule(_, locs) =>
      var k :| 0 <= k < |locs| && Paths(locs)[k] == p;
    case LocalizedRule(_, rows) =>
      RowPathsAreLocs(rows, p);
    case EarliestRule(_, cands) =>
      var k :| 0 <= k < |cands| && CandidatePaths(Candidates(cands))[k] == p;
    case TagRule(_, cands) =>
      var k :| 0 <= k < |cands| && CandidatePaths(Candidates(cands))[k] == p;
    case SetRule(_, cands) =>
      var k :| 0 <= k < |cands| && CandidatePaths(Candidates(cands))[k] == p;
  }

  lemma {:induction false} RowPathsAreLocs(rows: seq<(string, seq<Loc>)>, p: string)
    requires p in TablePaths(Rows(rows))
    ensures exists l: Loc :: p == PathOf(l)
  {
    var table := Rows(rows);
    assert table[1..] == Rows(rows[1..]);
    if p in table[0].1 {
      var k :| 0 <= k < |rows[0].1| && Paths(rows[0].1)[k] == p;
    } else {
      RowPathsAreLocs(rows[1..], p);
    }
  }

  /** A table path is not empty, and its source is neither `canonical` nor an index. */
  lemma {:induction false} LoweredPathAvoids(rule: Rule, p: string)
    requires p in SpecPaths(Lower(rule))
    ensures p != "" && PathSource(p) != "canonical" && !IsDigits(PathSource(p))
  {
    LoweredPathsAreLocs(rule, p);
    var l: Loc :| p == PathOf(l);
    PathOfSource(l);
    NameIsPiece(l.section);
  }

  /**
   * Every table written over sections avoids the `canonical` key and starts each path with a
   * key, not an index: the conditions under which merging is idempotent and a non-mapping
   * record passes through untouched.
   */
  lemma {:induction false} LoweredAvoids(rules: seq<Rule>)
    ensures Avoids(LowerAll(rules), "canonical") && Keyed(LowerAll(rules))
  {
    var specs := LowerAll(rules);
    forall i | 0 <= i < |specs| ensures FieldAvoids(specs[i], "canonical") && FieldKeyed(specs[i]) {
      forall p | p in SpecPaths(specs[i]) ensures p != "" && PathSource(p) != "canonical" && !IsDigits(PathSource(p)) {
        LoweredPathAvoids(rules[i], p);
      }
    }
  }

  const En: Lang := Some("en")
  const Es: Lang := Some("es")
  const Fr: Lang := Some("fr")

  /** The actors' table: a Civic Graph record's name, description, categories and URL. */
  const ActorRules: seq<Rule> := [
    ScalarRule("name", [Loc(CivicGraph, "name")]),
    LocalizedRule("longDescription", [("en", [Loc(CivicGraph, "description")]), ("es", []), ("fr", [])]),
    TagRule("tags", [
      (Loc(CivicGraph, "categories"), FromNameIdList),
      (Loc(CivicGraph, "type"), FromValue(En))]),
    ScalarRule("website", [Loc(CivicGraph, "url")])
  ]

  /** The projects' table: a ParticipateDB record's fields. */
  const ProjectRules: seq<Rule> := [
    ScalarRule("name", [Loc(ParticipateDb, "Name")]),
    LocalizedRule("longDescription", [("en", [Loc(ParticipateDb, "Description")]), ("es", []), ("fr", [])]),
    TagRule("tags", [
      (Loc(ParticipateDb, "Category"), FromSingletonOrList(En)),
      (Loc(ParticipateDb, "category"), FromValue(En))]),
    SetRule("tools", [(Loc(ParticipateDb, "Tools used"), FromList(None))]),
    ScalarRule("website", [Loc(ParticipateDb, "Web")])
  ]

  /** The tools' table: every harvester contributes, in a fixed order of preference. */
  const ToolRules: seq<Rule> := [
    ScalarRule("bugTracker", [
      Loc(Wikidata, "bug_tracking_system.0.value"),
      Loc(Framacalc, "URL suivi de bogues")]),
    ScalarRule("license", [
      Loc(Wikidata, "license_label.0.value"),
      Loc(Civicstack, "license.name.en"),
      Loc(NuitDebout, "Nom de la licence"),
      Loc(Framacalc, "Licence")]),
    ScalarRule("name", [
      Loc(DebianAppstream, "Name.C"),
      Loc(Wikidata, "label.0.value"),
      Loc(FieldGuide, "name"),
      Loc(Civicstack, "name"),
      Loc(TechPlateforms, "Name"),
      Loc(NuitDebout, "Outil"),
      Loc(ParticipateDb, "Name"),
      Loc(Harnessing, "title"),
      Loc(Framacalc, "Nom")]),
    EarliestRule("longDescription", [
      (Loc(Wikidata, "description"), FromWikidata),
      (Loc(Debian, "description.en.long_description"), FromValue(En)),
      (Loc(Debian, "description.es.long_description"), FromValue(Es)),
      (Loc(Debian, "description.fr.long_description"), FromValue(Fr)),
      (Loc(Civicstack, "description"), FromValueByLanguage),
      (Loc(TechPlateforms, "About"), FromValue(En)),
      (Loc(ParticipateDb, "Description"), FromValue(En)),
      (Loc(Harnessing, "description"), FromValue(En)),
      (Loc(NuitDebout, "Détails"), FromValue(Fr)),
      (Loc(Framacalc, "Description"), FromValue(Fr))]),
    SetRule("programmingLanguages", [(Loc(Civicstack, "technology"), FromNameIdList)]),
    ScalarRule("screenshot", [
      Loc(Debian, "screenshot.large_image_url"),
      Loc(Wikidata, "image.0.value"),
      Loc(Framacalc, "Capture d'écran"),
      Loc(Harnessing, "logo_url")]),
    ScalarRule("sourceCode", [
      Loc(Wikidata, "source_code_repository.0.value"),
      Loc(Civicstack, "github"),
      Loc(NuitDebout, "Lien vers le code"),
      Loc(Framacalc, "URL code source")]),
    ScalarRule("stackexchangeTag", [
      Loc(Wikidata, "stack_exchange_tag.0.value"),
      Loc(Framacalc, "Tag stack exchange")]),
    TagRule("tags", [
      (Loc(FieldGuide, "category"), FromValue(En)),
      (Loc(Civicstack, "tags"), FromNameIdList),
      (Loc(DebianAppstream, "Categories"), FromList(En)),
      (Loc(Harnessing, "category"), FromValue(En)),
      (Loc(NuitDebout, "Fonction"), FromValue(Fr)),
      (Loc(Framacalc, "Catégorie"), FromValue(Fr)),
      (Loc(ParticipateDb, "Category"), FromSingletonOrList(En)),
      (Loc(ParticipateDb, "category"), FromValue(En)),
      (Loc(TechPlateforms, "CivicTech or GeneralPurpose"), FromValue(En)),
      (Loc(TechPlateforms, "Functions"), FromValue(En)),
      (Loc(TechPlateforms, "AppCivist Service 1"), FromValue(En)),
      (Loc(TechPlateforms, "AppCivist Service 2"), FromValue(En)),
      (Loc(TechPlateforms, "AppCivist Service 3"), FromValue(En)),
      (Loc(Wikidata, "genre_label"), FromWikidata),
      (Loc(Wikidata, "instance_of_label"), FromWikidata)])
  ]

  /** One entity type's table. */
  datatype EntityType = Actors | Projects | Tools

  function RulesOf(t: EntityType): seq<Rule> {
    match t
    case Actors => ActorRules
    case Projects => ProjectRules
    case Tools => ToolRules
  }

  /** One record of an entity type through `main`. */
  function Canonicalize(t: EntityType, entry: Node): (r: Result<Node, Failure>)
    ensures entry.Null? ==> r == Ok(Null)
    ensures !entry.Map? ==> r == Ok(entry)
  {
    var specs := LowerAll(RulesOf(t));
    LoweredAvoids(RulesOf(t));
    if entry.Map? then MergeEntry(entry, specs)
    else
      NonMappingUntouched(entry, specs);
      MergeEntry(entry, specs)
  }

  /** Running the program on its own output leaves every record as it is. */
  lemma {:induction false} CanonicalizeIdempotent(t: EntityType, entry: Node)
    requires Canonicalize(t, entry).Ok?
    ensures Canonicalize(t, Canonicalize(t, entry).value) == Canonicalize(t, entry)
  {
    LoweredAvoids(RulesOf(t));
    MergeEntryIdempotent(entry, LowerAll(RulesOf(t)));
  }
}
