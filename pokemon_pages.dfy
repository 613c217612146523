/**
 * The records that `get_pokemon` builds from the two PokeAPI responses, the
 * database that `create_pokemon_database` asks Notion to create, and the page
 * that `create_notion_page` sends for each record.  Responses and requests
 * are values: the HTTP and Notion calls themselves are not modelled.
 */
module PokemonPages {
  import opened Wrappers
  import opened Text
  import opened PokemonFields

  // --------------------------------------------------------------- records

  /** The parts of a `pokemon/{i}` response that are read. */
  datatype PokemonResponse = PokemonResponse(
    id: int,
    speciesName: string,
    typeNames: seq<string>,
    height: int,
    weight: int,
    baseStats: seq<int>,
    frontDefault: Option<string>,
    officialArtwork: Option<string>)

  /** The parts of a `pokemon-species/{n}` response that are read. */
  datatype SpeciesResponse = SpeciesResponse(
    flavorTextEntries: seq<Localized>,
    genera: seq<Localized>,
    generationName: string)

  /** The three keys that the species pass adds to a record, all at once or not at all. */
  datatype Enrichment = Enrichment(flavorText: string, category: string, generation: string)

  /** One element of `db_pokemon`. */
  datatype PokemonRecord = PokemonRecord(
    name: string,
    number: int,
    types: seq<SelectOption>,
    height: int,
    weight: int,
    hp: int,
    attack: int,
    defense: int,
    specialAttack: int,
    specialDefense: int,
    speed: int,
    sprite: Option<string>,
    artwork: Option<string>,
    bulbUrl: string,
    enrichment: Option<Enrichment>)

  /** The number of base stats read from a response, `hp` to `speed`. */
  const StatCount := 6

  /**
   * The record built from one response, or `None` when reading a stat
   * raises (fewer than six stats), in which case the creature is skipped.
   */
  function RecordOf(p: PokemonResponse): (r: Option<PokemonRecord>)
    ensures r.Some? <==> |p.baseStats| >= StatCount
  {
    if |p.baseStats| < StatCount then None
    else
      var name := ProcessedName(p.speciesName);
      Some(PokemonRecord(
        name, p.id, TypesArray(p.typeNames), p.height, p.weight,
        p.baseStats[0], p.baseStats[1], p.baseStats[2], p.baseStats[3], p.baseStats[4], p.baseStats[5],
        Sprite(p.frontDefault, p.officialArtwork), p.officialArtwork,
        BulbapediaUrl(name), None))
  }

  /**
   * A fresh record carries the prettified name and the link built from that
   * name, one type option per type in order, the stats in the order `hp`,
   * `attack`, `defense`, `special-attack`, `special-defense`, `speed`, the
   * sprite with its fallback, and no species details yet.
   */
  lemma RecordOfFields(p: PokemonResponse)
    requires |p.baseStats| >= StatCount
    ensures var r := RecordOf(p).value;
            && r.name == ProcessedName(p.speciesName)
            && r.bulbUrl == BulbapediaUrl(r.name)
            && r.number == p.id
            && |r.types| == |p.typeNames|
            && (forall i :: 0 <= i < |r.types| ==> r.types[i].name == p.typeNames[i])
            && r.hp == p.baseStats[0] && r.attack == p.baseStats[1] && r.defense == p.baseStats[2]
            && r.specialAttack == p.baseStats[3] && r.specialDefense == p.baseStats[4] && r.speed == p.baseStats[5]
            && (Truthy(p.frontDefault) ==> r.sprite == p.frontDefault)
            && (!Truthy(p.frontDefault) ==> r.sprite == p.officialArtwork)
            && r.artwork == p.officialArtwork
            && r.enrichment.None?
  {

  }

  /**
   * The records fetched for the numbers `lo` to `hi` in order.  `api` holds
   * the responses that arrived; a number without one (the request or the
   * decoding raised) and a response with too few stats are skipped.
   */
  function Fetched(api: map<int, PokemonResponse>, lo: int, hi: int): seq<PokemonRecord>
    decreases hi - lo
  {
    if hi < lo then []
    else
      var before := Fetched(api, lo, hi - 1);
      if hi in api && RecordOf(api[hi]).Some? then before + [RecordOf(api[hi]).value] else before
  }

  /** Whether the number `i` yields a record. */
  predicate FetchSucceeds(api: map<int, PokemonResponse>, i: int)
  {
    i in api && RecordOf(api[i]).Some?
  }

  /**
   * At most one record per number is fetched, one for each when every
   * response arrives well-formed, and every fetched record is the record of
   * a response for a number in range, without species details.
   */
  lemma {:induction false} FetchedBounds(api: map<int, PokemonResponse>, lo: int, hi: int)
    requires lo <= hi + 1
    ensures |Fetched(api, lo, hi)| <= hi - lo + 1
    ensures (forall i :: lo <= i <= hi ==> FetchSucceeds(api, i)) ==> |Fetched(api, lo, hi)| == hi - lo + 1
    ensures forall r :: r in Fetched(api, lo, hi) ==>
              r.enrichment.None? && exists i :: lo <= i <= hi && FetchSucceeds(api, i) && RecordOf(api[i]) == Some(r)
    decreases hi - lo
  {
    if lo <= hi {
      FetchedBounds(api, lo, hi - 1);
      if forall i :: lo <= i <= hi ==> FetchSucceeds(api, i) {
        assert forall i :: lo <= i <= hi - 1 ==> FetchSucceeds(api, i);
        assert FetchSucceeds(api, hi);
      }
    }
  }

  /** The species details for one response: first English texts and the generation. */
  function EnrichmentOf(s: SpeciesResponse): Enrichment
  {
    Enrichment(FlavorText(s.flavorTextEntries), Category(s.genera), Generation(s.generationName))
  }

  /**
   * One record after the species pass: the details are added when the
   * species response for its number arrived, and the record is otherwise
   * untouched.
   */
  function Enriched(r: PokemonRecord, species: map<int, SpeciesResponse>): (e: PokemonRecord)
    ensures e.(enrichment := r.enrichment) == r
    ensures r.number in species ==> e.enrichment == Some(EnrichmentOf(species[r.number]))
    ensures r.number !in species ==> e == r
  {
    if r.number in species then r.(enrichment := Some(EnrichmentOf(species[r.number]))) else r
  }

  /** Every record after the species pass, in the same order. */
  function WithSpecies(records: seq<PokemonRecord>, species: map<int, SpeciesResponse>): (rs: seq<PokemonRecord>)
    ensures |rs| == |records|
    ensures forall k :: 0 <= k < |rs| ==> rs[k] == Enriched(records[k], species)
  {
    seq(|records|, k requires 0 <= k < |records| => Enriched(records[k], species))
  }

  /** A record whose species response arrived carries exactly the details derived from it. */
  lemma EnrichedDetails(r: PokemonRecord, species: map<int, SpeciesResponse>)
    requires r.number in species
    ensures var e := Enriched(r, species).enrichment.value;
            && e.flavorText == FlavorText(species[r.number].flavorTextEntries)
            && e.category == FirstEnglish(species[r.number].genera)
            && e.generation == Upper(LastSegment(species[r.number].generationName))
            && '\n' !in e.flavorText && FormFeed !in e.flavorText && '\r' !in e.flavorText
            && '-' !in e.generation
  {
    FlavorTextIsCleanedFirstEnglish(species[r.number].flavorTextEntries);
    GenerationIsLastSegment(species[r.number].generationName);
  }

  // -------------------------------------------------------------- database

  /** The kinds of property the database declares. */
  datatype PropertyType = Title | RichText | Number | MultiSelect | Select | Files

  /** One property of the database: its name and its kind. */
  datatype SchemaEntry = SchemaEntry(name: string, kind: PropertyType)

  /** The fourteen properties of the Pokémon database, in declaration order. */
  function DatabaseSchema(): (s: seq<SchemaEntry>)
    ensures |s| == 14
  {
    [ SchemaEntry("Name", Title),
      SchemaEntry("Category", RichText),
      SchemaEntry("No", Number),
      SchemaEntry("Type", MultiSelect),
      SchemaEntry("Generation", Select),
      SchemaEntry("Sprite", Files),
      SchemaEntry("Height", Number),
      SchemaEntry("Weight", Number),
      SchemaEntry("HP", Number),
      SchemaEntry("Attack", Number),
      SchemaEntry("Defense", Number),
      SchemaEntry("Sp. Attack", Number),
      SchemaEntry("Sp. Defense", Number),
      SchemaEntry("Speed", Number) ]
  }

  /** The names of a list of properties, in order. */
  function SchemaNames(s: seq<SchemaEntry>): (names: seq<string>)
    ensures |names| == |s| && forall i :: 0 <= i < |s| ==> names[i] == s[i].name
  {
    seq(|s|, i requires 0 <= i < |s| => s[i].name)
  }

  /** No two properties share a name. */
  predicate DistinctNames(names: seq<string>)
  {
    forall i, j :: 0 <= i < j < |names| ==> names[i] != names[j]
  }

  /** The schema declares each property name once. */
  lemma SchemaNamesDistinct()
    ensures DistinctNames(SchemaNames(DatabaseSchema()))
  {
    var n := SchemaNames(DatabaseSchema());
    assert n == ["Name", "Category", "No", "Type", "Generation", "Sprite", "Height", "Weight",
                 "HP", "Attack", "Defense", "Sp. Attack", "Sp. Defense", "Speed"];
  }

  /** The title a new database gets when the caller gives none. */
  const DefaultTitle := "Pok\U{00E9}mon Table"

  /** The database-creation request: under a page, with a title and the schema. */
  datatype DatabaseRequest = DatabaseRequest(parentPageId: string, title: string, properties: seq<SchemaEntry>)

  /** `create_pokemon_database`: the request under `parentPageId`, titled `title`. */
  function CreatePokemonDatabase(parentPageId: string, title: string): (q: DatabaseRequest)
    ensures q.parentPageId == parentPageId && q.title == title
    ensures q.properties == DatabaseSchema() && DistinctNames(SchemaNames(q.properties))
  {
    SchemaNamesDistinct();
    DatabaseRequest(parentPageId, title, DatabaseSchema())
  }

  // ------------------------------------------------------------------ page

  /** An external file, as the `Sprite` property holds it. */
  datatype ExternalFile = ExternalFile(name: string, url: Option<string>)

  /** The value given to one property of a page. */
  datatype PropertyValue =
    | TitleValue(text: string)
    | RichTextValue(text: string)
    | NumberValue(number: int)
    | MultiSelectValue(options: seq<SelectOption>)
    | SelectValue(option: string)
    | FilesValue(files: seq<ExternalFile>)

  /** The kind of property a value fits. */
  function KindOf(v: PropertyValue): PropertyType
  {
    match v
    case TitleValue(_) => Title
    case RichTextValue(_) => RichText
    case NumberValue(_) => Number
    case MultiSelectValue(_) => MultiSelect
    case SelectValue(_) => Select
    case FilesValue(_) => Files
  }

  datatype Property = Property(name: string, value: PropertyValue)

  /** A block of the page body. */
  datatype Block = Quote(text: string) | Paragraph(text: string) | Bookmark(url: string)

  /** The page-creation request. */
  datatype PagePayload = PagePayload(
    databaseId: string,
    icon: Option<string>,
    cover: Option<string>,
    properties: seq<Property>,
    children: seq<Block>)

  /** The name the sprite file is given on every page. */
  const SpriteFileName := "Pokemon Sprite"

  /** The paragraph that introduces the link. */
  const BulbapediaCaption := "View This Pok\U{00E9}mon's Entry on Bulbapedia:"

  /** The page for a record whose species details are `e`. */
  function PageFor(r: PokemonRecord, e: Enrichment, databaseId: string): PagePayload
  {
    PagePayload(
      databaseId, r.sprite, r.artwork,
      [ Property("Name", TitleValue(r.name)),
        Property("Category", RichTextValue(e.category)),
        Property("No", NumberValue(r.number)),
        Property("Type", MultiSelectValue(r.types)),
        Property("Generation", SelectValue(e.generation)),
        Property("Sprite", FilesValue([ExternalFile(SpriteFileName, r.sprite)])),
        Property("Height", NumberValue(r.height)),
        Property("Weight", NumberValue(r.weight)),
        Property("HP", NumberValue(r.hp)),
        Property("Attack", NumberValue(r.attack)),
        Property("Defense", NumberValue(r.defense)),
        Property("Sp. Attack", NumberValue(r.specialAttack)),
        Property("Sp. Defense", NumberValue(r.specialDefense)),
        Property("Speed", NumberValue(r.speed)) ],
      [ Quote(e.flavorText),
        Paragraph(""),
        Paragraph(BulbapediaCaption),
        Bookmark(r.bulbUrl) ])
  }

  /**
   * The page request for one record. It needs `category`, `generation` and
   * `flavor-text`, which only the species pass adds, so a record the pass
   * did not reach has none (`None`): reading those keys raises `KeyError`
   * while the request is being built, before the `try` around the send.
   */
  function PageOf(r: PokemonRecord, databaseId: string): (p: Option<PagePayload>)
    ensures p.Some? <==> r.enrichment.Some?
    ensures p.Some? ==> p.value.databaseId == databaseId && p.value.icon == r.sprite && p.value.cover == r.artwork
  {
    match r.enrichment
    case None => None
    case Some(e) => Some(PageFor(r, e, databaseId))
  }

  /** The value of the property called `name`, if the list has one. */
  function Lookup(props: seq<Property>, name: string): Option<PropertyValue>
  {
    if props == [] then None
    else if props[0].name == name then Some(props[0].value)
    else Lookup(props[1..], name)
  }

  /**
   * A page declares exactly the schema's property names, in its order and
   * each with the schema's kind; its body is the quote of the flavour text,
   * an empty paragraph, the caption and the bookmark of the record's link;
   * its icon and sprite file are the sprite and its cover the artwork.
   */
  lemma {:induction false} PageMatchesSchema(r: PokemonRecord, e: Enrichment, databaseId: string)
    ensures var p := PageFor(r, e, databaseId);
            && |p.properties| == |DatabaseSchema()|
            && (forall i :: 0 <= i < |p.properties| ==>
                  p.properties[i].name == DatabaseSchema()[i].name
                  && KindOf(p.properties[i].value) == DatabaseSchema()[i].kind)
            && p.children == [Quote(e.flavorText), Paragraph(""), Paragraph(BulbapediaCaption), Bookmark(r.bulbUrl)]
            && p.databaseId == databaseId && p.icon == r.sprite && p.cover == r.artwork
  {
    var p := PageFor(r, e, databaseId);
    var s := DatabaseSchema();
    forall i | 0 <= i < |p.properties|
      ensures p.properties[i].name == s[i].name && KindOf(p.properties[i].value) == s[i].kind
    {
    }
  }

  /** In a list of distinct names, the lookup of the name at `i` finds the value at `i`. */
  lemma {:induction false} LookupAt(props: seq<Property>, i: nat)
    requires i < |props|
    requires forall j, k :: 0 <= j < k < |props| ==> props[j].name != props[k].name
    ensures Lookup(props, props[i].name) == Some(props[i].value)
  {
    if i > 0 {
      assert props[0].name != props[i].name;
      assert props[1..][i - 1] == props[i];
      LookupAt(props[1..], i - 1);
    }
  }

  /** Each property of a page carries the record field its name promises. */
  lemma PagePropertyValues(r: PokemonRecord, e: Enrichment, databaseId: string)
    ensures var props := PageFor(r, e, databaseId).properties;
            && Lookup(props, "Name") == Some(TitleValue(r.name))
            && Lookup(props, "Category") == Some(RichTextValue(e.category))
            && Lookup(props, "No") == Some(NumberValue(r.number))
            && Lookup(props, "Type") == Some(MultiSelectValue(r.types))
            && Lookup(props, "Generation") == Some(SelectValue(e.generation))
            && Lookup(props, "Sprite") == Some(FilesValue([ExternalFile(SpriteFileName, r.sprite)]))
            && Lookup(props, "Height") == Some(NumberValue(r.height))
            && Lookup(props, "Weight") == Some(NumberValue(r.weight))
            && Lookup(props, "HP") == Some(NumberValue(r.hp))
            && Lookup(props, "Attack") == Some(NumberValue(r.attack))
            && Lookup(props, "Defense") == Some(NumberValue(r.defense))
            && Lookup(props, "Sp. Attack") == Some(NumberValue(r.specialAttack))
            && Lookup(props, "Sp. Defense") == Some(NumberValue(r.specialDefense))
            && Lookup(props, "Speed") == Some(NumberValue(r.speed))
  {
    var props := PageFor(r, e, databaseId).properties;
    PageMatchesSchema(r, e, databaseId);
    SchemaNamesDistinct();
    var names := SchemaNames(DatabaseSchema());
    forall j, k | 0 <= j < k < |props| ensures props[j].name != props[k].name {
      assert props[j].name == names[j] && props[k].name == names[k];
    }
    LookupAt(props, 0); LookupAt(props, 1); LookupAt(props, 2); LookupAt(props, 3); LookupAt(props, 4);
    LookupAt(props, 5); LookupAt(props, 6); LookupAt(props, 7); LookupAt(props, 8); LookupAt(props, 9);
    LookupAt(props, 10); LookupAt(props, 11); LookupAt(props, 12); LookupAt(props, 13);
  }

  // ----------------------------------------------------------- all pages

  /**
   * The pages the loop of `create_notion_page` sends, as written: the first
   * record without species details raises outside the `try` and ends the
   * loop, so neither it nor any later record gets a page.
   */
  function PagesAsWritten(records: seq<PokemonRecord>, databaseId: string): (pages: seq<PagePayload>)
    ensures |pages| <= |records|
  {
    if records == [] then []
    else
      match PageOf(records[0], databaseId)
      case None => []
      case Some(page) => [page] + PagesAsWritten(records[1..], databaseId)
  }

  /** The pages sent once a record without details is skipped instead: one per enriched record, in order. */
  function Pages(records: seq<PokemonRecord>, databaseId: string): (pages: seq<PagePayload>)
    ensures |pages| <= |records|
  {
    if records == [] then []
    else
      var before := Pages(records[..|records| - 1], databaseId);
      match PageOf(records[|records| - 1], databaseId)
      case None => before
      case Some(page) => before + [page]
  }

  /** Whether the species pass reached every record. */
  predicate AllEnriched(records: seq<PokemonRecord>)
  {
    forall k :: 0 <= k < |records| ==> records[k].enrichment.Some?
  }

  /**
   * Where the page loop as written stops: the position of the first record
   * the species pass did not reach, or the number of records when it
   * reached them all.
   */
  function FirstUnenriched(records: seq<PokemonRecord>): (k: nat)
    ensures k <= |records| && AllEnriched(records[..k])
    ensures k < |records| ==> records[k].enrichment.None?
    ensures k == |records| <==> AllEnriched(records)
  {
    if records == [] then 0
    else if records[0].enrichment.None? then 0
    else
      var k := 1 + FirstUnenriched(records[1..]);
      assert forall j :: 0 < j < k ==> records[..k][j] == records[1..][..k - 1][j - 1];
      assert k < |records| ==> records[k] == records[1..][k - 1];
      k
  }

  /** The pages of two runs of records are the pages of each, in order. */
  lemma {:induction false} PagesAppend(a: seq<PokemonRecord>, b: seq<PokemonRecord>, databaseId: string)
    ensures Pages(a + b, databaseId) == Pages(a, databaseId) + Pages(b, databaseId)
    decreases |b|
  {
    if b == [] {
      assert a + b == a;
    } else {
      var ab := a + b;
      assert ab[..|ab| - 1] == a + b[..|b| - 1];
      assert ab[|ab| - 1] == b[|b| - 1];
      PagesAppend(a, b[..|b| - 1], databaseId);
    }
  }

  /** A single record has a page exactly when it is enriched. */
  lemma PagesOne(r: PokemonRecord, databaseId: string)
    ensures Pages([r], databaseId) == if r.enrichment.Some? then [PageFor(r, r.enrichment.value, databaseId)] else []
  {
    assert [r][..0] == [];
  }

  /**
   * When every record is enriched there is one page per record, in order,
   * each the page of that record with its own details.
   */
  lemma {:induction false} PagesAllEnriched(records: seq<PokemonRecord>, databaseId: string)
    requires AllEnriched(records)
    ensures |Pages(records, databaseId)| == |records|
    ensures forall k :: 0 <= k < |records| ==>
              Pages(records, databaseId)[k] == PageFor(records[k], records[k].enrichment.value, databaseId)
  {
    if records != [] {
      var init := records[..|records| - 1];
      assert AllEnriched(init) by {
        forall k | 0 <= k < |init| ensures init[k].enrichment.Some? { assert init[k] == records[k]; }
      }
      PagesAllEnriched(init, databaseId);
    }
  }

  /**
   * As written, the loop sends the pages of the enriched records before the
   * first record without details and nothing after it; when every record is
   * enriched it sends the same pages as the corrected loop.
   */
  lemma {:induction false} PagesAsWrittenIsEnrichedPrefix(records: seq<PokemonRecord>, databaseId: string, k: nat)
    requires k <= |records| && AllEnriched(records[..k])
    requires k < |records| ==> records[k].enrichment.None?
    ensures PagesAsWritten(records, databaseId) == Pages(records[..k], databaseId)
    ensures |PagesAsWritten(records, databaseId)| == k
  {
    PagesAllEnriched(records[..k], databaseId);
    if k == 0 {
      assert records[..k] == [];
    } else {
      var rest := records[1..];
      var pre := rest[..k - 1];
      assert AllEnriched(pre) by {
        forall j | 0 <= j < k - 1 ensures pre[j].enrichment.Some? {
          assert pre[j] == records[..k][j + 1];
        }
      }
      assert k - 1 < |rest| ==> rest[k - 1] == records[k];
      PagesAsWrittenIsEnrichedPrefix(rest, databaseId, k - 1);
      assert records[..k][0] == records[0];
      assert records[..k] == [records[0]] + rest[..k - 1];
      PagesAppend([records[0]], rest[..k - 1], databaseId);
      PagesOne(records[0], databaseId);
    }
  }

  /** With every record enriched the written loop and the corrected one send the same pages. */
  lemma PagesAsWrittenWhenEnriched(records: seq<PokemonRecord>, databaseId: string)
    requires AllEnriched(records)
    ensures PagesAsWritten(records, databaseId) == Pages(records, databaseId)
  {
    PagesAsWrittenIsEnrichedPrefix(records, databaseId, |records|);
    assert records[..|records|] == records;
  }

  /**
   * A record whose species request failed, followed by an enriched one: as
   * written no page is sent at all, while the enriched record should get
   * its page.
   */
  lemma UnenrichedRecordStopsPages(r0: PokemonRecord, r1: PokemonRecord, databaseId: string)
    requires r0.enrichment.None? && r1.enrichment.Some?
    ensures PagesAsWritten([r0, r1], databaseId) == []
    ensures Pages([r0, r1], databaseId) == [PageFor(r1, r1.enrichment.value, databaseId)]
  {
    PagesAppend([r0], [r1], databaseId);
    PagesOne(r0, databaseId);
    PagesOne(r1, databaseId);
    assert [r0, r1] == [r0] + [r1];
  }

  /**
   * Every page links to the Bulbapedia page of the name it shows, as long
   * as each record's link was built from its name (as every fetched record's is).
   */
  lemma {:induction false} PagesLinkToTheirNames(records: seq<PokemonRecord>, databaseId: string)
    requires forall k :: 0 <= k < |records| ==> records[k].bulbUrl == BulbapediaUrl(records[k].name)
    ensures forall page :: page in Pages(records, databaseId) ==>
              exists name :: Lookup(page.properties, "Name") == Some(TitleValue(name))
                             && |page.children| == 4 && page.children[3] == Bookmark(BulbapediaUrl(name))
  {
    if records != [] {
      var init := records[..|records| - 1];
      var r := records[|records| - 1];
      PagesLinkToTheirNames(init, databaseId);
      if r.enrichment.Some? {
        PagePropertyValues(r, r.enrichment.value, databaseId);
      }
    }
  }
}
