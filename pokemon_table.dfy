/**
 * The script's state and its passes: the list `db_pokemon` that
 * `get_pokemon` fills and then enriches in place, and the loop of
 * `create_notion_page` that turns each element into a page request.
 */
module NotionPokemon {
  import opened Wrappers
  import opened PokemonFields
  import opened PokemonPages

  /** The first and last creature numbers fetched. */
  const Start := 1
  const End := 10

  /** `db_pokemon`, the list of records the passes share. */
  class PokemonTable {
    var records: seq<PokemonRecord>

    constructor()
      ensures records == []
    {
      records := [];
    }

    /**
     * The first pass of `get_pokemon`: for each number from `Start` to `End`
     * in turn, append the record of its response, skipping a number whose
     * request or record raised.
     */
    method FetchPokemon(api: map<int, PokemonResponse>)
      modifies this
      ensures records == old(records) + Fetched(api, Start, End)
    {
      var i := Start;
      while i <= End
        invariant Start <= i <= End + 1
        invariant records == old(records) + Fetched(api, Start, i - 1)
      {
        FetchedNext(api, Start, i, old(records));
        if i in api {
          var r := RecordOf(api[i]);
          if r.Some? {
            records := records + [r.value];
          }
        }
        i := i + 1;
      }
    }

    /**
     * The second pass of `get_pokemon`: each stored record, in place, gets
     * the details of the species response for its number when that arrived.
     */
    method AddSpeciesInfo(species: map<int, SpeciesResponse>)
      modifies this
      ensures records == WithSpecies(old(records), species)
    {
      var k := 0;
      while k < |records|
        invariant 0 <= k <= |records| == |old(records)|
        invariant forall j :: 0 <= j < k ==> records[j] == Enriched(old(records)[j], species)
        invariant forall j :: k <= j < |records| ==> records[j] == old(records)[j]
      {
        var r := records[k];
        if r.number in species {
          records := records[k := r.(enrichment := Some(EnrichmentOf(species[r.number])))];
        }
        k := k + 1;
      }
    }

    /** `get_pokemon`: both passes, the second over every stored record. */
    method GetPokemon(api: map<int, PokemonResponse>, species: map<int, SpeciesResponse>)
      modifies this
      ensures records == WithSpecies(old(records) + Fetched(api, Start, End), species)
    {
      FetchPokemon(api);
      AddSpeciesInfo(species);
    }

    /**
     * The loop of `create_notion_page` as written: the request of each
     * record in order, until the first record the species pass did not
     * reach, whose request raises `KeyError` while it is built (`raised`);
     * the requests sent before it stay sent and nothing after it is sent.
     */
    method CreateNotionPages(databaseId: string) returns (pages: seq<PagePayload>, raised: bool)
      ensures pages == PagesAsWritten(records, databaseId)
      ensures raised <==> !AllEnriched(records)
    {
      pages := [];
      var k := 0;
      while k < |records|
        invariant 0 <= k <= |records| && AllEnriched(records[..k])
        invariant pages == Pages(records[..k], databaseId)
      {
        var page := PageOf(records[k], databaseId);
        if page.None? {
          PagesAsWrittenIsEnrichedPrefix(records, databaseId, k);
          return pages, true;
        }
        assert records[..k + 1][..k] == records[..k];
        assert forall j :: 0 <= j < k ==> records[..k + 1][j] == records[..k][j];
        pages := pages + [page.value];
        k := k + 1;
      }
      assert records[..k] == records;
      PagesAsWrittenIsEnrichedPrefix(records, databaseId, k);
      raised := false;
    }

    /**
     * The loop with the request built inside the `try`: a record without
     * species details is reported and skipped like a failed send, and every
     * later record still gets its request.
     */
    method CreateNotionPagesSkipping(databaseId: string) returns (pages: seq<PagePayload>)
      ensures pages == Pages(records, databaseId)
    {
      pages := [];
      var k := 0;
      while k < |records|
        invariant 0 <= k <= |records|
        invariant pages == Pages(records[..k], databaseId)
      {
        assert records[..k + 1][..k] == records[..k];
        var page := PageOf(records[k], databaseId);
        if page.Some? {
          pages := pages + [page.value];
        }
        k := k + 1;
      }
      assert records[..k] == records;
    }
  }

  /** The records up to `hi` are those up to `hi - 1`, then the record of `hi` if it has one. */
  lemma FetchedNext(api: map<int, PokemonResponse>, lo: int, hi: int, prefix: seq<PokemonRecord>)
    requires lo <= hi
    ensures prefix + Fetched(api, lo, hi)
            == prefix + Fetched(api, lo, hi - 1) + (if FetchSucceeds(api, hi) then [RecordOf(api[hi]).value] else [])
  {
  }

  /**
   * The fetched records each link to the Bulbapedia page of their name, and
   * the species pass keeps that.
   */
  lemma {:induction false} FetchedLinks(api: map<int, PokemonResponse>, lo: int, hi: int)
    ensures forall k :: 0 <= k < |Fetched(api, lo, hi)| ==>
              Fetched(api, lo, hi)[k].bulbUrl == BulbapediaUrl(Fetched(api, lo, hi)[k].name)
    decreases hi - lo
  {
    if lo <= hi {
      FetchedLinks(api, lo, hi - 1);
      if FetchSucceeds(api, hi) {
        RecordOfFields(api[hi]);
      }
    }
  }

  /**
   * Whether the species pass reaches every fetched record: exactly when a
   * species response arrived for the number of each.
   */
  lemma FetchedAllEnriched(api: map<int, PokemonResponse>, species: map<int, SpeciesResponse>, lo: int, hi: int)
    requires lo <= hi + 1
    ensures AllEnriched(WithSpecies(Fetched(api, lo, hi), species))
            <==> forall r :: r in Fetched(api, lo, hi) ==> r.number in species
  {
    var fetched := Fetched(api, lo, hi);
    var records := WithSpecies(fetched, species);
    FetchedBounds(api, lo, hi);
    if AllEnriched(records) {
      forall r | r in fetched ensures r.number in species {
        var k :| 0 <= k < |fetched| && fetched[k] == r;
        assert records[k].enrichment.Some?;
      }
    }
  }

  /**
   * The script: fill a fresh table, request the database under
   * `parentPageId` with the default title, and send the pages into the
   * database Notion created, whose id is `newDatabaseId`.  The run raises
   * (and sends nothing more) exactly when some fetched number has no species
   * response; otherwise every fetched record gets its page.  Every page sent
   * links to the Bulbapedia page of the name it shows, and at most one page
   * is sent per creature number.
   */
  method RunScript(api: map<int, PokemonResponse>, species: map<int, SpeciesResponse>,
                   parentPageId: string, newDatabaseId: string)
    returns (database: DatabaseRequest, pages: seq<PagePayload>, raised: bool)
    ensures database == CreatePokemonDatabase(parentPageId, DefaultTitle)
    ensures pages == PagesAsWritten(WithSpecies(Fetched(api, Start, End), species), newDatabaseId)
    ensures raised <==> exists r :: r in Fetched(api, Start, End) && r.number !in species
    ensures !raised ==> |pages| == |Fetched(api, Start, End)|
    ensures |pages| <= End - Start + 1
    ensures forall page :: page in pages ==>
              page.databaseId == newDatabaseId
              && exists name :: Lookup(page.properties, "Name") == Some(TitleValue(name))
                                && |page.children| == 4 && page.children[3] == Bookmark(BulbapediaUrl(name))
  {
    var table := new PokemonTable();
    table.GetPokemon(api, species);
    assert [] + Fetched(api, Start, End) == Fetched(api, Start, End);
    database := CreatePokemonDatabase(parentPageId, DefaultTitle);
    pages, raised := table.CreateNotionPages(newDatabaseId);
    FetchedAllEnriched(api, species, Start, End);
    PagesOfFetched(api, species, Start, End, newDatabaseId);
  }

  /** What `RunScript` promises about its pages, for any range of numbers. */
  lemma PagesOfFetched(api: map<int, PokemonResponse>, species: map<int, SpeciesResponse>,
                       lo: int, hi: int, databaseId: string)
    requires lo <= hi + 1
    ensures var records := WithSpecies(Fetched(api, lo, hi), species);
            var pages := PagesAsWritten(records, databaseId);
            && |pages| <= hi - lo + 1
            && (AllEnriched(records) ==> |pages| == |records|)
            && forall page :: page in pages ==>
                 page.databaseId == databaseId
                 && exists name :: Lookup(page.properties, "Name") == Some(TitleValue(name))
                                   && |page.children| == 4 && page.children[3] == Bookmark(BulbapediaUrl(name))
  {
    var records := WithSpecies(Fetched(api, lo, hi), species);
    FetchedBounds(api, lo, hi);
    FetchedLinks(api, lo, hi);
    if AllEnriched(records) {
      assert records[..|records|] == records;
      PagesAsWrittenIsEnrichedPrefix(records, databaseId, |records|);
    }
    PagesAsWrittenLinks(records, databaseId);
  }

  /**
   * The pages sent as written, like the corrected ones, go into the given
   * database and link to the names they show.
   */
  lemma PagesAsWrittenLinks(records: seq<PokemonRecord>, databaseId: string)
    requires forall k :: 0 <= k < |records| ==> records[k].bulbUrl == BulbapediaUrl(records[k].name)
    ensures forall page :: page in PagesAsWritten(records, databaseId) ==>
              page.databaseId == databaseId
              && exists name :: Lookup(page.properties, "Name") == Some(TitleValue(name))
                                && |page.children| == 4 && page.children[3] == Bookmark(BulbapediaUrl(name))
  {
    var k := FirstUnenriched(records);
    var sent := records[..k];
    PagesAsWrittenIsEnrichedPrefix(records, databaseId, k);
    assert forall j :: 0 <= j < |sent| ==> sent[j] == records[j];
    PagesLinkToTheirNames(sent, databaseId);
    PagesToDatabase(sent, databaseId);
  }

  /** Every page is sent into the database it was built for. */
  lemma {:induction false} PagesToDatabase(records: seq<PokemonRecord>, databaseId: string)
    ensures forall page :: page in Pages(records, databaseId) ==> page.databaseId == databaseId
  {
    if records != [] {
      PagesToDatabase(records[..|records| - 1], databaseId);
    }
  }
}
