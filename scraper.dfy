/**
 * The scraper service: `refreshEpisodesIfStale` re-reads a show's upstream
 * dataset and rewrites its episodes only when their fingerprint changed, and
 * `ensureAnimeCached` finds or creates the anime for a title and optionally
 * refreshes it. The upstream fetch and the digest are parameters.
 */
module Scraper {
  import opened Wrappers
  import opened Slug
  import opened Models
  import opened Fingerprint
  import opened Extractor
  import opened EntityStore

  /** `fetchFillerJSON`: the dataset for a slug, or None when the request fails. */
  type Fetcher = string -> Option<RawData>

  datatype RefreshResult = RefreshResult(changed: bool, count: int)

  /** The store after a refresh, the anime document as the caller then holds it, and the result. */
  datatype Refreshed = Refreshed(db: Db, doc: Anime, result: RefreshResult)

  /** `latest?.sourceHash || ''`: the fingerprint of the anime's most recently updated episode, '' when it has none. */
  function LastHash(db: Db, a: AnimeId): (r: string)
    requires Valid(db)
    ensures KeysOf(db, a) == {} ==> r == []
    ensures KeysOf(db, a) != {} ==>
      exists k :: && k in KeysOf(db, a) && db.episodes[k].sourceHash == r
                  && forall k' :: k' in KeysOf(db, a) ==> db.episodes[k'].updatedAt <= db.episodes[k].updatedAt
  {
    match Latest(db, a)
    case None => []
    case Some(e) => e.sourceHash
  }

  /** What `refreshEpisodesIfStale(anime)` does, given the fetch, the digest and the time. */
  function Refresh(db: Db, anime: Anime, fetch: Fetcher, hasher: Hasher, now: Time): Refreshed
    requires Valid(db)
  {
    match fetch(anime.slug)
    case None => Refreshed(db, anime, RefreshResult(false, anime.episodeCount))
    case Some(data) =>
      var eps := Extracted(data);
      var newHash := hasher(ScraperJson(eps));
      if newHash == LastHash(db, anime.id) && anime.lastScrapedAt.Some? then
        Refreshed(db, anime, RefreshResult(false, |eps|))
      else
        var doc := anime.(episodeCount := |eps|, lastScrapedAt := Some(now));
        Refreshed(SaveAnimeT(UpsertAllT(db, anime.id, eps, newHash), doc), doc, RefreshResult(true, |eps|))
  }

  /** `refreshEpisodesIfStale`; `anime` is updated in place in the source, so the new document is returned. */
  method RefreshEpisodesIfStale(db: Store, anime: Anime, fetch: Fetcher, hasher: Hasher, now: Time)
    returns (result: RefreshResult, doc: Anime)
    requires Valid(db.State())
    modifies db
    ensures Refreshed(db.State(), doc, result) == Refresh(old(db.State()), anime, fetch, hasher, now)
  {
    var data := fetch(anime.slug);
    if data.None? {
      return RefreshResult(false, anime.episodeCount), anime;
    }
    var episodes := ExtractEpisodesFromData(data.value);
    var newHash := hasher(ScraperJson(episodes));
    var latest := Latest(db.State(), anime.id);
    var lastHash := if latest.Some? then latest.value.sourceHash else [];
    if newHash == lastHash && anime.lastScrapedAt.Some? {
      return RefreshResult(false, |episodes|), anime;
    }
    db.UpsertAll(anime.id, episodes, newHash);
    doc := anime.(episodeCount := |episodes|, lastScrapedAt := Some(now));
    db.SaveAnime(doc);
    result := RefreshResult(true, |episodes|);
  }

  /** The fields `ensureAnimeCached` creates a missing anime with. */
  function CachedFields(title: string): AnimeFields {
    var slug := Slugify(title);
    AnimeFields(title, slug, Some(ShowsPageUrl(slug)), None, Some(0))
  }

  /** What `ensureAnimeCached(title, prefetch)` does. */
  function EnsureCached(db: Db, title: string, prefetch: bool, fetch: Fetcher, hasher: Hasher, now: Time)
    : (Db, Result<Anime, StoreError>)
    requires Valid(db)
  {
    FindOrCreateSpec(db, CachedFields(title));
    var (db1, found) := FindOrCreate(db, CachedFields(title));
    if found.Err? || !prefetch then (db1, found)
    else
      var r := Refresh(db1, found.value, fetch, hasher, now);
      (r.db, Ok(r.doc))
  }

  /** `ensureAnimeCached`; a failed create is returned as an error rather than thrown. */
  method EnsureAnimeCached(db: Store, title: string, prefetch: bool, fetch: Fetcher, hasher: Hasher, now: Time)
    returns (r: Result<Anime, StoreError>)
    requires Valid(db.State())
    modifies db
    ensures (db.State(), r) == EnsureCached(old(db.State()), title, prefetch, fetch, hasher, now)
  {
    var f := CachedFields(title);
    ghost var found := FindOrCreate(db.State(), f);
    if f.slug in db.animes {
      r := Ok(db.animes[f.slug]);
    } else {
      CreateFromTitle(db.State(), f);
      r := db.CreateAnime(f);
      if r.Err? {
        return;
      }
    }
    assert (db.State(), r) == found;
    if prefetch {
      var _, doc := RefreshEpisodesIfStale(db, r.value, fetch, hasher, now);
      r := Ok(doc);
    }
  }

  // ---------------------------------------------------------------------------
  // Properties of a refresh

  /** The keys numbered 1..n of anime `a`. */
  function RangeKeys(a: AnimeId, n: nat): set<EpKey> {
    set j | 1 <= j <= n :: (a, j)
  }

  lemma {:induction false} RangeKeysCard(a: AnimeId, n: nat)
    ensures |RangeKeys(a, n)| == n
  {
    if n == 0 {
      assert RangeKeys(a, n) == {};
    } else {
      RangeKeysCard(a, n - 1);
      assert RangeKeys(a, n) == RangeKeys(a, n - 1) + {(a, n)};
    }
  }

  /** The episodes are numbered 1..n in order, as an extraction numbers them. */
  ghost predicate Numbered(eps: seq<EpisodeData>) {
    forall i :: 0 <= i < |eps| ==> eps[i].number == i + 1
  }

  /** A list numbered 1..n names exactly the keys 1..n, and every entry is the last with its number. */
  lemma NumberedKeys(a: AnimeId, eps: seq<EpisodeData>)
    requires Numbered(eps)
    ensures BatchKeys(a, eps) == RangeKeys(a, |eps|)
    ensures forall i :: 0 <= i < |eps| ==> LastWith(eps, i)
  {
    forall k | k in RangeKeys(a, |eps|) ensures k in BatchKeys(a, eps) {
      assert k == (a, eps[k.1 - 1].number);
    }
  }

  /**
   * A refresh writes nothing exactly when upstream has no data for the slug, or
   * the fingerprint of the extraction equals that of the last-written episode
   * and the anime was scraped before; `count` is the stored count when upstream
   * has nothing and the extraction's length otherwise.
   */
  lemma RefreshSkips(db: Db, anime: Anime, fetch: Fetcher, hasher: Hasher, now: Time)
    requires Valid(db)
    ensures var r := Refresh(db, anime, fetch, hasher, now);
      var data := fetch(anime.slug);
      && (!r.result.changed <==>
            data.None? || (hasher(ScraperJson(Extracted(data.value))) == LastHash(db, anime.id) && anime.lastScrapedAt.Some?))
      && (!r.result.changed ==> r.db == db && r.doc == anime)
      && r.result.count == (if data.None? then anime.episodeCount else |Extracted(data.value)|)
  {
  }

  /** An anime never scraped, or with no stored episodes, is always written when upstream has data. */
  lemma RefreshFirstTimeWrites(db: Db, anime: Anime, fetch: Fetcher, hasher: Hasher, now: Time)
    requires Valid(db) && fetch(anime.slug).Some?
    requires anime.lastScrapedAt.None? || KeysOf(db, anime.id) == {}
    ensures Refresh(db, anime, fetch, hasher, now).result.changed
  {
  }

  /**
   * A refresh that writes: every extracted episode i + 1 is stored with its
   * title and type and the new fingerprint, no other row changes, every row
   * keeps its `_id`, the key set grows by 1..n only, and the anime document
   * gets the new count and scrape time.
   */
  lemma RefreshWrites(db: Db, anime: Anime, fetch: Fetcher, hasher: Hasher, now: Time)
    requires Valid(db) && Stored(db, anime)
    requires Refresh(db, anime, fetch, hasher, now).result.changed
    ensures Refresh(db, anime, fetch, hasher, now).result == RefreshResult(true, |Extracted(fetch(anime.slug).value)|)
    ensures Refresh(db, anime, fetch, hasher, now).doc == anime.(episodeCount := |Extracted(fetch(anime.slug).value)|, lastScrapedAt := Some(now))
    ensures Refresh(db, anime, fetch, hasher, now).db.animes == db.animes[anime.slug := Refresh(db, anime, fetch, hasher, now).doc]
    ensures KeysOf(Refresh(db, anime, fetch, hasher, now).db, anime.id) == KeysOf(db, anime.id) + RangeKeys(anime.id, |Extracted(fetch(anime.slug).value)|)
    ensures Written(Refresh(db, anime, fetch, hasher, now).db.episodes, anime.id, Extracted(fetch(anime.slug).value), hasher(ScraperJson(Extracted(fetch(anime.slug).value))))
    ensures KeptOutside(db.episodes, Refresh(db, anime, fetch, hasher, now).db.episodes, RangeKeys(anime.id, |Extracted(fetch(anime.slug).value)|))
    ensures IdsKept(db.episodes, Refresh(db, anime, fetch, hasher, now).db.episodes)
  {
    RefreshAnimes(db, anime, fetch, hasher, now);
    var eps := Extracted(fetch(anime.slug).value);
    var newHash := hasher(ScraperJson(eps));
    assert Numbered(eps) by {
      ExtractedShape(fetch(anime.slug).value);
    }
    UpsertNumbered(db, anime.id, eps, newHash);
    var d := UpsertAllT(db, anime.id, eps, newHash);
    assert Refresh(db, anime, fetch, hasher, now).db.episodes == d.episodes;
    assert KeysOf(Refresh(db, anime, fetch, hasher, now).db, anime.id) == KeysOf(d, anime.id);
  }

  /** Entry i of `eps` is stored as episode i + 1 of anime `a`, with its title and type and the fingerprint. */
  ghost predicate Written(episodes: map<EpKey, Episode>, a: AnimeId, eps: seq<EpisodeData>, hash: string) {
    forall i :: 0 <= i < |eps| ==>
      && (a, i + 1) in episodes
      && episodes[(a, i + 1)].title == eps[i].title
      && episodes[(a, i + 1)].ty == eps[i].ty
      && episodes[(a, i + 1)].sourceHash == hash
  }

  /**
   * Upserting a list numbered 1..n stores entry i as episode i + 1 with its
   * title, type and the fingerprint, adds the keys 1..n, and keeps every
   * other row and every `_id`.
   */
  lemma UpsertNumbered(db: Db, a: AnimeId, eps: seq<EpisodeData>, hash: string)
    requires Numbered(eps)
    ensures KeysOf(UpsertAllT(db, a, eps, hash), a) == KeysOf(db, a) + RangeKeys(a, |eps|)
    ensures Written(UpsertAllT(db, a, eps, hash).episodes, a, eps, hash)
    ensures KeptOutside(db.episodes, UpsertAllT(db, a, eps, hash).episodes, RangeKeys(a, |eps|))
    ensures IdsKept(db.episodes, UpsertAllT(db, a, eps, hash).episodes)
  {
    NumberedKeys(a, eps);
    UpsertAllFrame(db, a, eps, hash);
    UpsertAllStamped(db, a, eps, hash);
    UpsertAllLastWins(db, a, eps, hash);
    KeysOfAfterUpsertAll(db, a, eps, hash);
    var r := UpsertAllT(db, a, eps, hash);
    forall i | 0 <= i < |eps|
      ensures (a, i + 1) in r.episodes
      ensures r.episodes[(a, i + 1)].title == eps[i].title
      ensures r.episodes[(a, i + 1)].ty == eps[i].ty
      ensures r.episodes[(a, i + 1)].sourceHash == hash
    {
      assert eps[i].number == i + 1;
      assert (a, eps[i].number) in BatchKeys(a, eps);
    }
  }

  /** A refresh of a stored anime keeps the store invariant and leaves the returned document stored. */
  lemma RefreshValid(db: Db, anime: Anime, fetch: Fetcher, hasher: Hasher, now: Time)
    requires Valid(db) && Stored(db, anime)
    ensures var r := Refresh(db, anime, fetch, hasher, now);
      && Valid(r.db) && Stored(r.db, r.doc)
      && r.doc.id == anime.id && r.doc.slug == anime.slug && r.doc.title == anime.title
  {
    var r := Refresh(db, anime, fetch, hasher, now);
    if r.result.changed {
      var eps := Extracted(fetch(anime.slug).value);
      var newHash := hasher(ScraperJson(eps));
      assert AnimeRowValid(db.animes, db.nextAnimeId, anime.slug);
      UpsertAllValid(db, anime.id, eps, newHash);
      UpsertAllFrame(db, anime.id, eps, newHash);
      SaveValid(UpsertAllT(db, anime.id, eps, newHash), r.doc);
    }
  }

  /**
   * Once a refresh has seen a non-empty extraction, refreshing again with the
   * same upstream data writes nothing: the fingerprints match and the anime
   * has been scraped.
   */
  lemma RefreshTwice(db: Db, anime: Anime, fetch: Fetcher, hasher: Hasher, now: Time, later: Time)
    requires Valid(db) && Stored(db, anime)
    requires fetch(anime.slug).Some? && Extracted(fetch(anime.slug).value) != []
    ensures Valid(Refresh(db, anime, fetch, hasher, now).db)
    ensures var r1 := Refresh(db, anime, fetch, hasher, now);
      Refresh(r1.db, r1.doc, fetch, hasher, later)
        == Refreshed(r1.db, r1.doc, RefreshResult(false, |Extracted(fetch(anime.slug).value)|))
  {
    RefreshValid(db, anime, fetch, hasher, now);
    var r1 := Refresh(db, anime, fetch, hasher, now);
    if r1.result.changed {
      var eps := Extracted(fetch(anime.slug).value);
      var newHash := hasher(ScraperJson(eps));
      assert AnimeRowValid(db.animes, db.nextAnimeId, anime.slug);
      LatestAfterUpsertAll(db, anime.id, eps, newHash);
      var d := UpsertAllT(db, anime.id, eps, newHash);
      assert KeysOf(r1.db, anime.id) == KeysOf(d, anime.id);
      assert Latest(r1.db, anime.id) == Latest(d, anime.id) by {
        LatestSameEpisodes(d, r1.db, anime.id);
      }
    }
  }

  /** `Latest` depends on the Episode collection only. */
  lemma LatestSameEpisodes(d: Db, d': Db, a: AnimeId)
    requires Valid(d) && Valid(d') && d.episodes == d'.episodes
    ensures Latest(d, a) == Latest(d', a)
  {
    if KeysOf(d, a) != {} {
      var e, e' := Latest(d, a).value, Latest(d', a).value;
      assert EpisodeRowValid(d.episodes, d.nextAnimeId, d.nextEpisodeId, d.clock, (a, e.number)) && EpisodeRowValid(d.episodes, d.nextAnimeId, d.nextEpisodeId, d.clock, (a, e'.number));
      assert e.updatedAt == e'.updatedAt;
    }
  }

  /** The anime collection after a refresh: only the refreshed document is replaced, keeping its identity. */
  lemma RefreshAnimes(db: Db, anime: Anime, fetch: Fetcher, hasher: Hasher, now: Time)
    requires Valid(db)
    ensures Refresh(db, anime, fetch, hasher, now).db.animes
              == if Refresh(db, anime, fetch, hasher, now).result.changed
                 then db.animes[anime.slug := Refresh(db, anime, fetch, hasher, now).doc] else db.animes
    ensures Refresh(db, anime, fetch, hasher, now).db.nextAnimeId == db.nextAnimeId
    ensures var doc := Refresh(db, anime, fetch, hasher, now).doc;
      doc.id == anime.id && doc.slug == anime.slug && doc.title == anime.title && doc.sourceUrl == anime.sourceUrl
  {
    var r := Refresh(db, anime, fetch, hasher, now);
    if r.result.changed {
      var eps := Extracted(fetch(anime.slug).value);
      UpsertAllAnimes(db, anime.id, eps, hasher(ScraperJson(eps)));
    }
  }

  /** A refresh that writes adds the keys 1..count to the anime's episodes and touches no other anime. */
  lemma RefreshAnimeFrame(db: Db, anime: Anime, fetch: Fetcher, hasher: Hasher, now: Time)
    requires Valid(db)
    ensures var r := Refresh(db, anime, fetch, hasher, now);
      && r.db.animes == (if r.result.changed then db.animes[anime.slug := r.doc] else db.animes)
      && r.db.nextAnimeId == db.nextAnimeId
      && r.doc.id == anime.id && r.doc.slug == anime.slug && r.doc.title == anime.title
      && (r.result.changed ==> KeysOf(r.db, anime.id) == KeysOf(db, anime.id) + RangeKeys(anime.id, r.result.count))
  {
    RefreshAnimes(db, anime, fetch, hasher, now);
    var r := Refresh(db, anime, fetch, hasher, now);
    if r.result.changed {
      var data := fetch(anime.slug).value;
      var eps := Extracted(data);
      var newHash := hasher(ScraperJson(eps));
      assert Numbered(eps) by {
        ExtractedShape(data);
      }
      NumberedKeys(anime.id, eps);
      KeysOfAfterUpsertAll(db, anime.id, eps, newHash);
    }
  }

  /** Adding the keys 1..n to a set of keys of one anime gives at least n keys, and exactly n when the set lies within 1..n. */
  lemma UnionWithRange(ks: set<EpKey>, a: AnimeId, n: nat)
    requires forall k :: k in ks ==> k.0 == a
    ensures |ks + RangeKeys(a, n)| >= n
    ensures |ks + RangeKeys(a, n)| == n <==> forall k :: k in ks ==> 1 <= k.1 <= n
  {
    var range := RangeKeys(a, n);
    RangeKeysCard(a, n);
    assert ks + range == range + (ks - range);
    assert |ks + range| == n + |ks - range|;
    if forall k :: k in ks ==> 1 <= k.1 <= n {
      assert ks - range == {} by {
        forall k | k in ks ensures k in range {
          assert k == (a, k.1);
        }
      }
    } else {
      var k :| k in ks && !(1 <= k.1 <= n);
      assert k in ks - range;
    }
  }

  /**
   * After a write the stored count is at least the extraction's length, and
   * equal to it exactly when every episode the anime had before is numbered
   * within 1..n: rows beyond n are kept, not pruned.
   */
  lemma RefreshStoredCount(db: Db, anime: Anime, fetch: Fetcher, hasher: Hasher, now: Time)
    requires Valid(db)
    requires Refresh(db, anime, fetch, hasher, now).result.changed
    ensures var r := Refresh(db, anime, fetch, hasher, now);
      && CountOf(r.db, anime.id) >= r.result.count
      && (CountOf(r.db, anime.id) == r.result.count <==>
            forall k :: k in KeysOf(db, anime.id) ==> 1 <= k.1 <= r.result.count)
  {
    RefreshAnimeFrame(db, anime, fetch, hasher, now);
    UnionWithRange(KeysOf(db, anime.id), anime.id, Refresh(db, anime, fetch, hasher, now).result.count);
  }

  // ---------------------------------------------------------------------------
  // Properties of ensureAnimeCached

  /** A title whose slug is already stored reuses that anime: no anime is created. */
  lemma EnsureFound(db: Db, title: string, prefetch: bool, fetch: Fetcher, hasher: Hasher, now: Time)
    requires Valid(db) && Slugify(title) in db.animes
    ensures var (db', r) := EnsureCached(db, title, prefetch, fetch, hasher, now);
      && db'.animes.Keys == db.animes.Keys && db'.nextAnimeId == db.nextAnimeId
      && r.Ok? && r.value.id == db.animes[Slugify(title)].id
      && (!prefetch ==> db' == db && r.value == db.animes[Slugify(title)])
  {
    RefreshAnimeFrame(db, db.animes[Slugify(title)], fetch, hasher, now);
  }

  /**
   * A title with a new non-empty slug creates exactly one anime: the trimmed
   * title, the slug, the show's page as `sourceUrl`, a fresh `_id`; without
   * prefetch it is stored with no episodes and never scraped.
   */
  lemma EnsureCreates(db: Db, title: string, prefetch: bool, fetch: Fetcher, hasher: Hasher, now: Time)
    requires Valid(db) && Slugify(title) !in db.animes && Slugify(title) != []
    ensures var (db', r) := EnsureCached(db, title, prefetch, fetch, hasher, now);
      && db'.animes.Keys == db.animes.Keys + {Slugify(title)}
      && r.Ok? && r.value.id == db.nextAnimeId && r.value.slug == Slugify(title)
      && r.value.title == Trim(title) && r.value.sourceUrl == ShowsPageUrl(Slugify(title))
      && (!prefetch ==> r.value.episodeCount == 0 && r.value.lastScrapedAt.None? && db'.episodes == db.episodes)
  {
    FindOrCreateSpec(db, CachedFields(title));
    var (db1, found) := FindOrCreate(db, CachedFields(title));
    if prefetch {
      RefreshAnimes(db1, found.value, fetch, hasher, now);
    }
  }


  /** `ensureAnimeCached` fails exactly when the title has an empty slug, and then changes nothing. */
  lemma EnsureFails(db: Db, title: string, prefetch: bool, fetch: Fetcher, hasher: Hasher, now: Time)
    requires Valid(db)
    ensures var (db', r) := EnsureCached(db, title, prefetch, fetch, hasher, now);
      && (r.Err? <==> Slugify(title) == [])
      && (r.Err? ==> r.error == ValidationError && db' == db)
  {
    FindOrCreateSpec(db, CachedFields(title));
  }

  /** `ensureAnimeCached` keeps the store invariant and returns the stored document. */
  lemma EnsureValid(db: Db, title: string, prefetch: bool, fetch: Fetcher, hasher: Hasher, now: Time)
    requires Valid(db)
    ensures var (db', r) := EnsureCached(db, title, prefetch, fetch, hasher, now);
      Valid(db') && (r.Ok? ==> Stored(db', r.value) && r.value.slug == Slugify(title))
  {
    FindOrCreateSpec(db, CachedFields(title));
    var (db1, found) := FindOrCreate(db, CachedFields(title));
    if found.Ok? && prefetch {
      RefreshValid(db1, found.value, fetch, hasher, now);
    }
  }

  /** Two titles with the same slug, such as "Naruto" and "NARUTO!", reach the same anime. */
  lemma EnsureSameSlug(db: Db, t1: string, t2: string, prefetch: bool, fetch: Fetcher, hasher: Hasher, now: Time)
    requires Valid(db) && Slugify(t1) == Slugify(t2) && Slugify(t1) != []
    ensures Valid(EnsureCached(db, t1, prefetch, fetch, hasher, now).0)
    ensures var (db1, r1) := EnsureCached(db, t1, prefetch, fetch, hasher, now);
      var (db2, r2) := EnsureCached(db1, t2, prefetch, fetch, hasher, now);
      r1.Ok? && r2.Ok? && r2.value.id == r1.value.id && db2.animes.Keys == db1.animes.Keys
  {
    EnsureValid(db, t1, prefetch, fetch, hasher, now);
    EnsureFails(db, t1, prefetch, fetch, hasher, now);
    var (db1, r1) := EnsureCached(db, t1, prefetch, fetch, hasher, now);
    EnsureFound(db1, t2, prefetch, fetch, hasher, now);
  }

  /**
   * Searching "One Piece" on an empty store leaves one anime, "one-piece",
   * whose count is the length of the upstream extraction, or 0 when upstream
   * has nothing.
   */
  lemma EnsureOnePieceOnEmptyStore(fetch: Fetcher, hasher: Hasher, now: Time)
    ensures var (db', r) := EnsureCached(EmptyDb, "One Piece", true, fetch, hasher, now);
      && db'.animes.Keys == {"one-piece"}
      && r.Ok? && r.value.slug == "one-piece"
      && r.value.episodeCount == (match fetch("one-piece")
                                  case None => 0
                                  case Some(data) => |Extracted(data)|)
  {
    SlugifyOnePiece();
    EmptyDbValid();
    EnsureCreates(EmptyDb, "One Piece", true, fetch, hasher, now);
  }
}
