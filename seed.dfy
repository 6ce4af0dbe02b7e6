/**
 * The seed script: `upsertAnimeWithEpisodes` finds or creates an anime by the
 * slug of its title and upserts a fixed list of episodes, all stamped with
 * one fingerprint of the whole list, then sets the anime's count to the
 * number of stored episodes. `Seed` runs it for Naruto, Bleach and One Piece.
 */
module Seed {
  import opened Wrappers
  import opened Slug
  import opened Models
  import opened Fingerprint
  import opened EntityStore

  /** The fields a missing anime is created with: `opts.sourceUrl` when non-empty, else the show's page. */
  function SeedFields(title: string, sourceUrl: Option<string>): AnimeFields {
    var slug := Slugify(title);
    var url := if sourceUrl.Some? && sourceUrl.value != [] then sourceUrl.value else ShowsPageUrl(slug);
    AnimeFields(title, slug, Some(url), None, Some(0))
  }

  /** What `upsertAnimeWithEpisodes(title, episodes, { sourceUrl })` does, given the digest and the time. */
  function SeedUpsert(db: Db, title: string, rows: seq<EpisodeData>, sourceUrl: Option<string>,
                      sha1: Hasher, now: Time): (Db, Result<Anime, StoreError>)
  {
    var (db1, found) := FindOrCreate(db, SeedFields(title, sourceUrl));
    if found.Err? then (db1, found)
    else
      var anime := found.value;
      var db2 := UpsertAllT(db1, anime.id, rows, sha1(SeedJson(rows)));
      var doc := anime.(episodeCount := CountOf(db2, anime.id), lastScrapedAt := Some(now));
      (SaveAnimeT(db2, doc), Ok(doc))
  }

  /** `upsertAnimeWithEpisodes`; a failed create is returned as an error rather than thrown. */
  method UpsertAnimeWithEpisodes(db: Store, title: string, rows: seq<EpisodeData>, sourceUrl: Option<string>,
                                 sha1: Hasher, now: Time)
    returns (r: Result<Anime, StoreError>)
    requires Valid(db.State())
    modifies db
    ensures db.State() == SeedUpsert(old(db.State()), title, rows, sourceUrl, sha1, now).0
    ensures r == SeedUpsert(old(db.State()), title, rows, sourceUrl, sha1, now).1
  {
    var f := SeedFields(title, sourceUrl);
    ghost var found := FindOrCreate(db.State(), f);
    if f.slug in db.animes {
      r := Ok(db.animes[f.slug]);
    } else {
      CreateFromTitle(db.State(), f);
      r := db.CreateAnime(f);
      if r.Err? {
        return;
      }
    }
    assert (db.State(), r) == found;
    var anime := r.value;
    var sourceHash := sha1(SeedJson(rows));
    db.UpsertAll(anime.id, rows, sourceHash);
    var count := CountOf(db.State(), anime.id);
    var doc := anime.(episodeCount := count, lastScrapedAt := Some(now));
    db.SaveAnime(doc);
    r := Ok(doc);
  }

  // ---------------------------------------------------------------------------
  // Properties of one upsert

  /** The seed upsert keeps the store invariant and returns the stored document. */
  lemma SeedValid(db: Db, title: string, rows: seq<EpisodeData>, sourceUrl: Option<string>, sha1: Hasher, now: Time)
    requires Valid(db)
    ensures var (db', r) := SeedUpsert(db, title, rows, sourceUrl, sha1, now);
      Valid(db') && (r.Ok? ==> Stored(db', r.value) && r.value.slug == Slugify(title))
  {
    FindOrCreateSpec(db, SeedFields(title, sourceUrl));
    var (db1, found) := FindOrCreate(db, SeedFields(title, sourceUrl));
    if found.Ok? {
      var anime := found.value;
      var hash := sha1(SeedJson(rows));
      assert AnimeRowValid(db1.animes, db1.nextAnimeId, anime.slug);
      UpsertAllValid(db1, anime.id, rows, hash);
      UpsertAllFrame(db1, anime.id, rows, hash);
      var db2 := UpsertAllT(db1, anime.id, rows, hash);
      SaveValid(db2, anime.(episodeCount := CountOf(db2, anime.id), lastScrapedAt := Some(now)));
    }
  }

  /** The upsert fails exactly when the title has an empty slug, and then changes nothing. */
  lemma SeedFails(db: Db, title: string, rows: seq<EpisodeData>, sourceUrl: Option<string>, sha1: Hasher, now: Time)
    requires Valid(db)
    ensures var (db', r) := SeedUpsert(db, title, rows, sourceUrl, sha1, now);
      && (r.Err? <==> Slugify(title) == [])
      && (r.Err? ==> r.error == ValidationError && db' == db)
  {
    FindOrCreateSpec(db, SeedFields(title, sourceUrl));
  }

  /**
   * A successful upsert stamps every listed episode with the one fingerprint
   * of the whole list, stores for each number the title and type of its last
   * entry, leaves every other episode as it was, and records as the count the
   * number of episodes the anime now has: its old ones plus the listed keys.
   */
  lemma SeedWrites(db: Db, title: string, rows: seq<EpisodeData>, sourceUrl: Option<string>, sha1: Hasher, now: Time)
    requires Valid(db) && Slugify(title) != []
    ensures var (db', r) := SeedUpsert(db, title, rows, sourceUrl, sha1, now);
      var hash := sha1(SeedJson(rows));
      && r.Ok?
      && (forall k :: k in BatchKeys(r.value.id, rows) ==> k in db'.episodes && db'.episodes[k].sourceHash == hash)
      && (forall i :: 0 <= i < |rows| && LastWith(rows, i) ==>
            var k := (r.value.id, rows[i].number);
            k in db'.episodes && db'.episodes[k].title == rows[i].title && db'.episodes[k].ty == rows[i].ty)
      && (forall k :: k in db.episodes && k !in BatchKeys(r.value.id, rows) ==>
            k in db'.episodes && db'.episodes[k] == db.episodes[k])
      && r.value.episodeCount == CountOf(db', r.value.id)
      && KeysOf(db', r.value.id) == KeysOf(db, r.value.id) + BatchKeys(r.value.id, rows)
      && db'.episodes.Keys == db.episodes.Keys + BatchKeys(r.value.id, rows)
      && r.value.lastScrapedAt == Some(now)
  {
    FindOrCreateSpec(db, SeedFields(title, sourceUrl));
    var (db1, found) := FindOrCreate(db, SeedFields(title, sourceUrl));
    var anime := found.value;
    var hash := sha1(SeedJson(rows));
    assert db1.episodes == db.episodes;
    UpsertAllFrame(db1, anime.id, rows, hash);
    UpsertAllStamped(db1, anime.id, rows, hash);
    UpsertAllLastWins(db1, anime.id, rows, hash);
    KeysOfAfterUpsertAll(db1, anime.id, rows, hash);
  }

  /**
   * A title whose slug is stored reuses that anime; a new non-empty slug
   * creates one anime with the trimmed title, a fresh `_id`, and
   * `opts.sourceUrl` or else the show's page as `sourceUrl`.
   */
  lemma SeedFindsOrCreates(db: Db, title: string, rows: seq<EpisodeData>, sourceUrl: Option<string>,
                           sha1: Hasher, now: Time)
    requires Valid(db) && Slugify(title) != []
    ensures var (db', r) := SeedUpsert(db, title, rows, sourceUrl, sha1, now);
      var slug := Slugify(title);
      && r.Ok? && db'.nextAnimeId == (if slug in db.animes then db.nextAnimeId else db.nextAnimeId + 1)
      && db'.animes.Keys == db.animes.Keys + {slug}
      && (slug in db.animes ==> r.value.id == db.animes[slug].id && r.value.sourceUrl == db.animes[slug].sourceUrl)
      && (slug !in db.animes ==>
            && r.value.id == db.nextAnimeId && r.value.title == Trim(title)
            && r.value.sourceUrl == (if sourceUrl.Some? && sourceUrl.value != [] then sourceUrl.value
                                     else ShowsPageUrl(slug)))
  {
    SeedAnimes(db, title, rows, sourceUrl, sha1, now);
    var (db1, found) := FindOrCreate(db, SeedFields(title, sourceUrl));
    UpsertAllAnimes(db1, found.value.id, rows, sha1(SeedJson(rows)));
  }

  /** Re-running the same upsert adds no anime and no episode, and records the same count. */
  lemma SeedRerun(db: Db, title: string, rows: seq<EpisodeData>, sourceUrl: Option<string>,
                  sha1: Hasher, now: Time, later: Time)
    requires Valid(db) && Slugify(title) != []
    ensures Valid(SeedUpsert(db, title, rows, sourceUrl, sha1, now).0)
    ensures var (db1, r1) := SeedUpsert(db, title, rows, sourceUrl, sha1, now);
      var (db2, r2) := SeedUpsert(db1, title, rows, sourceUrl, sha1, later);
      && r1.Ok? && r2.Ok? && r2.value.id == r1.value.id
      && db2.animes.Keys == db1.animes.Keys
      && db2.episodes.Keys == db1.episodes.Keys
      && r2.value.episodeCount == r1.value.episodeCount
  {
    SeedValid(db, title, rows, sourceUrl, sha1, now);
    var first := SeedUpsert(db, title, rows, sourceUrl, sha1, now);
    var db1, r1 := first.0, first.1;
    SeedWrites(db, title, rows, sourceUrl, sha1, now);
    var id := r1.value.id;
    assert Stored(db1, r1.value) && r1.value.slug == Slugify(title);
    assert BatchKeys(id, rows) <= KeysOf(db1, id);
    SeedFindsOrCreates(db1, title, rows, sourceUrl, sha1, later);
    SeedWrites(db1, title, rows, sourceUrl, sha1, later);
  }

  /** A new anime seeded with pairwise distinct numbers gets exactly one episode per entry. */
  lemma SeedNewCount(db: Db, title: string, rows: seq<EpisodeData>, sourceUrl: Option<string>, sha1: Hasher, now: Time)
    requires Valid(db) && Slugify(title) != [] && Slugify(title) !in db.animes
    requires forall i, j :: 0 <= i < j < |rows| ==> rows[i].number != rows[j].number
    ensures var (db', r) := SeedUpsert(db, title, rows, sourceUrl, sha1, now);
      r.Ok? && r.value.episodeCount == |rows| == CountOf(db', r.value.id)
  {
    SeedWrites(db, title, rows, sourceUrl, sha1, now);
    var r := SeedUpsert(db, title, rows, sourceUrl, sha1, now).1;
    assert r.value.id == db.nextAnimeId by {
      SeedFindsOrCreates(db, title, rows, sourceUrl, sha1, now);
    }
    assert KeysOf(db, r.value.id) == {} by {
      forall k | k in db.episodes ensures k.0 != db.nextAnimeId {
        assert EpisodeRowValid(db.episodes, db.nextAnimeId, db.nextEpisodeId, db.clock, k);
      }
    }
    BatchKeysCard(r.value.id, rows);
  }

  // ---------------------------------------------------------------------------
  // The fixed seed data

  const NarutoEpisodes: seq<EpisodeData> := [
    EpisodeData(1, "Enter: Naruto Uzumaki!", Canon),
    EpisodeData(2, "My Name is Konohamaru!", Canon),
    EpisodeData(3, "Sasuke and Sakura: Friends or Foes?", Mixed)]

  const BleachEpisodes: seq<EpisodeData> := [
    EpisodeData(1, "The Day I Became a Shinigami", Canon),
    EpisodeData(2, "A Shinigami\U{2019}s Work", Canon),
    EpisodeData(3, "The Older Brother\U{2019}s Wish\U{2026}", Mixed),
    EpisodeData(4, "Cursed Parakeet", Filler)]

  const OnePieceEpisodes: seq<EpisodeData> := [
    EpisodeData(1, "I\U{2019}m Luffy! The Man Who Will Become Pirate King!", Canon),
    EpisodeData(2, "Enter the Great Swordsman! Roronoa Zoro!", Canon),
    EpisodeData(3, "Morgan vs. Luffy! Who\U{2019}s This Girl?", Filler),
    EpisodeData(4, "Luffy\U{2019}s Past! Red-Haired Shanks Appears!", Filler),
    EpisodeData(5, "Fear, Mysterious Power! Captain Buggy!", Mixed)]

  lemma SeedSlugs()
    ensures Slugify("Naruto") == "naruto" && Slugify("Bleach") == "bleach" && Slugify("One Piece") == "one-piece"
  {
    LowerNarutoBleach();
    SlugifyPlain("Naruto", "naruto");
    SlugifyPlain("Bleach", "bleach");
    SlugifyOnePiece();
  }

  /** Seeding a new anime with pairwise distinct numbers adds that one anime, with one episode per entry. */
  lemma SeedNew(db: Db, title: string, rows: seq<EpisodeData>, sha1: Hasher, now: Time)
    requires Valid(db) && Slugify(title) != [] && Slugify(title) !in db.animes
    requires DistinctNumbers(rows)
    ensures var (db', r) := SeedUpsert(db, title, rows, None, sha1, now);
      && Valid(db') && r.Ok? && r.value.episodeCount == |rows|
      && db'.animes == db.animes[Slugify(title) := r.value]
  {
    SeedValid(db, title, rows, None, sha1, now);
    SeedNewCount(db, title, rows, None, sha1, now);
    SeedAnimes(db, title, rows, None, sha1, now);
  }

  /** After a successful upsert the Anime collection holds the returned document under the title's slug, and nothing else changed. */
  lemma SeedAnimes(db: Db, title: string, rows: seq<EpisodeData>, sourceUrl: Option<string>, sha1: Hasher, now: Time)
    requires Valid(db) && Slugify(title) != []
    ensures SeedUpsert(db, title, rows, sourceUrl, sha1, now).1.Ok?
    ensures SeedUpsert(db, title, rows, sourceUrl, sha1, now).0.animes
              == db.animes[Slugify(title) := SeedUpsert(db, title, rows, sourceUrl, sha1, now).1.value]
  {
    var f := SeedFields(title, sourceUrl);
    FindOrCreateAnimes(db, f);
    var (db1, found) := FindOrCreate(db, f);
    var anime := found.value;
    var hash := sha1(SeedJson(rows));
    var db2 := UpsertAllT(db1, anime.id, rows, hash);
    UpsertAllAnimes(db1, anime.id, rows, hash);
    var doc := anime.(episodeCount := CountOf(db2, anime.id), lastScrapedAt := Some(now));
    assert SeedUpsert(db, title, rows, sourceUrl, sha1, now) == (SaveAnimeT(db2, doc), Ok(doc));
    assert db1.animes[f.slug := doc] == db.animes[f.slug := doc];
  }

  predicate DistinctNumbers(rows: seq<EpisodeData>) {
    forall i, j :: 0 <= i < j < |rows| ==> rows[i].number != rows[j].number
  }

  lemma SeedListsDistinct()
    ensures DistinctNumbers(NarutoEpisodes) && DistinctNumbers(BleachEpisodes) && DistinctNumbers(OnePieceEpisodes)
  {
    assert forall i | 0 <= i < |NarutoEpisodes| :: NarutoEpisodes[i].number == i + 1;
    assert forall i | 0 <= i < |BleachEpisodes| :: BleachEpisodes[i].number == i + 1;
    assert forall i | 0 <= i < |OnePieceEpisodes| :: OnePieceEpisodes[i].number == i + 1;
  }

  /**
   * `seed()`: three upserts in order, each at its own time; it runs with the
   * Naruto, Bleach and One Piece lists, which `FixedListsQualify` shows meet
   * the conditions below. The store keeps its invariant; on a store without
   * anime, three titles with distinct non-empty slugs and lists with distinct
   * numbers leave exactly those three anime, with one episode per entry.
   */
  method SeedCatalogue(db: Store, sha1: Hasher, t1: Time, t2: Time, t3: Time,
                       title1: string, rows1: seq<EpisodeData>, title2: string, rows2: seq<EpisodeData>,
                       title3: string, rows3: seq<EpisodeData>)
    returns (r1: Result<Anime, StoreError>, r2: Result<Anime, StoreError>, r3: Result<Anime, StoreError>)
    requires Valid(db.State())
    modifies db
    ensures Valid(db.State())
    ensures r1.Ok? <==> Slugify(title1) != []
    ensures old(db.State()).animes == map[] && DistinctSlugs(title1, title2, title3)
              && DistinctNumbers(rows1) && DistinctNumbers(rows2) && DistinctNumbers(rows3) ==>
      && r1.Ok? && r2.Ok? && r3.Ok?
      && db.State().animes == map[Slugify(title1) := r1.value, Slugify(title2) := r2.value, Slugify(title3) := r3.value]
      && r1.value.episodeCount == |rows1| && r2.value.episodeCount == |rows2| && r3.value.episodeCount == |rows3|
  {
    ghost var s0 := db.State();
    r1 := UpsertAnimeWithEpisodes(db, title1, rows1, None, sha1, t1);
    ghost var s1 := db.State();
    SeedStep(s0, title1, rows1, sha1, t1, s1, r1);
    r2 := UpsertAnimeWithEpisodes(db, title2, rows2, None, sha1, t2);
    ghost var s2 := db.State();
    SeedStep(s1, title2, rows2, sha1, t2, s2, r2);
    r3 := UpsertAnimeWithEpisodes(db, title3, rows3, None, sha1, t3);
    SeedStep(s2, title3, rows3, sha1, t3, db.State(), r3);
    SeedThree(s0.animes, s1.animes, s2.animes, db.State().animes, title1, rows1, r1, title2, rows2, r2, title3, rows3, r3);
  }

  /** A step of `seed()` that upserts a new slug with distinct numbers adds exactly that anime, with one episode per entry. */
  ghost predicate StepAdds(m: map<string, Anime>, m': map<string, Anime>, title: string, rows: seq<EpisodeData>,
                           r: Result<Anime, StoreError>) {
    Slugify(title) != [] && Slugify(title) !in m && DistinctNumbers(rows) ==>
      r.Ok? && m' == m[Slugify(title) := r.value] && r.value.episodeCount == |rows|
  }

  /**
   * One step of `seed()`, from `s` to `s'` with result `r`: the invariant
   * holds after it, and a new slug with distinct numbers adds one anime.
   */
  lemma SeedStep(s: Db, title: string, rows: seq<EpisodeData>, sha1: Hasher, t: Time,
                 s': Db, r: Result<Anime, StoreError>)
    requires Valid(s)
    requires s' == SeedUpsert(s, title, rows, None, sha1, t).0 && r == SeedUpsert(s, title, rows, None, sha1, t).1
    ensures Valid(s')
    ensures r.Ok? <==> Slugify(title) != []
    ensures StepAdds(s.animes, s'.animes, title, rows, r)
  {
    SeedValid(s, title, rows, None, sha1, t);
    SeedFails(s, title, rows, None, sha1, t);
    if Slugify(title) != [] && Slugify(title) !in s.animes && DistinctNumbers(rows) {
      SeedNew(s, title, rows, sha1, t);
    }
  }

  /** Three steps from an empty collection with distinct slugs leave exactly the three anime. */
  lemma SeedThree(m0: map<string, Anime>, m1: map<string, Anime>, m2: map<string, Anime>, m3: map<string, Anime>,
                  title1: string, rows1: seq<EpisodeData>, r1: Result<Anime, StoreError>,
                  title2: string, rows2: seq<EpisodeData>, r2: Result<Anime, StoreError>,
                  title3: string, rows3: seq<EpisodeData>, r3: Result<Anime, StoreError>)
    requires StepAdds(m0, m1, title1, rows1, r1) && StepAdds(m1, m2, title2, rows2, r2)
    requires StepAdds(m2, m3, title3, rows3, r3)
    ensures m0 == map[] && DistinctSlugs(title1, title2, title3)
              && DistinctNumbers(rows1) && DistinctNumbers(rows2) && DistinctNumbers(rows3) ==>
      && r1.Ok? && r2.Ok? && r3.Ok?
      && m3 == map[Slugify(title1) := r1.value, Slugify(title2) := r2.value, Slugify(title3) := r3.value]
      && r1.value.episodeCount == |rows1| && r2.value.episodeCount == |rows2| && r3.value.episodeCount == |rows3|
  {
  }

  predicate DistinctSlugs(title1: string, title2: string, title3: string) {
    var k1, k2, k3 := Slugify(title1), Slugify(title2), Slugify(title3);
    k1 != [] && k2 != [] && k3 != [] && k1 != k2 && k2 != k3 && k1 != k3
  }

  /** The fixed Naruto, Bleach and One Piece data seeds "naruto", "bleach" and "one-piece" with 3, 4 and 5 entries. */
  lemma FixedListsQualify()
    ensures DistinctSlugs("Naruto", "Bleach", "One Piece")
    ensures Slugify("Naruto") == "naruto" && Slugify("Bleach") == "bleach" && Slugify("One Piece") == "one-piece"
    ensures DistinctNumbers(NarutoEpisodes) && DistinctNumbers(BleachEpisodes) && DistinctNumbers(OnePieceEpisodes)
    ensures |NarutoEpisodes| == 3 && |BleachEpisodes| == 4 && |OnePieceEpisodes| == 5
  {
    SeedSlugs();
    SeedListsDistinct();
  }

  /** An upsert leaves every other anime's document as it was. */
  lemma SeedKeepsOthers(db: Db, title: string, rows: seq<EpisodeData>, sourceUrl: Option<string>, sha1: Hasher, now: Time)
    requires Valid(db)
    ensures var (db', r) := SeedUpsert(db, title, rows, sourceUrl, sha1, now);
      forall s :: s in db.animes && s != Slugify(title) ==> s in db'.animes && db'.animes[s] == db.animes[s]
  {
    if Slugify(title) != [] {
      SeedAnimes(db, title, rows, sourceUrl, sha1, now);
    }
  }
}
