/**
 * The entity store the scraper and the seed script talk to: the Anime
 * collection keyed by slug, the Episode collection keyed by (anime, number),
 * and the few queries and writes they use. `Db` is a snapshot of the store;
 * the functions on it specify the writes of the `Store` class.
 */
module EntityStore {
  import opened Wrappers
  import opened Slug
  import opened Models

  /** The unique index `(anime, number)` of the Episode collection. */
  type EpKey = (AnimeId, int)

  /**
   * `clock` stamps every episode write (it plays the part of `updatedAt`);
   * `nextAnimeId` and `nextEpisodeId` hand out `_id`s.
   */
  datatype Db = Db(
    animes: map<string, Anime>,
    episodes: map<EpKey, Episode>,
    clock: nat,
    nextAnimeId: AnimeId,
    nextEpisodeId: EpisodeId)

  const EmptyDb: Db := Db(map[], map[], 0, 0, 0)

  /** A failed create: a required field is empty, or a unique index is already taken. */
  datatype StoreError = ValidationError | DuplicateKey

  // ---------------------------------------------------------------------------
  // Invariants: the schemas' required and unique constraints, and the bookkeeping

  ghost predicate AnimeRowValid(animes: map<string, Anime>, nextAnimeId: AnimeId, s: string)
    requires s in animes
  {
    var a := animes[s];
    && a.slug == s && s != []
    && a.title != [] && Trimmed(a.title) && Slugify(a.title) == s
    && a.id < nextAnimeId
  }

  /** The Anime collection: required fields, slug derived from the title, unique `_id` and title. */
  ghost predicate AnimesValid(animes: map<string, Anime>, nextAnimeId: AnimeId) {
    && (forall s :: s in animes ==> AnimeRowValid(animes, nextAnimeId, s))
    && (forall s, s' :: s in animes && s' in animes && s != s' ==>
          animes[s].id != animes[s'].id && animes[s].title != animes[s'].title)
  }

  ghost predicate EpisodeRowValid(episodes: map<EpKey, Episode>, nextAnimeId: AnimeId,
                                  nextEpisodeId: EpisodeId, clock: nat, k: EpKey)
    requires k in episodes
  {
    var e := episodes[k];
    && e.anime == k.0 && e.number == k.1
    && k.0 < nextAnimeId
    && e.id < nextEpisodeId
    && e.updatedAt < clock
  }

  /** The Episode collection: rows sit under their own key, unique `_id`s and write stamps. */
  ghost predicate EpisodesValid(episodes: map<EpKey, Episode>, nextAnimeId: AnimeId,
                                nextEpisodeId: EpisodeId, clock: nat) {
    && (forall k :: k in episodes ==> EpisodeRowValid(episodes, nextAnimeId, nextEpisodeId, clock, k))
    && (forall k, k' :: k in episodes && k' in episodes && k != k' ==>
          episodes[k].id != episodes[k'].id && episodes[k].updatedAt != episodes[k'].updatedAt)
  }

  ghost predicate Valid(db: Db) {
    && AnimesValid(db.animes, db.nextAnimeId)
    && EpisodesValid(db.episodes, db.nextAnimeId, db.nextEpisodeId, db.clock)
  }

  lemma EmptyDbValid()
    ensures Valid(EmptyDb)
  {
  }

  // ---------------------------------------------------------------------------
  // Queries

  /** The keys of the episodes of anime `a`: what `{ anime: a }` selects. */
  function KeysOf(db: Db, a: AnimeId): set<EpKey> {
    set k | k in db.episodes && k.0 == a
  }

  /** `Episode.countDocuments({ anime: a })`. */
  function CountOf(db: Db, a: AnimeId): nat {
    |KeysOf(db, a)|
  }

  predicate IsLatest(db: Db, a: AnimeId, k: EpKey)
    requires k in db.episodes
  {
    forall k' :: k' in KeysOf(db, a) ==> db.episodes[k'].updatedAt <= db.episodes[k].updatedAt
  }

  lemma {:induction false} LatestExists(db: Db, a: AnimeId, ks: set<EpKey>)
    requires ks != {} && ks <= KeysOf(db, a)
    ensures exists k :: k in ks && forall k' :: k' in ks ==> db.episodes[k'].updatedAt <= db.episodes[k].updatedAt
  {
    var x :| x in ks;
    if ks != {x} {
      LatestExists(db, a, ks - {x});
      var y :| y in ks - {x} && forall k' :: k' in ks - {x} ==> db.episodes[k'].updatedAt <= db.episodes[y].updatedAt;
      if db.episodes[x].updatedAt <= db.episodes[y].updatedAt {
        assert forall k' :: k' in ks ==> db.episodes[k'].updatedAt <= db.episodes[y].updatedAt;
      } else {
        assert forall k' :: k' in ks ==> db.episodes[k'].updatedAt <= db.episodes[x].updatedAt;
      }
    }
  }

  /**
   * `Episode.findOne({ anime: a }).sort({ updatedAt: -1 })`: the episode of
   * `a` written last, or None when `a` has no episodes.
   */
  function Latest(db: Db, a: AnimeId): (r: Option<Episode>)
    requires Valid(db)
    ensures r.None? <==> KeysOf(db, a) == {}
    ensures r.Some? ==> (a, r.value.number) in db.episodes && db.episodes[(a, r.value.number)] == r.value
    ensures r.Some? ==> forall k :: k in KeysOf(db, a) ==> db.episodes[k].updatedAt <= r.value.updatedAt
  {
    if KeysOf(db, a) == {} then None
    else
      LatestExists(db, a, KeysOf(db, a));
      var k :| k in KeysOf(db, a) && IsLatest(db, a, k);
      assert EpisodeRowValid(db.episodes, db.nextAnimeId, db.nextEpisodeId, db.clock, k);
      Some(db.episodes[k])
  }

  /** `Anime.findById(id)`. */
  function FindById(db: Db, id: AnimeId): (r: Option<Anime>)
    requires Valid(db)
    ensures r.Some? <==> exists s :: s in db.animes && db.animes[s].id == id
    ensures r.Some? ==> r.value.slug in db.animes && db.animes[r.value.slug] == r.value && r.value.id == id
  {
    if exists s :: s in db.animes && db.animes[s].id == id then
      var s :| s in db.animes && db.animes[s].id == id;
      assert AnimeRowValid(db.animes, db.nextAnimeId, s);
      Some(db.animes[s])
    else None
  }

  lemma {:induction false} FirstKeyExists(ks: set<EpKey>)
    requires ks != {}
    ensures exists m :: m in ks && forall k :: k in ks ==> m.1 <= k.1
  {
    var y :| y in ks;
    var t := ks - {y};
    if t == {} {
      assert ks == {y};
    } else {
      FirstKeyExists(t);
      var m :| m in t && forall k :: k in t ==> m.1 <= k.1;
      assert forall k :: k in ks ==> k == y || k in t;
      if y.1 < m.1 {
        assert forall k :: k in ks ==> y.1 <= k.1;
      } else {
        assert forall k :: k in ks ==> m.1 <= k.1;
      }
    }
  }

  /** The keys of one anime's episodes in ascending order of number. */
  function SortedKeys(ks: set<EpKey>, a: AnimeId): (r: seq<EpKey>)
    requires forall k :: k in ks ==> k.0 == a
    ensures |r| == |ks|
    ensures forall i :: 0 <= i < |r| ==> r[i] in ks
    ensures forall i, j :: 0 <= i < j < |r| ==> r[i].1 < r[j].1
    decreases ks
  {
    if ks == {} then []
    else
      FirstKeyExists(ks);
      var m :| m in ks && forall k :: k in ks ==> m.1 <= k.1;
      var rest := SortedKeys(ks - {m}, a);
      assert forall j :: 0 <= j < |rest| ==> m.1 < rest[j].1 by {
        forall j | 0 <= j < |rest| ensures m.1 < rest[j].1 {
          assert rest[j] in ks && rest[j] != m && rest[j].0 == m.0;
        }
      }
      [m] + rest
  }

  /** Every key is in the sorted sequence. */
  lemma {:induction false} SortedKeysCovers(ks: set<EpKey>, a: AnimeId)
    requires forall k :: k in ks ==> k.0 == a
    ensures forall k :: k in ks ==> k in SortedKeys(ks, a)
    decreases ks
  {
    if ks != {} {
      FirstKeyExists(ks);
      var m :| m in ks && forall k :: k in ks ==> m.1 <= k.1;
      var r := SortedKeys(ks, a);
      SortedKeysCovers(ks - {m}, a);
      assert r == [m] + SortedKeys(ks - {m}, a);
    }
  }

  /** Every stored episode sits under its own `(anime, number)` key, as the unique index says. */
  ghost predicate Keyed(db: Db) {
    forall k :: k in db.episodes ==> db.episodes[k].anime == k.0 && db.episodes[k].number == k.1
  }

  lemma RowsKeyed(db: Db)
    requires Valid(db)
    ensures Keyed(db)
  {
    assert forall k :: k in db.episodes ==> EpisodeRowValid(db.episodes, db.nextAnimeId, db.nextEpisodeId, db.clock, k);
  }

  function RowsAt(db: Db, ks: seq<EpKey>): (r: seq<Episode>)
    requires forall i :: 0 <= i < |ks| ==> ks[i] in db.episodes
    ensures |r| == |ks| && forall i :: 0 <= i < |ks| ==> r[i] == db.episodes[ks[i]]
  {
    seq(|ks|, i requires 0 <= i < |ks| => db.episodes[ks[i]])
  }

  /** `Episode.find({ anime: a }).sort({ number: 1 })`. */
  function EpisodesOf(db: Db, a: AnimeId): (r: seq<Episode>)
    requires Keyed(db)
    ensures forall i, j :: 0 <= i < j < |r| ==> r[i].number < r[j].number
    ensures forall i :: 0 <= i < |r| ==> (a, r[i].number) in db.episodes && db.episodes[(a, r[i].number)] == r[i]
    ensures forall k :: k in KeysOf(db, a) ==> db.episodes[k] in r
    ensures |r| == CountOf(db, a)
  {
    var ks := SortedKeys(KeysOf(db, a), a);
    var r := RowsAt(db, ks);
    assert forall i :: 0 <= i < |ks| ==> ks[i] == (a, r[i].number) by {
      forall i | 0 <= i < |ks| ensures ks[i] == (a, r[i].number) {
        assert ks[i] in db.episodes;
      }
    }
    assert forall k :: k in KeysOf(db, a) ==> db.episodes[k] in r by {
      forall k | k in KeysOf(db, a) ensures db.episodes[k] in r {
        SortedKeysCovers(KeysOf(db, a), a);
        var i :| 0 <= i < |ks| && ks[i] == k;
        assert r[i] == db.episodes[k];
      }
    }
    r
  }

  // ---------------------------------------------------------------------------
  // Writes

  /** `Anime.create(fields)`. */
  function CreateAnimeT(db: Db, f: AnimeFields): (Db, Result<Anime, StoreError>) {
    match NewAnime(db.nextAnimeId, f)
    case None => (db, Err(ValidationError))
    case Some(a) =>
      if a.slug in db.animes || exists s :: s in db.animes && db.animes[s].title == a.title then
        (db, Err(DuplicateKey))
      else
        (db.(animes := db.animes[a.slug := a], nextAnimeId := db.nextAnimeId + 1), Ok(a))
  }

  /**
   * `Episode.findOneAndUpdate({ anime: a, number }, { title, type, sourceHash }, { upsert: true })`:
   * overwrite the three fields of the row with that key, or insert one.
   * Either way the row gets the next write stamp.
   */
  function UpsertEpisodeT(db: Db, a: AnimeId, e: EpisodeData, hash: string): Db {
    var k := (a, e.number);
    if k in db.episodes then
      var row := db.episodes[k].(title := e.title, ty := e.ty, sourceHash := hash, updatedAt := db.clock);
      db.(episodes := db.episodes[k := row], clock := db.clock + 1)
    else
      var row := NewEpisode(db.nextEpisodeId, a, e.number,
                            EpisodeFields(Some(e.title), Some(e.ty), Some(hash)), db.clock);
      db.(episodes := db.episodes[k := row], clock := db.clock + 1, nextEpisodeId := db.nextEpisodeId + 1)
  }

  /** The upsert loop over a batch, in order. */
  function UpsertAllT(db: Db, a: AnimeId, rows: seq<EpisodeData>, hash: string): Db
    decreases |rows|
  {
    if rows == [] then db
    else UpsertEpisodeT(UpsertAllT(db, a, rows[..|rows| - 1], hash), a, rows[|rows| - 1], hash)
  }

  /** `anime.save()` on a document read from the store. */
  function SaveAnimeT(db: Db, doc: Anime): Db {
    db.(animes := db.animes[doc.slug := doc])
  }

  /** The keys a batch writes. */
  function BatchKeys(a: AnimeId, rows: seq<EpisodeData>): set<EpKey> {
    set i | 0 <= i < |rows| :: (a, rows[i].number)
  }

  /** Row i is the last one in the batch with its number. */
  ghost predicate LastWith(rows: seq<EpisodeData>, i: int)
    requires 0 <= i < |rows|
  {
    forall j :: i < j < |rows| ==> rows[j].number != rows[i].number
  }

  // ---------------------------------------------------------------------------
  // What a batch upsert does

  lemma BatchKeysSnoc(a: AnimeId, rows: seq<EpisodeData>)
    requires rows != []
    ensures BatchKeys(a, rows) == BatchKeys(a, rows[..|rows| - 1]) + {(a, rows[|rows| - 1].number)}
  {
    var p := rows[..|rows| - 1];
    forall k | k in BatchKeys(a, rows) ensures k in BatchKeys(a, p) + {(a, rows[|rows| - 1].number)} {
      var i :| 0 <= i < |rows| && k == (a, rows[i].number);
      if i < |p| {
        assert rows[i] == p[i];
      }
    }
    forall k | k in BatchKeys(a, p) ensures k in BatchKeys(a, rows) {
      var i :| 0 <= i < |p| && k == (a, p[i].number);
      assert rows[i] == p[i];
    }
    assert (a, rows[|rows| - 1].number) in BatchKeys(a, rows);
  }

  /** Every row outside `ks` is kept as it was. */
  ghost predicate KeptOutside(before: map<EpKey, Episode>, after: map<EpKey, Episode>, ks: set<EpKey>) {
    forall k :: k in before && k !in ks ==> k in after && after[k] == before[k]
  }

  /** Every row is kept, with its `_id`. */
  ghost predicate IdsKept(before: map<EpKey, Episode>, after: map<EpKey, Episode>) {
    forall k :: k in before ==> k in after && after[k].id == before[k].id
  }

  /**
   * Frame of a batch upsert: the Anime collection is untouched, the keys
   * become the old keys plus the batch's, rows outside the batch keep their
   * contents, every pre-existing row keeps its `_id`, and the stamp advances
   * by one per row.
   */
  lemma {:induction false} UpsertAllFrame(db: Db, a: AnimeId, rows: seq<EpisodeData>, hash: string)
    ensures UpsertAllT(db, a, rows, hash).animes == db.animes
    ensures UpsertAllT(db, a, rows, hash).nextAnimeId == db.nextAnimeId
    ensures UpsertAllT(db, a, rows, hash).clock == db.clock + |rows|
    ensures db.nextEpisodeId <= UpsertAllT(db, a, rows, hash).nextEpisodeId
    ensures UpsertAllT(db, a, rows, hash).episodes.Keys == db.episodes.Keys + BatchKeys(a, rows)
    ensures KeptOutside(db.episodes, UpsertAllT(db, a, rows, hash).episodes, BatchKeys(a, rows))
    ensures IdsKept(db.episodes, UpsertAllT(db, a, rows, hash).episodes)
    ensures forall k :: k in UpsertAllT(db, a, rows, hash).episodes && k !in db.episodes ==>
      db.nextEpisodeId <= UpsertAllT(db, a, rows, hash).episodes[k].id < UpsertAllT(db, a, rows, hash).nextEpisodeId
  {
    if rows != [] {
      var p := rows[..|rows| - 1];
      UpsertAllFrame(db, a, p, hash);
      BatchKeysSnoc(a, rows);
    } else {
      assert BatchKeys(a, rows) == {};
    }
  }

  /** A batch upsert leaves the Anime collection and its counter alone. */
  lemma {:induction false} UpsertAllAnimes(db: Db, a: AnimeId, rows: seq<EpisodeData>, hash: string)
    ensures UpsertAllT(db, a, rows, hash).animes == db.animes
    ensures UpsertAllT(db, a, rows, hash).nextAnimeId == db.nextAnimeId
  {
    if rows != [] {
      UpsertAllAnimes(db, a, rows[..|rows| - 1], hash);
    }
  }

  /** Every row the batch names carries `hash` and a stamp from this batch. */
  lemma {:induction false} UpsertAllStamped(db: Db, a: AnimeId, rows: seq<EpisodeData>, hash: string)
    ensures forall k :: k in BatchKeys(a, rows) ==>
      && k in UpsertAllT(db, a, rows, hash).episodes
      && UpsertAllT(db, a, rows, hash).episodes[k].sourceHash == hash
      && db.clock <= UpsertAllT(db, a, rows, hash).episodes[k].updatedAt < UpsertAllT(db, a, rows, hash).clock
  {
    if rows != [] {
      var p := rows[..|rows| - 1];
      UpsertAllStamped(db, a, p, hash);
      UpsertAllFrame(db, a, p, hash);
      BatchKeysSnoc(a, rows);
    } else {
      assert BatchKeys(a, rows) == {};
    }
  }

  /** Each key the batch names holds the title and type of the last batch entry with its number. */
  lemma {:induction false} UpsertAllLastWins(db: Db, a: AnimeId, rows: seq<EpisodeData>, hash: string)
    ensures forall i :: 0 <= i < |rows| && LastWith(rows, i) ==>
      && (a, rows[i].number) in UpsertAllT(db, a, rows, hash).episodes
      && UpsertAllT(db, a, rows, hash).episodes[(a, rows[i].number)].title == rows[i].title
      && UpsertAllT(db, a, rows, hash).episodes[(a, rows[i].number)].ty == rows[i].ty
  {
    if rows != [] {
      var p := rows[..|rows| - 1];
      var x := rows[|rows| - 1];
      UpsertAllLastWins(db, a, p, hash);
      var d := UpsertAllT(db, a, p, hash);
      var r := UpsertAllT(db, a, rows, hash);
      assert r == UpsertEpisodeT(d, a, x, hash);
      forall i | 0 <= i < |rows| && LastWith(rows, i)
        ensures (a, rows[i].number) in r.episodes
        ensures r.episodes[(a, rows[i].number)].title == rows[i].title
        ensures r.episodes[(a, rows[i].number)].ty == rows[i].ty
      {
        if i < |p| {
          assert rows[i] == p[i];
          assert LastWith(p, i);
          assert rows[i].number != x.number;
        }
      }
    }
  }

  /** One upsert for a stored anime keeps the store invariant. */
  lemma UpsertEpisodeValid(d: Db, a: AnimeId, e: EpisodeData, hash: string)
    requires Valid(d) && a < d.nextAnimeId
    ensures Valid(UpsertEpisodeT(d, a, e, hash))
  {
    var r := UpsertEpisodeT(d, a, e, hash);
    assert r.animes == d.animes && r.nextAnimeId == d.nextAnimeId;
    forall k | k in r.episodes ensures EpisodeRowValid(r.episodes, r.nextAnimeId, r.nextEpisodeId, r.clock, k) {
      if k != (a, e.number) {
        assert EpisodeRowValid(d.episodes, d.nextAnimeId, d.nextEpisodeId, d.clock, k);
      }
    }
  }

  /** A batch for a stored anime keeps the store invariant. */
  lemma {:induction false} UpsertAllValid(db: Db, a: AnimeId, rows: seq<EpisodeData>, hash: string)
    requires Valid(db) && a < db.nextAnimeId
    ensures Valid(UpsertAllT(db, a, rows, hash))
  {
    if rows != [] {
      var p := rows[..|rows| - 1];
      UpsertAllValid(db, a, p, hash);
      UpsertAllFrame(db, a, p, hash);
      UpsertEpisodeValid(UpsertAllT(db, a, p, hash), a, rows[|rows| - 1], hash);
    }
  }

  /** After a non-empty batch the last-written episode of the anime is one of the batch's. */
  lemma LatestAfterUpsertAll(db: Db, a: AnimeId, rows: seq<EpisodeData>, hash: string)
    requires Valid(db) && a < db.nextAnimeId && rows != []
    ensures Valid(UpsertAllT(db, a, rows, hash))
    ensures var r := UpsertAllT(db, a, rows, hash);
      Latest(r, a).Some? && Latest(r, a).value.sourceHash == hash
  {
    UpsertAllValid(db, a, rows, hash);
    var p := rows[..|rows| - 1];
    var x := rows[|rows| - 1];
    var d := UpsertAllT(db, a, p, hash);
    var r := UpsertAllT(db, a, rows, hash);
    var k := (a, x.number);
    assert k in r.episodes && r.episodes[k].updatedAt == d.clock && r.episodes[k].sourceHash == hash;
    assert r.clock == d.clock + 1;
    assert k in KeysOf(r, a);
    var e := Latest(r, a).value;
    assert EpisodeRowValid(r.episodes, r.nextAnimeId, r.nextEpisodeId, r.clock, (a, e.number));
    assert e.updatedAt == d.clock;
    assert r.episodes[(a, e.number)].updatedAt == r.episodes[k].updatedAt;
  }

  /** The episodes of anime `a` after a batch: the old ones plus the batch's keys. */
  lemma KeysOfAfterUpsertAll(db: Db, a: AnimeId, rows: seq<EpisodeData>, hash: string)
    ensures KeysOf(UpsertAllT(db, a, rows, hash), a) == KeysOf(db, a) + BatchKeys(a, rows)
    ensures forall b :: b != a ==> KeysOf(UpsertAllT(db, a, rows, hash), b) == KeysOf(db, b)
  {
    UpsertAllFrame(db, a, rows, hash);
  }

  /** With pairwise distinct numbers, a batch names as many keys as it has rows. */
  lemma {:induction false} BatchKeysCard(a: AnimeId, rows: seq<EpisodeData>)
    requires forall i, j :: 0 <= i < j < |rows| ==> rows[i].number != rows[j].number
    ensures |BatchKeys(a, rows)| == |rows|
  {
    if rows != [] {
      var p := rows[..|rows| - 1];
      BatchKeysCard(a, p);
      BatchKeysSnoc(a, rows);
      assert forall i :: 0 <= i < |p| ==> p[i] == rows[i];
      assert (a, rows[|rows| - 1].number) !in BatchKeys(a, p);
    } else {
      assert BatchKeys(a, rows) == {};
    }
  }

  // ---------------------------------------------------------------------------
  // Creating and saving an anime

  /**
   * Creating an anime whose slug is that of its title and not yet stored
   * never hits the unique index on `title`: a stored title with the same
   * trimmed text would have the same slug. It fails validation exactly when
   * the slug is empty.
   */
  lemma CreateFromTitle(db: Db, f: AnimeFields)
    requires Valid(db) && f.slug == Slugify(f.title) && f.slug !in db.animes
    ensures var (db', r) := CreateAnimeT(db, f);
      && (r.Err? <==> f.slug == [])
      && (r.Err? ==> r.error == ValidationError && db' == db)
      && (r.Ok? ==> r.value.id == db.nextAnimeId && r.value.slug == f.slug
                    && r.value.title == Trim(f.title)
                    && r.value.sourceUrl == f.sourceUrl.GetOr("")
                    && r.value.episodeCount == f.episodeCount.GetOr(0)
                    && r.value.lastScrapedAt == f.lastScrapedAt
                    && db' == db.(animes := db.animes[f.slug := r.value], nextAnimeId := db.nextAnimeId + 1)
                    && Valid(db'))
  {
    TrimProperties(f.title);
    if f.slug != [] {
      assert Trim(f.title) != [];
      var a := NewAnime(db.nextAnimeId, f).value;
      forall s | s in db.animes ensures db.animes[s].title != a.title {
        assert AnimeRowValid(db.animes, db.nextAnimeId, s);
      }
      var (db', r) := CreateAnimeT(db, f);
      assert r == Ok(a);
      forall s | s in db'.animes ensures AnimeRowValid(db'.animes, db'.nextAnimeId, s) {
        if s != f.slug {
          assert AnimeRowValid(db.animes, db.nextAnimeId, s);
        }
      }
    } else {
      assert NewAnime(db.nextAnimeId, f).None?;
    }
  }

  /** Replacing a document by one with the same `_id`, title and slug keeps the Anime collection valid. */
  lemma SaveAnimesValid(animes: map<string, Anime>, nextAnimeId: AnimeId, doc: Anime)
    requires AnimesValid(animes, nextAnimeId) && doc.slug in animes
    requires animes[doc.slug].id == doc.id && animes[doc.slug].title == doc.title
    ensures AnimesValid(animes[doc.slug := doc], nextAnimeId)
  {
    var r := animes[doc.slug := doc];
    forall s | s in r ensures AnimeRowValid(r, nextAnimeId, s) {
      assert AnimeRowValid(animes, nextAnimeId, s);
    }
    forall s, s' | s in r && s' in r && s != s'
      ensures r[s].id != r[s'].id && r[s].title != r[s'].title
    {
      assert r[s].id == animes[s].id && r[s].title == animes[s].title;
      assert r[s'].id == animes[s'].id && r[s'].title == animes[s'].title;
    }
  }

  /** Saving a document that keeps the stored `_id`, title and slug keeps the invariant. */
  lemma SaveValid(db: Db, doc: Anime)
    requires Valid(db) && doc.slug in db.animes
    requires db.animes[doc.slug].id == doc.id && db.animes[doc.slug].title == doc.title
    ensures Valid(SaveAnimeT(db, doc))
  {
    SaveAnimesValid(db.animes, db.nextAnimeId, doc);
  }

  /** The anime document `a` is what the store holds under its slug. */
  ghost predicate Stored(db: Db, a: Anime) {
    a.slug in db.animes && db.animes[a.slug] == a
  }

  /**
   * `Anime.findOne({ slug })`, then `Anime.create(fields)` when there is none.
   */
  function FindOrCreate(db: Db, f: AnimeFields): (Db, Result<Anime, StoreError>) {
    if f.slug in db.animes then (db, Ok(db.animes[f.slug])) else CreateAnimeT(db, f)
  }

  /**
   * For fields whose slug is that of their title, find-or-create keeps the
   * invariant and returns the stored document; only an empty slug fails.
   */
  lemma FindOrCreateSpec(db: Db, f: AnimeFields)
    requires Valid(db) && f.slug == Slugify(f.title)
    ensures Valid(FindOrCreate(db, f).0)
    ensures FindOrCreate(db, f).1.Err? <==> f.slug == []
    ensures FindOrCreate(db, f).1.Err? ==> FindOrCreate(db, f).1.error == ValidationError && FindOrCreate(db, f).0 == db
    ensures FindOrCreate(db, f).1.Ok? ==> Stored(FindOrCreate(db, f).0, FindOrCreate(db, f).1.value)
                                          && FindOrCreate(db, f).1.value.slug == f.slug
    ensures f.slug in db.animes ==> FindOrCreate(db, f) == (db, Ok(db.animes[f.slug]))
    ensures f.slug !in db.animes && FindOrCreate(db, f).1.Ok? ==>
      var a := FindOrCreate(db, f).1.value;
      && a.id == db.nextAnimeId
      && a.title == Trim(f.title)
      && a.sourceUrl == f.sourceUrl.GetOr("")
      && a.episodeCount == f.episodeCount.GetOr(0)
      && a.lastScrapedAt == f.lastScrapedAt
      && FindOrCreate(db, f).0 == db.(animes := db.animes[f.slug := a], nextAnimeId := db.nextAnimeId + 1)
  {
    if f.slug !in db.animes {
      CreateFromTitle(db, f);
    }
  }

  /** With a non-empty slug, find-or-create yields the document stored under that slug and changes no other anime. */
  lemma FindOrCreateAnimes(db: Db, f: AnimeFields)
    requires Valid(db) && f.slug == Slugify(f.title) && f.slug != []
    ensures FindOrCreate(db, f).1.Ok? && FindOrCreate(db, f).1.value.slug == f.slug
    ensures FindOrCreate(db, f).0.animes == db.animes[f.slug := FindOrCreate(db, f).1.value]
  {
    FindOrCreateSpec(db, f);
    if f.slug in db.animes {
      assert db.animes[f.slug := db.animes[f.slug]] == db.animes;
    }
  }

  // ---------------------------------------------------------------------------
  // The store as an object

  class Store {
    var animes: map<string, Anime>
    var episodes: map<EpKey, Episode>
    var clock: nat
    var nextAnimeId: AnimeId
    var nextEpisodeId: EpisodeId

    function State(): Db
      reads this
    {
      Db(animes, episodes, clock, nextAnimeId, nextEpisodeId)
    }

    /** An empty store. */
    constructor ()
      ensures State() == EmptyDb
    {
      animes, episodes := map[], map[];
      clock, nextAnimeId, nextEpisodeId := 0, 0, 0;
    }

    /** `Anime.create`. */
    method CreateAnime(f: AnimeFields) returns (r: Result<Anime, StoreError>)
      modifies this
      ensures (State(), r) == CreateAnimeT(old(State()), f)
    {
      var doc := NewAnime(nextAnimeId, f);
      if doc.None? {
        return Err(ValidationError);
      }
      var a := doc.value;
      if a.slug in animes || exists s :: s in animes && animes[s].title == a.title {
        return Err(DuplicateKey);
      }
      animes := animes[a.slug := a];
      nextAnimeId := nextAnimeId + 1;
      return Ok(a);
    }

    /** `Episode.findOneAndUpdate(..., { upsert: true })`. */
    method UpsertEpisode(a: AnimeId, e: EpisodeData, hash: string)
      modifies this
      ensures State() == UpsertEpisodeT(old(State()), a, e, hash)
    {
      var k := (a, e.number);
      if k in episodes {
        episodes := episodes[k := episodes[k].(title := e.title, ty := e.ty, sourceHash := hash, updatedAt := clock)];
      } else {
        var fields := EpisodeFields(Some(e.title), Some(e.ty), Some(hash));
        episodes := episodes[k := NewEpisode(nextEpisodeId, a, e.number, fields, clock)];
        nextEpisodeId := nextEpisodeId + 1;
      }
      clock := clock + 1;
    }

    /** The `for (const ep of episodes)` loop of upserts, one per entry, in order. */
    method UpsertAll(a: AnimeId, rows: seq<EpisodeData>, hash: string)
      modifies this
      ensures State() == UpsertAllT(old(State()), a, rows, hash)
    {
      ghost var start := State();
      for i := 0 to |rows|
        invariant State() == UpsertAllT(start, a, rows[..i], hash)
      {
        assert rows[..i + 1][..i] == rows[..i];
        UpsertEpisode(a, rows[i], hash);
      }
      assert rows[..|rows|] == rows;
    }

    /** `anime.save()`. */
    method SaveAnime(doc: Anime)
      modifies this
      ensures State() == SaveAnimeT(old(State()), doc)
    {
      animes := animes[doc.slug := doc];
    }
  }
}
