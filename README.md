# Anime episodes backend: the episode cache, modelled in Dafny

This project models the core of the anime-episodes backend. That core is the lazy cache that keeps each anime's episode list in step with an upstream filler dataset, plus the small pieces of logic around it:

- **Slug normaliser.** `slugify` turns a title into the anime's canonical id.
- **Episode extractor.** It flattens the dataset's canon, mixed and filler buckets into episodes numbered 1..n.
- **Cache reconciler.**
  - `ensureAnimeCached` looks an anime up by slug, or creates it.
  - `refreshEpisodesIfStale` fetches, fingerprints and upserts the episodes unless the fingerprint is unchanged.
- **Seed script.** It has its own upsert (`upsertAnimeWithEpisodes`), counts the stored rows, and seeds three fixed lists.
- **Watched list.** `setWatched` adds or removes episode ids on a user's list.
- **Anime endpoints.** These are:
  - the paginated, title-sorted catalogue;
  - search-or-create;
  - the episode list with watched marks.
- **Schemas.** The Anime and Episode collections: required fields, defaults, the `type` enum and the unique indexes.

The model is organised as follows.

- **The store.**
  - `EntityStore.Store` is a class whose fields are the two collections (keyed by slug and by `(anime, number)`), a write stamp, and the next free `_id`s.
  - Its methods are specified by value-level functions on the snapshot `EntityStore.Db`.
  - `EntityStore.Valid` is the invariant that carries the schemas' constraints.
- **The loops.** The source's imperative loops are methods with loop invariants, proved against those functions:
  - the extractor's `pushRange`;
  - the upsert loop of the refresh;
  - the upsert loop of the seed, and the seed itself.
- **Outside effects.** The network fetch, SHA-1 and the clock are parameters:
  - a `Fetcher` (slug to optional data);
  - a `Hasher` (JSON value to a non-empty digest);
  - a `Time`.
- **Handlers.** The Express handlers are functions from the store and the request to the new store and the reply. An exception passed to `next` becomes `ServerError`, which the error middleware answers with status 500.

Two behaviours of the code worth noting:

- **The refresh's `episodeCount`.** A refresh sets `episodeCount` to the length of the new extraction, not to the number of stored rows. The two differ when rows numbered beyond the new length remain from an earlier scrape. `Scraper.RefreshStoredCount` states exactly when they agree.
- **Extractions with no episodes.** Searching a title upstream knows can still leave `episodeCount` at 0: an extraction is empty when the dataset's `total` is falsy.

## Model

Source paths are relative to the repository root.

| member | source | states |
|---|---|---|
| Slug.LowerAll | anime-episodes-backend/services/scraper/animeScraper.js:11 | the lower-casing step, character by character (ASCII letters only, see "## Left out"); `SlugifyKeepsAlnum` and `SlugifyPlain` use it |
| Slug.Collapse | anime-episodes-backend/services/scraper/animeScraper.js:11 | the first replace: every maximal run of characters outside [a-z0-9] becomes one '-', everything else is kept; its shape is stated by `CollapseShape`, `CollapseDashed`, `CollapseSnoc`, `CollapsePlain` and `CollapseGap` |
| Slug.Strip | anime-episodes-backend/services/scraper/animeScraper.js:11 | the second replace: drops one leading and one trailing '-'; its shape is stated by `StripShape`, `StripDashCons` and `StripDashSnoc` |
| Slug.Slugify | anime-episodes-backend/services/scraper/animeScraper.js:10-12 | `slugify`, shared by the scraper and the seed script (seed.js lines 9-11): lower-case, collapse, strip; what it yields is stated by `SlugifyIsSlug`, `SlugifyIdempotent`, `SlugifyFixedPointsAreSlugs` and `SlugifyKeepsAlnum` |
| Slug.SlugifyIsSlug | anime-episodes-backend/services/scraper/animeScraper.js:10-12 | every slug consists of [a-z0-9-], has no "--" and has no '-' at either end |
| Slug.CollapseShape | anime-episodes-backend/services/scraper/animeScraper.js:11 | the run-collapsing replace yields only [a-z0-9-] with no "--"; it starts with '-' exactly when the input starts with a character outside [a-z0-9] |
| Slug.StripShape | anime-episodes-backend/services/scraper/animeScraper.js:11 | stripping one leading and one trailing '-' from such a string yields a slug |
| Slug.CollapseDashed | anime-episodes-backend/services/scraper/animeScraper.js:11 | the replace leaves a string of [a-z0-9-] without "--" unchanged |
| Slug.SlugFixedPoint | anime-episodes-backend/services/scraper/animeScraper.js:10-12 | slugify leaves a slug unchanged |
| Slug.SlugifyIdempotent | anime-episodes-backend/services/scraper/animeScraper.js:10-12 | slugify(slugify(s)) == slugify(s) |
| Slug.SlugifyFixedPointsAreSlugs | anime-episodes-backend/services/scraper/animeScraper.js:10-12 | slugify(s) == s exactly when s is a slug |
| Slug.AlnumAppend | anime-episodes-backend/services/scraper/animeScraper.js:11 | the letters and digits of a concatenation are those of the parts |
| Slug.AlnumCollapse | anime-episodes-backend/services/scraper/animeScraper.js:11 | collapsing keeps every letter and digit, in order |
| Slug.AlnumStrip | anime-episodes-backend/services/scraper/animeScraper.js:11 | stripping dashes keeps every letter and digit |
| Slug.SlugifyKeepsAlnum | anime-episodes-backend/services/scraper/animeScraper.js:10-12 | the letters and digits of the slug are those of the ASCII-lower-cased input, in order |
| Slug.StripDashCons | anime-episodes-backend/services/scraper/animeScraper.js:11 | a leading character outside [a-z0-9] does not change the slug (stripping step) |
| Slug.StripDashSnoc | anime-episodes-backend/services/scraper/animeScraper.js:11 | a trailing character outside [a-z0-9] does not change the slug (stripping step) |
| Slug.SlugifyDropFirst | anime-episodes-backend/services/scraper/animeScraper.js:10-12 | prefixing a character outside [a-zA-Z0-9] leaves the slug unchanged |
| Slug.CollapseSnoc | anime-episodes-backend/services/scraper/animeScraper.js:11 | appending a character outside [a-z0-9] adds one trailing '-' to the collapsed string unless it already ends in one |
| Slug.CollapsePlain | anime-episodes-backend/services/scraper/animeScraper.js:11 | a prefix of [a-z0-9] passes through the run-collapsing replace unchanged |
| Slug.CollapseGap | anime-episodes-backend/services/scraper/animeScraper.js:11 | a character outside [a-z0-9] before a slug character becomes a single '-' |
| Slug.SlugifyDropLast | anime-episodes-backend/services/scraper/animeScraper.js:10-12 | appending a character outside [a-zA-Z0-9] leaves the slug unchanged |
| Slug.SlugifyNaruto | anime-episodes-backend/services/scraper/animeScraper.js:10-12 | "Naruto!" becomes "naruto" |
| Slug.SlugifySpacedDashes | anime-episodes-backend/services/scraper/animeScraper.js:10-12 | "  A--B  " becomes "a-b" |
| Slug.LowerOnePiece | anime-episodes-backend/services/scraper/animeScraper.js:11 | lower-casing "One Piece" gives "one piece" |
| Slug.SlugifyOnePiece | anime-episodes-backend/services/scraper/animeScraper.js:10-12 | "One Piece" becomes "one-piece" |
| Models.TypeName | anime-episodes-backend/models/Episode.js:7 | an episode's stored type is one of canon, filler, mixed, unknown |
| Models.TypeNameInjective | anime-episodes-backend/models/Episode.js:7 | distinct enum values are stored as distinct strings |
| Models.Trim | anime-episodes-backend/models/Anime.js:4 | the schema's `trim` setter: removes ECMAScript white space from both ends; `TrimProperties` states the result |
| Models.TrimStartShape | anime-episodes-backend/models/Anime.js:4 | trimming the start leaves no leading white space and does not change the slug |
| Models.TrimEndShape | anime-episodes-backend/models/Anime.js:4 | trimming the end leaves no trailing white space, keeps a non-space first character, and does not change the slug |
| Models.TrimProperties | anime-episodes-backend/models/Anime.js:4 | the schema's trimmed title has no white space at either end and has the same slug as the raw title |
| Models.NewAnime | anime-episodes-backend/models/Anime.js:3-10 | a create validates exactly when the trimmed title and the slug are non-empty; the document then has the given id and slug, a trimmed title with the same slug, `sourceUrl` defaulting to "", `episodeCount` defaulting to 0, and `lastScrapedAt` as given |
| Models.NewEpisode | anime-episodes-backend/models/Episode.js:3-9 | an inserted episode has its anime, number, id and stamp; `title` and `sourceHash` default to "" and `type` to unknown |
| Decimal.DigitChar | anime-episodes-backend/services/scraper/animeScraper.js:41 | each digit renders as the matching decimal character |
| Decimal.NatToString | anime-episodes-backend/services/scraper/animeScraper.js:41 | `${number}` is a non-empty string of decimal digits with no leading zero |
| Decimal.NatToStringRoundTrip | anime-episodes-backend/services/scraper/animeScraper.js:41 | reading the rendered digits back gives the number |
| Decimal.NatToStringInjective | anime-episodes-backend/services/scraper/animeScraper.js:41 | different numbers render differently, so placeholder titles are distinct |
| Fingerprint.ScraperJson | anime-episodes-backend/services/scraper/animeScraper.js:91 | the JSON value the refresh hashes: an array with one `{number, title, type}` object per extracted episode, in order |
| Fingerprint.SeedJson | anime-episodes-backend/scripts/seed.js:38 | the JSON value the seed hashes: an array with one `{n, t, ty}` object per listed episode, in order |
| Fingerprint.ScraperJsonInjective | anime-episodes-backend/services/scraper/animeScraper.js:91 | the scraper's `{number,title,type}` serialisation changes with any change of number, title, type, order or length |
| Fingerprint.SeedJsonInjective | anime-episodes-backend/scripts/seed.js:38 | the seed's `{n,t,ty}` serialisation changes likewise |
| Fingerprint.SerialisationsDiffer | anime-episodes-backend/scripts/seed.js:38 | the two serialisations coincide only for two empty lists |
| Extractor.TitleOr | anime-episodes-backend/services/scraper/animeScraper.js:41 | an entry's title when present and non-empty, else "Episode n" for its number n |
| Extractor.Pushed | anime-episodes-backend/services/scraper/animeScraper.js:39-44 | one episode per entry of a bucket, numbered on from the counter, with the bucket's type and `TitleOr` title; `PushRange` is proved to compute it |
| Extractor.Extracted | anime-episodes-backend/services/scraper/animeScraper.js:35-54 | the reference extraction: the canon, mixed and filler entries in that order (none when `total` is falsy, an absent bucket counting as empty), the i-th numbered i+1; `ExtractedShape` states it in closed form and `ExtractEpisodesFromData` is proved to compute it |
| Extractor.ExtractedShape | anime-episodes-backend/services/scraper/animeScraper.js:35-54 | the length is the sum of the bucket sizes (0 when `total` is falsy); numbers are exactly 1..n in order; the types are canon, then mixed, then filler; each title is the entry's own non-empty title or "Episode n", so it is never empty |
| Extractor.ExtractedDistinct | anime-episodes-backend/services/scraper/animeScraper.js:37-43 | no two extracted episodes share a number |
| Extractor.PushRange | anime-episodes-backend/services/scraper/animeScraper.js:39-44 | the loop appends one episode per entry, numbered on from the counter with the bucket's type, and advances the counter by the bucket size |
| Extractor.ExtractEpisodesFromData | anime-episodes-backend/services/scraper/animeScraper.js:35-54 | the imperative extraction, with its counter and the three `pushRange` calls, returns exactly `Extracted(data)` |
| Extractor.ExtractThreeBuckets | anime-episodes-backend/services/scraper/animeScraper.js:46-51 | one entry per bucket gives episodes 1, 2, 3 typed canon, mixed, filler |
| Extractor.ExtractNoTotalOrMissingBucket | anime-episodes-backend/services/scraper/animeScraper.js:46-50 | a falsy `total` gives nothing; an absent bucket counts as empty |
| Extractor.ExtractPlaceholderTitles | anime-episodes-backend/services/scraper/animeScraper.js:41 | missing and empty titles become "Episode 1" and "Episode 2" |
| EntityStore.AnimesValid | anime-episodes-backend/models/Anime.js:3-10 | the Anime collection's invariant: each document sits under its slug, which is non-empty and the slug of its title; the title is non-empty and trimmed; the id is below the next id; ids and titles are unique (the `unique` indexes) |
| EntityStore.EpisodesValid | anime-episodes-backend/models/Episode.js:3-11 | the Episode collection's invariant: each row sits under its own `(anime, number)` key (the unique index), belongs to an anime id already handed out, and has an id below the next id and a stamp below the clock; ids and stamps are unique |
| EntityStore.Valid | anime-episodes-backend/models/Anime.js:3-10 | the store invariant: both collections' invariants (`AnimesValid`, `EpisodesValid`); every operation is proved to keep it |
| EntityStore.EmptyDbValid | anime-episodes-backend/models/Anime.js:3-10 | an empty store meets the schema invariant |
| EntityStore.LatestExists | anime-episodes-backend/services/scraper/animeScraper.js:93 | a non-empty set of an anime's episodes has one written last |
| EntityStore.Latest | anime-episodes-backend/services/scraper/animeScraper.js:93 | the most recently updated episode: None exactly when the anime has no episodes; otherwise a stored episode of that anime with the greatest stamp |
| EntityStore.FindById | anime-episodes-backend/controllers/animeController.js:58 | finds a document exactly when one with that `_id` is stored, and returns that stored document |
| EntityStore.FirstKeyExists | anime-episodes-backend/controllers/animeController.js:65 | a non-empty key set has one with the least number |
| EntityStore.SortedKeys | anime-episodes-backend/controllers/animeController.js:65 | the anime's keys, each exactly once, in strictly ascending number |
| EntityStore.SortedKeysCovers | anime-episodes-backend/controllers/animeController.js:65 | every key of the anime is in the sorted key list |
| EntityStore.RowsKeyed | anime-episodes-backend/models/Episode.js:11 | every stored episode sits under its own unique `(anime, number)` key |
| EntityStore.RowsAt | anime-episodes-backend/controllers/animeController.js:65 | the documents at the given keys, in the keys' order |
| EntityStore.EpisodesOf | anime-episodes-backend/controllers/animeController.js:65 | the anime's stored episodes: each one once, in strictly ascending number, as many as it has keys |
| EntityStore.BatchKeysSnoc | anime-episodes-backend/services/scraper/animeScraper.js:101-107 | the keys a batch touches grow by the last row's key |
| EntityStore.UpsertAllFrame | anime-episodes-backend/services/scraper/animeScraper.js:101-107 | a batch upsert leaves the Anime collection and its id counter alone; the keys become old keys plus the batch's; rows outside the batch are unchanged; every row keeps its `_id`; new rows get fresh ids; the stamp advances by one per row |
| EntityStore.UpsertAllAnimes | anime-episodes-backend/services/scraper/animeScraper.js:101-107 | a batch upsert leaves the Anime collection and the next anime id unchanged |
| EntityStore.UpsertAllStamped | anime-episodes-backend/services/scraper/animeScraper.js:101-107 | every key the batch names carries the batch's hash and a stamp from this batch |
| EntityStore.UpsertAllLastWins | anime-episodes-backend/scripts/seed.js:41-53 | each key holds the title and type of the last batch entry with that number |
| EntityStore.UpsertAllValid | anime-episodes-backend/models/Episode.js:11 | a batch for a stored anime keeps the invariant, including one row per `(anime, number)` |
| EntityStore.UpsertEpisodeValid | anime-episodes-backend/models/Episode.js:11 | one keyed upsert for a stored anime keeps the invariant |
| EntityStore.LatestAfterUpsertAll | anime-episodes-backend/services/scraper/animeScraper.js:93-94 | after a non-empty batch, the anime's most recently updated episode carries the batch's hash |
| EntityStore.KeysOfAfterUpsertAll | anime-episodes-backend/services/scraper/animeScraper.js:101-107 | the anime's keys become its old keys plus the batch's; other animes' keys are unchanged |
| EntityStore.BatchKeysCard | anime-episodes-backend/scripts/seed.js:41-53 | a batch with distinct numbers touches as many keys as it has rows |
| EntityStore.CreateAnimeT | anime-episodes-backend/models/Anime.js:3-10 | `Anime.create`: a validation error when `NewAnime` rejects the fields; a duplicate-key error when the slug or the trimmed title is already stored; otherwise the new document is stored under its slug with the next id; `CreateFromTitle` states when each case occurs |
| EntityStore.UpsertEpisodeT | anime-episodes-backend/services/scraper/animeScraper.js:102-106 | one keyed upsert: the row under `(anime, number)` gets the new title, type and hash, or a new row with the next id is inserted; either way it takes the next stamp; `UpsertEpisodeValid` shows it keeps the invariant |
| EntityStore.UpsertAllT | anime-episodes-backend/services/scraper/animeScraper.js:101-107 | the upsert loop: `UpsertEpisodeT` for each row of the batch, in order; its effect is stated by `UpsertAllFrame`, `UpsertAllStamped`, `UpsertAllLastWins` and `UpsertAllValid` |
| EntityStore.SaveAnimeT | anime-episodes-backend/services/scraper/animeScraper.js:111 | `anime.save()`: the document replaces the one stored under its slug; `SaveValid` shows it keeps the invariant |
| EntityStore.FindOrCreate | anime-episodes-backend/services/scraper/animeScraper.js:60-71 | the document stored under the slug, else `CreateAnimeT`; `FindOrCreateSpec` states its result |
| EntityStore.CreateFromTitle | anime-episodes-backend/services/scraper/animeScraper.js:63-71 | creating from a title under its own, unstored slug never hits the unique `title` index; it fails validation exactly when the slug is empty; a success inserts one document with the next id and keeps the invariant |
| EntityStore.SaveValid | anime-episodes-backend/services/scraper/animeScraper.js:109-111 | saving a stored document with the same identity fields keeps the invariant |
| EntityStore.SaveAnimesValid | anime-episodes-backend/services/scraper/animeScraper.js:109-111 | in the Anime collection alone: replacing a stored document by one with the same slug, id and title keeps distinct ids and titles and valid documents |
| EntityStore.FindOrCreateSpec | anime-episodes-backend/services/scraper/animeScraper.js:60-71 | lookup by slug, else create: the invariant holds; it fails with a validation error exactly when the slug is empty, changing nothing; it returns the stored document when there is one, otherwise inserts one with the next id, the trimmed title and the given field values |
| EntityStore.FindOrCreateAnimes | anime-episodes-backend/services/scraper/animeScraper.js:60-71 | for a non-empty slug the lookup-or-create succeeds with that slug, and the Anime collection gains or keeps exactly that document |
| EntityStore.Store.constructor | anime-episodes-backend/models/Anime.js:3-10 | a new store is empty |
| EntityStore.Store.CreateAnime | anime-episodes-backend/models/Anime.js:3-10 | `Anime.create` changes the store as `CreateAnimeT` says: a validation error, a duplicate key, or one insertion |
| EntityStore.Store.UpsertEpisode | anime-episodes-backend/services/scraper/animeScraper.js:102-106 | the keyed upsert overwrites title, type and hash of the row with that key, or inserts one with fresh id; either way with the next stamp |
| EntityStore.Store.UpsertAll | anime-episodes-backend/services/scraper/animeScraper.js:101-107 | the upsert loop over a batch leaves the store as `UpsertAllT` gives |
| EntityStore.Store.SaveAnime | anime-episodes-backend/services/scraper/animeScraper.js:111 | `anime.save()` replaces the document under its slug |
| Scraper.LastHash | anime-episodes-backend/services/scraper/animeScraper.js:93-94 | `lastHash` is '' when the anime has no episodes, and a non-empty `lastHash` is the hash stored on one of its episodes |
| Scraper.Refresh | anime-episodes-backend/services/scraper/animeScraper.js:83-114 | the reference refresh: nothing written when the fetch gives nothing (count is the old `episodeCount`) or when the new digest equals `LastHash` and the anime was scraped (count is the extraction's length); otherwise the extraction is upserted with the new digest and the document saved with `episodeCount` n and the scrape time; stated by `RefreshSkips`, `RefreshWrites`, `RefreshValid` and `RefreshTwice` |
| Scraper.EnsureCached | anime-episodes-backend/services/scraper/animeScraper.js:59-78 | the reference `ensureAnimeCached`: `FindOrCreate` with the title, its slug and the show's page as `sourceUrl`, then `Refresh` when `prefetch` is set and the lookup succeeded; stated by `EnsureFound`, `EnsureCreates`, `EnsureFails` and `EnsureValid` |
| Scraper.RefreshEpisodesIfStale | anime-episodes-backend/services/scraper/animeScraper.js:83-114 | the imperative refresh, with its upsert loop, leaves the store, document and result that `Refresh` gives |
| Scraper.EnsureAnimeCached | anime-episodes-backend/services/scraper/animeScraper.js:59-78 | the imperative lookup-or-create-then-refresh leaves the store and result that `EnsureCached` gives |
| Scraper.RangeKeysCard | anime-episodes-backend/services/scraper/animeScraper.js:101-107 | the keys 1..n are n keys |
| Scraper.NumberedKeys | anime-episodes-backend/services/scraper/animeScraper.js:101-107 | a batch numbered 1..n in order writes exactly the keys 1..n, each row being the last one with its number |
| Scraper.UpsertNumbered | anime-episodes-backend/services/scraper/animeScraper.js:101-107 | upserting a batch numbered 1..n adds the keys 1..n, writes each row's title, type and the hash under its number, leaves other rows unchanged and keeps every id |
| Scraper.RefreshSkips | anime-episodes-backend/services/scraper/animeScraper.js:84-98 | nothing is written exactly when upstream has nothing, or when the new hash equals `lastHash` and the anime was scraped; then store and document are unchanged; `count` is the old `episodeCount` when upstream has nothing and the extraction's length otherwise |
| Scraper.RefreshFirstTimeWrites | anime-episodes-backend/services/scraper/animeScraper.js:94-96 | when upstream has data, an anime never scraped or with no episodes is always written, since a digest is never '' |
| Scraper.RefreshWrites | anime-episodes-backend/services/scraper/animeScraper.js:100-113 | on the change path every number k in 1..n holds the extracted title and type and the hash of the scraper serialisation; the anime's keys grow by 1..n; other rows are untouched and every row keeps its id; only the document changes in the Anime collection, getting `episodeCount` n and a scrape time; the result is (true, n) |
| Scraper.RefreshValid | anime-episodes-backend/services/scraper/animeScraper.js:83-114 | a refresh keeps the invariant and leaves the returned document stored, with its identity unchanged |
| Scraper.RefreshTwice | anime-episodes-backend/services/scraper/animeScraper.js:93-98 | refreshing again with the same non-empty upstream data writes nothing and reports the same count |
| Scraper.LatestSameEpisodes | anime-episodes-backend/services/scraper/animeScraper.js:93 | the latest-episode lookup depends only on the Episode collection |
| Scraper.RefreshAnimeFrame | anime-episodes-backend/services/scraper/animeScraper.js:109-111 | only the refreshed document changes in the Anime collection, keeping id, slug and title; a write adds the keys 1..n |
| Scraper.RefreshAnimes | anime-episodes-backend/services/scraper/animeScraper.js:100-111 | a refresh changes the Anime collection only by saving the refreshed document on the change path; that document keeps id, slug, title and `sourceUrl` |
| Scraper.UnionWithRange | anime-episodes-backend/services/scraper/animeScraper.js:101-107 | adding keys 1..n gives at least n keys, and exactly n when the old keys lie within 1..n |
| Scraper.RefreshStoredCount | anime-episodes-backend/services/scraper/animeScraper.js:101-111 | after a write the stored row count is at least `count`, and equal exactly when no old row is numbered outside 1..n: rows are not pruned |
| Scraper.EnsureFound | anime-episodes-backend/services/scraper/animeScraper.js:60-61 | a stored slug is reused: no anime is created, its id is returned, and without prefetch nothing changes |
| Scraper.EnsureCreates | anime-episodes-backend/services/scraper/animeScraper.js:63-71 | a new non-empty slug creates exactly one anime: trimmed title, the show's page as `sourceUrl`, the next id; without prefetch it has count 0, no scrape time, and no episode written |
| Scraper.EnsureFails | anime-episodes-backend/services/scraper/animeScraper.js:64-70 | the call fails exactly when the slug is empty (validation), changing nothing |
| Scraper.EnsureValid | anime-episodes-backend/services/scraper/animeScraper.js:59-78 | the invariant is kept and the returned document is stored under the title's slug |
| Scraper.EnsureSameSlug | anime-episodes-backend/services/scraper/animeScraper.js:60-61 | two titles with the same slug reach the same anime, and the second call creates none |
| Scraper.EnsureOnePieceOnEmptyStore | anime-episodes-backend/services/scraper/animeScraper.js:59-78 | "One Piece" on an empty store leaves one anime, "one-piece", whose count is the extraction's length, or 0 when upstream has nothing |
| Seed.SeedUpsert | anime-episodes-backend/scripts/seed.js:20-63 | the reference seed upsert: `FindOrCreate` with `opts.sourceUrl` or the show's page, the batch upsert with the digest of `SeedJson`, then the document saved with `episodeCount` its stored row count and the scrape time; stated by `SeedValid`, `SeedFails`, `SeedWrites` and `SeedFindsOrCreates` |
| Seed.UpsertAnimeWithEpisodes | anime-episodes-backend/scripts/seed.js:20-63 | the imperative seed upsert, with its loop, leaves the store and result that `SeedUpsert` gives |
| Seed.SeedValid | anime-episodes-backend/scripts/seed.js:20-63 | the invariant is kept and the returned document is stored under the title's slug |
| Seed.SeedFails | anime-episodes-backend/scripts/seed.js:24-31 | it fails exactly when the slug is empty, changing nothing |
| Seed.SeedWrites | anime-episodes-backend/scripts/seed.js:38-58 | every listed key carries the one hash of the whole `{n,t,ty}` list and the title and type of its last entry; other rows are untouched; the keys grow by the listed ones; `episodeCount` is the anime's stored row count; `lastScrapedAt` is set |
| Seed.SeedFindsOrCreates | anime-episodes-backend/scripts/seed.js:21-31 | a stored slug is reused with its id and `sourceUrl`; a new slug creates one anime with the next id, trimmed title, and `opts.sourceUrl` when non-empty or else the show's page |
| Seed.SeedAnimes | anime-episodes-backend/scripts/seed.js:21-58 | for a non-empty slug the seed upsert succeeds, and the Anime collection changes only at that slug, to the returned document |
| Seed.SeedRerun | anime-episodes-backend/scripts/seed.js:41-57 | re-running the same upsert adds no anime and no episode and records the same count |
| Seed.SeedNewCount | anime-episodes-backend/scripts/seed.js:56-57 | a new anime seeded with distinct numbers gets a count equal to the list's length and to its stored rows |
| Slug.SlugifyPlain | anime-episodes-backend/services/scraper/animeScraper.js:10-12 | a title whose lower-cased form is all [a-z0-9] slugifies to that form |
| Slug.LowerNarutoBleach | anime-episodes-backend/scripts/seed.js:76-83 | "Naruto" and "Bleach" lower-case to "naruto" and "bleach" |
| Seed.SeedSlugs | anime-episodes-backend/scripts/seed.js:76-91 | the three seed titles slugify to "naruto", "bleach" and "one-piece" |
| Seed.SeedNew | anime-episodes-backend/scripts/seed.js:20-63 | seeding a new anime with distinct numbers adds exactly that anime, with one episode per entry, and keeps the invariant |
| Seed.SeedListsDistinct | anime-episodes-backend/scripts/seed.js:76-97 | each fixed list numbers its entries distinctly |
| Seed.SeedStep | anime-episodes-backend/scripts/seed.js:20-63 | one seed upsert keeps the invariant, succeeds exactly when the slug is non-empty, and for a new slug with distinct numbers adds exactly that anime to the Anime collection, counted by list length |
| Seed.SeedThree | anime-episodes-backend/scripts/seed.js:75-97 | three such steps from an empty Anime collection with distinct slugs leave exactly those three animes, counted by list length |
| Seed.SeedCatalogue | anime-episodes-backend/scripts/seed.js:75-97 | three upserts in order keep the invariant; on a store without anime, three distinct non-empty slugs and lists with distinct numbers leave exactly those three animes, counted by list length |
| Seed.FixedListsQualify | anime-episodes-backend/scripts/seed.js:76-97 | the fixed data meets the conditions of `SeedCatalogue`: three distinct slugs "naruto", "bleach" and "one-piece", and lists of 3, 4 and 5 entries with distinct numbers, so seeding it on an empty store records those counts |
| Seed.SeedKeepsOthers | anime-episodes-backend/scripts/seed.js:20-63 | every other anime's document is left as it was |
| EpisodeController.Watch | anime-episodes-backend/controllers/episodeController.js:13-16 | marking watched: the list unchanged when it holds the id, else the id appended; `WatchEffect` states the result |
| EpisodeController.Unwatch | anime-episodes-backend/controllers/episodeController.js:18 | marking unwatched: every occurrence of the id removed, the rest kept in order; `UnwatchEffect` and `UnwatchAppend` state the result |
| EpisodeController.WatchEffect | anime-episodes-backend/controllers/episodeController.js:13-16 | after marking watched the id is on the list, the old list is a prefix, other ids' counts are unchanged, and the id occurs once if it was absent, so no duplicate is introduced |
| EpisodeController.WatchIdempotent | anime-episodes-backend/controllers/episodeController.js:13-16 | marking watched twice is marking it once |
| EpisodeController.WatchNoDuplicates | anime-episodes-backend/controllers/episodeController.js:13-16 | a list without duplicates stays without duplicates |
| EpisodeController.UnwatchEffect | anime-episodes-backend/controllers/episodeController.js:17-18 | after unmarking the id is absent and every other id occurs as often as before |
| EpisodeController.UnwatchAbsent | anime-episodes-backend/controllers/episodeController.js:17-18 | unmarking an absent id leaves the list unchanged |
| EpisodeController.UnwatchAppend | anime-episodes-backend/controllers/episodeController.js:18 | the filter acts element by element over concatenation, so the other ids keep their order |
| EpisodeController.UnwatchIdempotent | anime-episodes-backend/controllers/episodeController.js:17-18 | unmarking twice is unmarking once |
| EpisodeController.UnwatchUndoesWatch | anime-episodes-backend/controllers/episodeController.js:13-18 | marking then unmarking gives the same list as unmarking |
| EpisodeController.User.constructor | anime-episodes-backend/controllers/episodeController.js:10 | a user holds the given watched list |
| EpisodeController.SetWatched | anime-episodes-backend/controllers/episodeController.js:5-23 | a non-boolean `watched` gives 400 with the list unchanged; a missing user gives 401; otherwise the list becomes the add-if-absent or remove-all result and the reply carries it |
| AnimeController.PagingOf | anime-episodes-backend/controllers/animeController.js:8-10 | page defaults to 1 and limit to 50 when parsed as NaN or 0, so neither is 0; skip = (page-1)*limit |
| AnimeController.Pages | anime-episodes-backend/controllers/animeController.js:28 | `Math.ceil(total/limit)`: for a positive limit pages*limit >= total > (pages-1)*limit, for a negative one the mirror image, and 0 pages when total is 0 |
| AnimeController.TitleLess | anime-episodes-backend/controllers/animeController.js:13 | the ascending title order of the sort: lexicographic by code point (a proper prefix first), MongoDB's default binary string order; proved a strict total order |
| AnimeController.TitleLessIrreflexive | anime-episodes-backend/controllers/animeController.js:13 | no title sorts before itself |
| AnimeController.TitleLessTransitive | anime-episodes-backend/controllers/animeController.js:13 | the title order is transitive |
| AnimeController.TitleLessTotal | anime-episodes-backend/controllers/animeController.js:13 | any two distinct titles are ordered |
| AnimeController.TitleLessAsymmetric | anime-episodes-backend/controllers/animeController.js:13 | the title order is asymmetric |
| AnimeController.ValidCatalogued | anime-episodes-backend/models/Anime.js:4-5 | the unique `title` and `slug` indexes give one document per slug and distinct titles |
| AnimeController.LeastExists | anime-episodes-backend/controllers/animeController.js:13 | among distinct titles one sorts first |
| AnimeController.First | anime-episodes-backend/controllers/animeController.js:13 | picks the anime whose title sorts first |
| AnimeController.SortedByTitle | anime-episodes-backend/controllers/animeController.js:13 | as many documents as the set holds, each from the set |
| AnimeController.SortedByTitleOrdered | anime-episodes-backend/controllers/animeController.js:13 | the listing is in strictly ascending title order |
| AnimeController.SortedByTitleCovers | anime-episodes-backend/controllers/animeController.js:12-13 | every document of the set is in the listing |
| AnimeController.ValuesCard | anime-episodes-backend/models/Anime.js:4-5 | a map whose keys hold distinct documents has as many documents as keys |
| AnimeController.CatalogueDocuments | anime-episodes-backend/controllers/animeController.js:12 | under the unique indexes the stored documents have distinct titles, are as many as the slugs and are each stored |
| AnimeController.Catalogue | anime-episodes-backend/controllers/animeController.js:12-13 | `find({}).sort({title:1})`: every stored anime exactly once, in strictly ascending title order |
| AnimeController.CatalogueCovers | anime-episodes-backend/controllers/animeController.js:12 | every stored anime is in the catalogue |
| AnimeController.SortedUnique | anime-episodes-backend/controllers/animeController.js:13 | two strictly title-sorted listings of the same documents are equal, so the sort's result is determined |
| AnimeController.Window | anime-episodes-backend/controllers/animeController.js:14-16 | `.skip(s).limit(n)`: at most n documents, those at positions s, s+1, …, reduced to the selected fields |
| AnimeController.ListingShape | anime-episodes-backend/controllers/animeController.js:13-28 | for a non-zero limit the reply errs exactly when skip < 0; otherwise it carries the pagination and the summaries of entries skip, skip+1, … of the sorted listing, \|limit\| of them or fewer at the end |
| AnimeController.ListingOf | anime-episodes-backend/controllers/animeController.js:13-28 | the reply for one page: an error when skip < 0, else the window of \|limit\| entries at skip with the pagination; `ListingShape` states it |
| AnimeController.ListAllAnime | anime-episodes-backend/controllers/animeController.js:6-32 | `listAllAnime`: `ListingOf` over the title-sorted catalogue, the number of stored animes and the parsed paging; `ListPage`, `ListPageOrdered` and `ListEveryAnimeOnItsPage` state its reply |
| AnimeController.ListPage | anime-episodes-backend/controllers/animeController.js:6-32 | the listing errs exactly when skip < 0; otherwise it is the page of \|limit\| titles from offset skip of the title-sorted catalogue, truncated at the end, with pagination (page, limit, total, pages) |
| AnimeController.WindowOrdered | anime-episodes-backend/controllers/animeController.js:13-15 | a window of a title-sorted listing of stored animes is title-sorted, and each entry is the summary of the anime stored under its slug |
| AnimeController.ListPageOrdered | anime-episodes-backend/controllers/animeController.js:12-17 | a page lists stored animes in ascending title order |
| AnimeController.ListEveryAnimeOnItsPage | anime-episodes-backend/controllers/animeController.js:8-28 | with a positive limit, the anime at position i of the title order is entry i mod limit of page i/limit+1, and that page is within `pages` |
| AnimeController.PageOfPosition | anime-episodes-backend/controllers/animeController.js:8-28 | position i falls on page i/limit+1 at entry i mod limit, within the page's length and within `pages` |
| AnimeController.ListDefaults | anime-episodes-backend/controllers/animeController.js:8-10 | with no query, page 1 of size 50 lists min(total, 50) animes |
| AnimeController.SearchOrCreateAnime | anime-episodes-backend/controllers/animeController.js:35-52 | `searchOrCreateAnime`: 400 for a missing or empty `q`, else `EnsureCached` with prefetch, replying with the document's id, title, slug and count, or a server error when the create fails; stated by `SearchMissingQ` and `SearchFindsOrCreates` |
| AnimeController.SearchMissingQ | anime-episodes-backend/controllers/animeController.js:37-38 | a missing or empty `q` gives 400 "Missing q param" and changes nothing |
| AnimeController.SearchFindsOrCreates | anime-episodes-backend/controllers/animeController.js:40-49 | a non-empty `q` errs exactly when its slug is empty, changing nothing; otherwise the invariant holds and the reply is the stored anime with that slug: the existing one's id, or the next id for a new one |
| AnimeController.MarkWatched | anime-episodes-backend/controllers/animeController.js:68-74 | every episode is kept in place; it gets a `__watched` mark exactly when the user's list is present and non-empty, and the mark is true exactly when its id is listed |
| AnimeController.GetEpisodes | anime-episodes-backend/controllers/animeController.js:55-78 | `getEpisodes`: 404 for an unknown id, else `Refresh` and then the anime's stored episodes by ascending number, marked with `MarkWatched`; stated by `GetEpisodesNotFound` and `GetEpisodesFound` |
| AnimeController.GetEpisodesNotFound | anime-episodes-backend/controllers/animeController.js:58-59 | an unknown id gives 404 "Anime not found" before any refresh, changing nothing |
| AnimeController.MarkedListing | anime-episodes-backend/controllers/animeController.js:65-74 | marking a number-sorted read of the anime's rows lists every stored episode once, in ascending number, with its mark |
| AnimeController.EpisodeListing | anime-episodes-backend/controllers/animeController.js:65-74 | reading and marking an anime's episodes gives such a listing |
| AnimeController.GetEpisodesFound | anime-episodes-backend/controllers/animeController.js:55-77 | a known id is refreshed first, keeping the invariant; the reply lists the episodes stored after the refresh, once each, in ascending number, with their marks |

## Left out

- The network fetch (`fetchFillerJSON`) is the `Fetcher` parameter. Every failure, including a missing dataset, is None.
- SHA-1 and `JSON.stringify` are not modelled. For payloads of the documented shape the hashed JSON values are modelled exactly; the digest is an arbitrary deterministic function with a non-empty result.
- Extractor.RawData: only the documented payload shape is modelled: each bucket is absent, falsy or an array of objects whose `title` is absent or a string. Malformed buckets or entries are excluded: a `null` entry or a non-iterable bucket makes the extractor throw (a 500, since it runs outside the fetch's `try`), a string bucket is iterated character by character, and a non-string title is hashed as it is and cast by Mongoose.
- `new Date()` is a `Time` parameter. The Episode `timestamps` are a write stamp (`updatedAt`) that increases with every write; `createdAt` is not modelled.
- MongoDB and Mongoose are modelled as in-memory maps. This leaves out:
  - connections and persistence failures;
  - a failure midway through an upsert loop, which the source does not roll back.
- Concurrency is not modelled: each request runs alone and in sequence. Two overlapping refreshes of one anime could interleave in the source.
- `_id`s are natural numbers handed out in order, not ObjectIds. This leaves out:
  - casting an invalid id string;
  - the difference between string and ObjectId comparison in `setWatched` (`includes` casts while the filter compares strings).
- The mongoose `required` rule is modelled as "non-empty after trimming". Other validators and cast errors are not modelled.
- Errors that the source throws are modelled as results:
  - a failed `Anime.create` is an `Err` result;
  - an error passed to `next` is `ServerError`; the error's message is not modelled.
- Other limits of the store model:
  - MongoDB's refusal of a negative skip is modelled only as an error.
  - A negative limit is modelled as returning that many documents.
  - A query string given twice (`q` as an array) is not modelled.
- `parseInt` is not modelled: the parsed value, a number or NaN, is the input.
- The per-episode `__watched` field is a separate `watched` option next to the episode document.
- Slug.Lower: lower-casing covers ASCII A-Z only. Other characters keep their case, although `toLowerCase` would change some, such as "É". Such characters are outside [a-z0-9] either way, so they become '-' in a slug unless lower-casing maps them into ASCII (as it does "K", the Kelvin sign).
- User authentication, JWTs and password reset are not part of this model, and neither is e-mail. The same goes for routing, rate limiting, the front end, and the seed script's test user and logging.
- Seed.SeedCatalogue: the seed script's titles and lists are parameters, not literals, to keep proofs small. `Seed.FixedListsQualify` shows that the fixed Naruto, Bleach and One Piece data meet its conditions.
- AnimeController.ListAllAnime: it requires the two unique indexes (`Catalogued`), which `ValidCatalogued` derives from the store invariant, rather than the whole invariant.
