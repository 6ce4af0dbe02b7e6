/**
 * The anime handlers: the paginated catalogue sorted by title, search or
 * create by title, and the episode list of one anime with the signed-in
 * user's watched marks. An exception passed to `next` becomes `ServerError`,
 * which the error middleware answers with status 500.
 */
module AnimeController {
  import opened Wrappers
  import opened Slug
  import opened Models
  import opened Fingerprint
  import opened EntityStore
  import opened Scraper

  /** The JSON reply: `{ success: true, data }`, a handled failure, or an error passed on. */
  datatype Reply<T> = Success(data: T) | Failure(status: nat, message: string) | ServerError

  // ---------------------------------------------------------------------------
  // Query parameters and pagination

  /** The value of `parseInt` on a query parameter. */
  datatype ParsedInt = NaN | Int(value: int)

  /** `parseInt(x) || d`: NaN and 0 are falsy and give the default. */
  function OrDefault(p: ParsedInt, d: int): int {
    if p.Int? && p.value != 0 then p.value else d
  }

  datatype Paging = Paging(page: int, limit: int, skip: int)

  /**
   * The page (default 1), the page size (default 50) and the number of
   * documents skipped before the page. Neither can be 0, whatever the query.
   */
  function PagingOf(pageQ: ParsedInt, limitQ: ParsedInt): (r: Paging)
    ensures r.page != 0 && r.limit != 0
    ensures r.page == (if pageQ.Int? && pageQ.value != 0 then pageQ.value else 1)
    ensures r.limit == (if limitQ.Int? && limitQ.value != 0 then limitQ.value else 50)
    ensures r.skip == (r.page - 1) * r.limit
  {
    var page := OrDefault(pageQ, 1);
    var limit := OrDefault(limitQ, 50);
    Paging(page, limit, (page - 1) * limit)
  }

  /**
   * `Math.ceil(total / limit)`: the least r with r * limit >= total when the
   * limit is positive, and the least r with r * limit <= total when it is
   * negative; an empty catalogue has 0 pages.
   */
  function Pages(total: nat, limit: int): (r: int)
    requires limit != 0
    ensures limit > 0 ==> r * limit >= total && (r - 1) * limit < total
    ensures limit < 0 ==> r * limit <= total && (r - 1) * limit > total
    ensures total == 0 ==> r == 0
  {
    if limit > 0 then
      var q := (total + limit - 1) / limit;
      DivMod(total + limit - 1, limit);
      MulPred(q, limit);
      q
    else
      var q := total / -limit;
      DivMod(total, -limit);
      MulNeg(q, limit);
      MulPred(-q, limit);
      -q
  }

  lemma DivMod(a: int, b: int)
    requires b > 0
    ensures a == (a / b) * b + a % b && 0 <= a % b < b
  {
  }

  lemma MulPred(q: int, b: int)
    ensures (q - 1) * b == q * b - b
  {
  }

  lemma MulNeg(q: int, b: int)
    ensures q * -b == (-q) * b
  {
  }

  // ---------------------------------------------------------------------------
  // The title order

  /** MongoDB's default string order: by code point, a proper prefix first. */
  predicate TitleLess(a: string, b: string) {
    if a == [] then b != []
    else b != [] && (a[0] < b[0] || (a[0] == b[0] && TitleLess(a[1..], b[1..])))
  }

  lemma {:induction false} TitleLessIrreflexive(a: string)
    ensures !TitleLess(a, a)
  {
    if a != [] {
      TitleLessIrreflexive(a[1..]);
    }
  }

  lemma {:induction false} TitleLessTransitive(a: string, b: string, c: string)
    requires TitleLess(a, b) && TitleLess(b, c)
    ensures TitleLess(a, c)
  {
    if a != [] && a[0] == b[0] && b[0] == c[0] {
      TitleLessTransitive(a[1..], b[1..], c[1..]);
    }
  }

  lemma {:induction false} TitleLessTotal(a: string, b: string)
    requires a != b
    ensures TitleLess(a, b) || TitleLess(b, a)
  {
    if a != [] && b != [] && a[0] == b[0] {
      assert a == [a[0]] + a[1..] && b == [b[0]] + b[1..];
      TitleLessTotal(a[1..], b[1..]);
    }
  }

  lemma TitleLessAsymmetric()
    ensures forall a, b :: TitleLess(a, b) ==> !TitleLess(b, a)
  {
    forall a, b | TitleLess(a, b) ensures !TitleLess(b, a) {
      if TitleLess(b, a) {
        TitleLessTransitive(a, b, a);
        TitleLessIrreflexive(a);
      }
    }
  }

  /** What the title sort relies on: every document sits under its slug, and titles are distinct. */
  ghost predicate Catalogued(db: Db) {
    && (forall s :: s in db.animes ==> db.animes[s].slug == s)
    && (forall s, s' :: s in db.animes && s' in db.animes && s != s' ==> db.animes[s].title != db.animes[s'].title)
  }

  lemma ValidCatalogued(db: Db)
    requires Valid(db)
    ensures Catalogued(db)
  {
    forall s | s in db.animes ensures db.animes[s].slug == s {
      assert AnimeRowValid(db.animes, db.nextAnimeId, s);
    }
  }

  /** No two of the documents `xs` share a title, as the unique `title` index ensures. */
  ghost predicate DistinctTitles(xs: set<Anime>) {
    forall x, y :: x in xs && y in xs && x != y ==> x.title != y.title
  }

  /** `m` is the document in `xs` whose title comes first. */
  predicate Least(xs: set<Anime>, m: Anime) {
    m in xs && forall x :: x in xs && x != m ==> TitleLess(m.title, x.title)
  }

  /** Among documents with distinct titles one comes first. */
  lemma {:induction false} LeastExists(xs: set<Anime>)
    requires xs != {} && DistinctTitles(xs)
    ensures exists m :: Least(xs, m)
  {
    var y :| y in xs;
    var rest := xs - {y};
    if rest == {} {
      assert xs == {y};
      assert Least(xs, y);
    } else {
      LeastExists(rest);
      var m :| Least(rest, m);
      TitleLessTotal(y.title, m.title);
      if TitleLess(y.title, m.title) {
        forall x | x in xs && x != y ensures TitleLess(y.title, x.title) {
          if x != m {
            TitleLessTransitive(y.title, m.title, x.title);
          }
        }
        assert Least(xs, y);
      } else {
        assert Least(xs, m);
      }
    }
  }

  /** The document of `xs` whose title comes first. */
  function First(xs: set<Anime>): (m: Anime)
    requires xs != {} && DistinctTitles(xs)
    ensures Least(xs, m)
  {
    LeastExists(xs);
    TitleLessAsymmetric();
    var m :| Least(xs, m);
    m
  }

  /** The documents `xs`, each once, taking the one whose title comes first each time. */
  function SortedByTitle(xs: set<Anime>): (r: seq<Anime>)
    requires DistinctTitles(xs)
    ensures |r| == |xs|
    ensures forall i :: 0 <= i < |r| ==> r[i] in xs
    decreases xs
  {
    if xs == {} then []
    else
      var m := First(xs);
      [m] + SortedByTitle(xs - {m})
  }

  /** The documents come in strictly ascending title order. */
  lemma {:induction false} SortedByTitleOrdered(xs: set<Anime>)
    requires DistinctTitles(xs)
    ensures forall i, j :: 0 <= i < j < |SortedByTitle(xs)| ==>
              TitleLess(SortedByTitle(xs)[i].title, SortedByTitle(xs)[j].title)
    decreases xs
  {
    if xs != {} {
      var m := First(xs);
      var rest := SortedByTitle(xs - {m});
      SortedByTitleOrdered(xs - {m});
      var r := SortedByTitle(xs);
      assert r == [m] + rest;
      forall i, j | 0 <= i < j < |r| ensures TitleLess(r[i].title, r[j].title) {
        assert r[j] == rest[j - 1] && r[j] in xs - {m};
        if i > 0 {
          assert r[i] == rest[i - 1];
        }
      }
    }
  }

  /** Every document is taken. */
  lemma {:induction false} SortedByTitleCovers(xs: set<Anime>)
    requires DistinctTitles(xs)
    ensures forall x :: x in xs ==> x in SortedByTitle(xs)
    decreases xs
  {
    if xs != {} {
      var m := First(xs);
      SortedByTitleCovers(xs - {m});
      assert SortedByTitle(xs) == [m] + SortedByTitle(xs - {m});
    }
  }

  /** Distinct slugs hold distinct documents, so there are as many documents as slugs. */
  lemma {:induction false} ValuesCard(m: map<string, Anime>)
    requires forall s, s' :: s in m && s' in m && s != s' ==> m[s] != m[s']
    ensures |m.Values| == |m|
    decreases |m|
  {
    if m != map[] {
      var k :| k in m;
      var m' := m - {k};
      ValuesCard(m');
      assert m.Values == m'.Values + {m[k]} by {
        forall x | x in m.Values ensures x in m'.Values + {m[k]} {
          var s :| s in m && m[s] == x;
          if s != k {
            assert s in m';
          }
        }
        assert m[k] in m.Values;
        forall x | x in m'.Values ensures x in m.Values {
          var s :| s in m' && m'[s] == x;
          assert s in m;
        }
      }
      assert m[k] !in m'.Values;
      assert |m'| == |m| - 1 by {
        assert m'.Keys == m.Keys - {k};
      }
    }
  }

  /** The stored documents: what `Anime.find({})` reads, with no two sharing a title. */
  lemma CatalogueDocuments(db: Db)
    requires Catalogued(db)
    ensures DistinctTitles(db.animes.Values)
    ensures |db.animes.Values| == |db.animes|
    ensures forall x :: x in db.animes.Values ==> Stored(db, x)
  {
    forall x | x in db.animes.Values ensures Stored(db, x) {
      var s :| s in db.animes && db.animes[s] == x;
    }
    forall x, y | x in db.animes.Values && y in db.animes.Values && x != y ensures x.title != y.title {
      var s :| s in db.animes && db.animes[s] == x;
      var t :| t in db.animes && db.animes[t] == y;
    }
    ValuesCard(db.animes);
  }

  /** `Anime.find({}).sort({ title: 1 })`: the stored animes in ascending title order. */
  function Catalogue(db: Db): (r: seq<Anime>)
    requires Catalogued(db)
    ensures |r| == |db.animes|
    ensures forall i :: 0 <= i < |r| ==> Stored(db, r[i])
    ensures forall i, j :: 0 <= i < j < |r| ==> TitleLess(r[i].title, r[j].title)
  {
    CatalogueDocuments(db);
    SortedByTitleOrdered(db.animes.Values);
    SortedByTitle(db.animes.Values)
  }

  /** Every stored anime is in the catalogue, so with the length each appears once. */
  lemma CatalogueCovers(db: Db)
    requires Catalogued(db)
    ensures forall s :: s in db.animes ==> db.animes[s] in Catalogue(db)
  {
    CatalogueDocuments(db);
    SortedByTitleCovers(db.animes.Values);
    forall s | s in db.animes ensures db.animes[s] in Catalogue(db) {
      assert db.animes[s] in db.animes.Values;
    }
  }

  /**
   * A listing in strictly ascending title order is fixed by its elements:
   * two such listings of the same documents are equal, so the catalogue
   * order is the only one the sort can produce.
   */
  lemma {:induction false} SortedUnique(a: seq<Anime>, b: seq<Anime>)
    requires forall i, j :: 0 <= i < j < |a| ==> TitleLess(a[i].title, a[j].title)
    requires forall i, j :: 0 <= i < j < |b| ==> TitleLess(b[i].title, b[j].title)
    requires forall x :: x in a <==> x in b
    ensures a == b
  {
    TitleLessAsymmetric();
    if a != [] {
      assert a[0] in b;
    }
    if b != [] {
      assert b[0] in a;
    }
    if a != [] {
      if a[0] != b[0] {
        assert false;
      }
      forall x ensures x in a[1..] <==> x in b[1..] {
        if x in a[1..] {
          var i :| 1 <= i < |a| && a[i] == x;
          assert x != a[0] by { TitleLessIrreflexive(x.title); }
          assert x in b;
        }
        if x in b[1..] {
          var j :| 1 <= j < |b| && b[j] == x;
          assert x != b[0] by { TitleLessIrreflexive(x.title); }
          assert x in a;
        }
      }
      SortedUnique(a[1..], b[1..]);
      assert a == [a[0]] + a[1..] && b == [b[0]] + b[1..];
    }
  }

  // ---------------------------------------------------------------------------
  // listAllAnime

  /** The selected fields `_id title slug episodeCount lastScrapedAt`. */
  datatype AnimeSummary = AnimeSummary(id: AnimeId, title: string, slug: string, episodeCount: int,
                                       lastScrapedAt: Option<Time>)

  function Summary(a: Anime): AnimeSummary {
    AnimeSummary(a.id, a.title, a.slug, a.episodeCount, a.lastScrapedAt)
  }

  /** What `.skip(skip).limit(n)` keeps of `sorted`: at most n documents, after the first `skip`. */
  function Window(sorted: seq<Anime>, skip: nat, n: nat): (r: seq<AnimeSummary>)
    ensures |r| == (if |sorted| <= skip then 0 else if skip + n <= |sorted| then n else |sorted| - skip)
    ensures forall i :: 0 <= i < |r| ==> r[i] == Summary(sorted[skip + i])
  {
    var from := if skip < |sorted| then skip else |sorted|;
    var to := if from + n < |sorted| then from + n else |sorted|;
    seq(to - from, i requires 0 <= i < to - from => Summary(sorted[from + i]))
  }

  datatype Pagination = Pagination(page: int, limit: int, total: nat, pages: int)

  datatype Listing = Listing(data: seq<AnimeSummary>, pagination: Pagination)

  /** The reply for one page of the listing `sorted` of `total` documents. */
  function ListingOf(sorted: seq<Anime>, total: nat, p: Paging): Reply<Listing>
    requires p.limit != 0
  {
    if p.skip < 0 then ServerError
    else
      var n := if p.limit < 0 then -p.limit else p.limit;
      Success(Listing(Window(sorted, p.skip, n), Pagination(p.page, p.limit, total, Pages(total, p.limit))))
  }

  /**
   * `listAllAnime`. MongoDB refuses a negative skip, so a page before the
   * first is an error; a negative limit returns that many documents.
   */
  function ListAllAnime(db: Db, pageQ: ParsedInt, limitQ: ParsedInt): Reply<Listing>
    requires Catalogued(db)
  {
    ListingOf(Catalogue(db), |db.animes|, PagingOf(pageQ, limitQ))
  }

  /** What one page of a listing holds, for any listing and paging. */
  lemma ListingShape(sorted: seq<Anime>, total: nat, p: Paging)
    requires p.limit != 0 && |sorted| == total
    ensures var r := ListingOf(sorted, total, p);
      var n := if p.limit < 0 then -p.limit else p.limit;
      && (r.ServerError? <==> p.skip < 0)
      && (r.Success? ==>
            && r.data.pagination == Pagination(p.page, p.limit, total, Pages(total, p.limit))
            && |r.data.data| == (if total <= p.skip then 0 else if p.skip + n <= total then n else total - p.skip)
            && (forall i :: 0 <= i < |r.data.data| ==> r.data.data[i] == Summary(sorted[p.skip + i])))
  {
  }

  /**
   * The listing fails exactly when the skip is negative. Otherwise it is the
   * window of the title-sorted catalogue that starts after `skip` documents
   * and holds at most |limit| of them, and the pagination echoes page and
   * limit with the number of animes and of pages.
   */
  lemma ListPage(db: Db, pageQ: ParsedInt, limitQ: ParsedInt)
    requires Catalogued(db)
    ensures var p := PagingOf(pageQ, limitQ);
      var r := ListAllAnime(db, pageQ, limitQ);
      var total := |db.animes|;
      var n := if p.limit < 0 then -p.limit else p.limit;
      && (r.ServerError? <==> p.skip < 0)
      && (r.Success? ==>
            && r.data.pagination == Pagination(p.page, p.limit, total, Pages(total, p.limit))
            && |r.data.data| == (if total <= p.skip then 0 else if p.skip + n <= total then n else total - p.skip)
            && (forall i :: 0 <= i < |r.data.data| ==> r.data.data[i] == Summary(Catalogue(db)[p.skip + i])))
  {
    ListingShape(Catalogue(db), |db.animes|, PagingOf(pageQ, limitQ));
  }

  /** A window of a title-sorted listing of stored animes is title-sorted and lists stored animes. */
  lemma WindowOrdered(db: Db, sorted: seq<Anime>, skip: nat, n: nat)
    requires forall i, j :: 0 <= i < j < |sorted| ==> TitleLess(sorted[i].title, sorted[j].title)
    requires forall i :: 0 <= i < |sorted| ==> Stored(db, sorted[i])
    ensures forall i, j :: 0 <= i < j < |Window(sorted, skip, n)| ==>
              TitleLess(Window(sorted, skip, n)[i].title, Window(sorted, skip, n)[j].title)
    ensures forall i :: 0 <= i < |Window(sorted, skip, n)| ==>
              && Window(sorted, skip, n)[i].slug in db.animes
              && Summary(db.animes[Window(sorted, skip, n)[i].slug]) == Window(sorted, skip, n)[i]
  {
    var w := Window(sorted, skip, n);
    forall i, j | 0 <= i < j < |w| ensures TitleLess(w[i].title, w[j].title) {
      assert w[i].title == sorted[skip + i].title && w[j].title == sorted[skip + j].title;
    }
    forall i | 0 <= i < |w| ensures w[i].slug in db.animes && Summary(db.animes[w[i].slug]) == w[i] {
      assert Stored(db, sorted[skip + i]);
    }
  }

  /** A page lists stored animes, in ascending title order. */
  lemma ListPageOrdered(db: Db, pageQ: ParsedInt, limitQ: ParsedInt)
    requires Catalogued(db)
    ensures ListAllAnime(db, pageQ, limitQ).Success? ==>
      var page := ListAllAnime(db, pageQ, limitQ).data.data;
      && (forall i, j :: 0 <= i < j < |page| ==> TitleLess(page[i].title, page[j].title))
      && (forall i :: 0 <= i < |page| ==> page[i].slug in db.animes && Summary(db.animes[page[i].slug]) == page[i])
  {
    var p := PagingOf(pageQ, limitQ);
    if p.skip >= 0 {
      var n := if p.limit < 0 then -p.limit else p.limit;
      WindowOrdered(db, Catalogue(db), p.skip, n);
    }
  }

  /**
   * Position i of a listing of `total` documents lies on page i / limit + 1,
   * at offset i % limit, and that page is within the page count.
   */
  lemma PageOfPosition(i: int, limit: int, total: nat)
    requires limit > 0 && 0 <= i < total
    ensures var skip := (i / limit + 1 - 1) * limit;
      && 0 <= skip && skip + i % limit == i && skip < total
      && i % limit < (if skip + limit <= total then limit else total - skip)
      && i / limit + 1 <= Pages(total, limit)
  {
    var q := i / limit;
    assert q * limit + i % limit == i;
    var pages := Pages(total, limit);
    if pages < q + 1 {
      MulMonotonic(pages, q, limit);
      assert false;
    }
  }

  /**
   * With a positive limit every anime is listed: the one at position i of
   * the title order is entry i % limit of page i / limit + 1, and that page
   * is within the advertised page count.
   */
  lemma ListEveryAnimeOnItsPage(db: Db, limit: int, i: int)
    requires Catalogued(db) && limit > 0 && 0 <= i < |db.animes|
    ensures var r := ListAllAnime(db, Int(i / limit + 1), Int(limit));
      && r.Success?
      && i % limit < |r.data.data|
      && r.data.data[i % limit] == Summary(Catalogue(db)[i])
      && i / limit + 1 <= r.data.pagination.pages
  {
    var page := i / limit + 1;
    var p := PagingOf(Int(page), Int(limit));
    assert p == Paging(page, limit, (page - 1) * limit);
    PageOfPosition(i, limit, |db.animes|);
    ListingShape(Catalogue(db), |db.animes|, p);
  }

  lemma MulMonotonic(a: int, b: int, c: int)
    requires a <= b && c > 0
    ensures a * c <= b * c
  {
    assert b * c - a * c == (b - a) * c;
  }

  /** Without query parameters the listing is page 1 of the first 50 titles. */
  lemma ListDefaults(db: Db)
    requires Catalogued(db)
    ensures var r := ListAllAnime(db, NaN, NaN);
      && r.Success?
      && r.data.pagination.page == 1 && r.data.pagination.limit == 50
      && r.data.pagination.total == |db.animes|
      && |r.data.data| == (if |db.animes| < 50 then |db.animes| else 50)
  {
    ListingShape(Catalogue(db), |db.animes|, PagingOf(NaN, NaN));
  }

  // ---------------------------------------------------------------------------
  // searchOrCreateAnime

  datatype SearchHit = SearchHit(id: AnimeId, title: string, slug: string, episodeCount: int)

  /** `searchOrCreateAnime`: `q` is None when the query has no `q`. */
  function SearchOrCreateAnime(db: Db, q: Option<string>, fetch: Fetcher, hasher: Hasher, now: Time)
    : (Db, Reply<SearchHit>)
    requires Valid(db)
  {
    if q.None? || q.value == [] then (db, Failure(400, "Missing q param"))
    else
      var (db', r) := EnsureCached(db, q.value, true, fetch, hasher, now);
      match r
      case Err(_) => (db', ServerError)
      case Ok(a) => (db', Success(SearchHit(a.id, a.title, a.slug, a.episodeCount)))
  }

  /** A missing or empty `q` is answered 400 and changes nothing. */
  lemma SearchMissingQ(db: Db, q: Option<string>, fetch: Fetcher, hasher: Hasher, now: Time)
    requires Valid(db) && (q.None? || q.value == [])
    ensures SearchOrCreateAnime(db, q, fetch, hasher, now) == (db, Failure(400, "Missing q param"))
  {
  }

  /**
   * A non-empty `q` fails, leaving the store as it was, exactly when its slug
   * is empty. Otherwise the store keeps its invariant and the reply describes
   * the stored anime with that slug: the one already there, or a new one
   * with the next id; every other anime is kept.
   */
  lemma SearchFindsOrCreates(db: Db, q: string, fetch: Fetcher, hasher: Hasher, now: Time)
    requires Valid(db) && q != []
    ensures var (db', r) := SearchOrCreateAnime(db, Some(q), fetch, hasher, now);
      && Valid(db')
      && (r.ServerError? <==> Slugify(q) == [])
      && (r.ServerError? ==> db' == db)
      && (r.Success? ==>
            && r.data.slug == Slugify(q) && r.data.slug in db'.animes
            && var a := db'.animes[r.data.slug];
            && r.data == SearchHit(a.id, a.title, a.slug, a.episodeCount)
            && db'.animes.Keys == db.animes.Keys + {Slugify(q)}
            && r.data.id == (if Slugify(q) in db.animes then db.animes[Slugify(q)].id else db.nextAnimeId))
  {
    EnsureFails(db, q, true, fetch, hasher, now);
    EnsureValid(db, q, true, fetch, hasher, now);
    if Slugify(q) in db.animes {
      EnsureFound(db, q, true, fetch, hasher, now);
    } else if Slugify(q) != [] {
      EnsureCreates(db, q, true, fetch, hasher, now);
    }
  }

  // ---------------------------------------------------------------------------
  // getEpisodes

  /** An episode document, with `__watched` when the request has a user with a non-empty list. */
  datatype EpisodeView = EpisodeView(episode: Episode, watched: Option<bool>)

  /**
   * The watched marking: every episode is kept in place; it carries a mark
   * exactly when the user's list is present and non-empty, and the mark says
   * whether its id is on that list.
   */
  function MarkWatched(eps: seq<Episode>, watched: Option<seq<EpisodeId>>): (r: seq<EpisodeView>)
    ensures |r| == |eps|
    ensures forall i :: 0 <= i < |r| ==> r[i].episode == eps[i]
    ensures forall i :: 0 <= i < |r| ==> (r[i].watched.Some? <==> watched.Some? && watched.value != [])
    ensures forall i :: 0 <= i < |r| && r[i].watched.Some? ==> (r[i].watched.value <==> eps[i].id in watched.value)
  {
    if watched.Some? && watched.value != [] then
      seq(|eps|, i requires 0 <= i < |eps| => EpisodeView(eps[i], Some(eps[i].id in watched.value)))
    else
      seq(|eps|, i requires 0 <= i < |eps| => EpisodeView(eps[i], None))
  }

  /**
   * `getEpisodes`: `watched` is the signed-in user's list, None without a
   * user. The anime is refreshed before its episodes are read.
   */
  function GetEpisodes(db: Db, id: AnimeId, watched: Option<seq<EpisodeId>>,
                       fetch: Fetcher, hasher: Hasher, now: Time): (Db, Reply<seq<EpisodeView>>)
    requires Valid(db)
  {
    match FindById(db, id)
    case None => (db, Failure(404, "Anime not found"))
    case Some(anime) =>
      RefreshValid(db, anime, fetch, hasher, now);
      var r := Refresh(db, anime, fetch, hasher, now);
      RowsKeyed(r.db);
      (r.db, Success(MarkWatched(EpisodesOf(r.db, id), watched)))
  }

  /** An unknown id is answered 404 and changes nothing. */
  lemma GetEpisodesNotFound(db: Db, id: AnimeId, watched: Option<seq<EpisodeId>>,
                            fetch: Fetcher, hasher: Hasher, now: Time)
    requires Valid(db) && forall s :: s in db.animes ==> db.animes[s].id != id
    ensures GetEpisodes(db, id, watched, fetch, hasher, now) == (db, Failure(404, "Anime not found"))
  {
  }

  /**
   * `views` lists every stored episode of anime `id` once, in ascending
   * number, each marked as `MarkWatched` promises for the list `watched`.
   */
  ghost predicate ListsEpisodes(db: Db, id: AnimeId, watched: Option<seq<EpisodeId>>, views: seq<EpisodeView>) {
    && |views| == CountOf(db, id)
    && (forall i, j :: 0 <= i < j < |views| ==> views[i].episode.number < views[j].episode.number)
    && (forall i :: 0 <= i < |views| ==>
          var e := views[i].episode; (id, e.number) in db.episodes && db.episodes[(id, e.number)] == e)
    && (forall k :: k in KeysOf(db, id) ==> exists i :: 0 <= i < |views| && views[i].episode == db.episodes[k])
    && (forall i :: 0 <= i < |views| ==>
          views[i].watched == (if watched.Some? && watched.value != []
                               then Some(views[i].episode.id in watched.value) else None))
  }

  /** Marking a number-sorted read of an anime's episodes gives such a listing. */
  lemma MarkedListing(db: Db, id: AnimeId, watched: Option<seq<EpisodeId>>, eps: seq<Episode>)
    requires forall i, j :: 0 <= i < j < |eps| ==> eps[i].number < eps[j].number
    requires forall i :: 0 <= i < |eps| ==> (id, eps[i].number) in db.episodes && db.episodes[(id, eps[i].number)] == eps[i]
    requires forall k :: k in KeysOf(db, id) ==> db.episodes[k] in eps
    requires |eps| == CountOf(db, id)
    ensures ListsEpisodes(db, id, watched, MarkWatched(eps, watched))
  {
    var views := MarkWatched(eps, watched);
    forall k | k in KeysOf(db, id) ensures exists i :: 0 <= i < |views| && views[i].episode == db.episodes[k] {
      var i :| 0 <= i < |eps| && eps[i] == db.episodes[k];
      assert views[i].episode == db.episodes[k];
    }
  }

  /** Reading an anime's episodes and marking them gives such a listing. */
  lemma EpisodeListing(db: Db, id: AnimeId, watched: Option<seq<EpisodeId>>)
    requires Keyed(db)
    ensures ListsEpisodes(db, id, watched, MarkWatched(EpisodesOf(db, id), watched))
  {
    MarkedListing(db, id, watched, EpisodesOf(db, id));
  }

  /**
   * A known id is refreshed first, keeping the store invariant; the reply
   * then lists the anime's episodes as stored after the refresh.
   */
  lemma GetEpisodesFound(db: Db, id: AnimeId, watched: Option<seq<EpisodeId>>,
                         fetch: Fetcher, hasher: Hasher, now: Time)
    requires Valid(db) && exists s :: s in db.animes && db.animes[s].id == id
    ensures var (db', r) := GetEpisodes(db, id, watched, fetch, hasher, now);
      && r.Success?
      && Valid(db')
      && db' == Refresh(db, FindById(db, id).value, fetch, hasher, now).db
      && ListsEpisodes(db', id, watched, r.data)
  {
    var anime := FindById(db, id).value;
    RefreshValid(db, anime, fetch, hasher, now);
    var db' := Refresh(db, anime, fetch, hasher, now).db;
    RowsKeyed(db');
    EpisodeListing(db', id, watched);
  }
}
