/**
 * The two stored record kinds, Anime and Episode, with the defaults,
 * required fields and the `trim` setter of their schemas.
 */
module Models {
  import opened Wrappers
  import opened Slug

  type AnimeId = nat
  type EpisodeId = nat
  /** A timestamp; only its presence matters to the model. */
  type Time = nat

  /** The `type` enum of an Episode. */
  datatype EpisodeType = Canon | Filler | Mixed | Unknown

  /** The string stored for each enum value. */
  function TypeName(t: EpisodeType): (r: string)
    ensures r in ["canon", "filler", "mixed", "unknown"]
  {
    match t
    case Canon => "canon"
    case Filler => "filler"
    case Mixed => "mixed"
    case Unknown => "unknown"
  }

  lemma TypeNameInjective(a: EpisodeType, b: EpisodeType)
    ensures TypeName(a) == TypeName(b) <==> a == b
  {
  }

  /** An Anime document. `lastScrapedAt` absent means never scraped. */
  datatype Anime = Anime(
    id: AnimeId,
    title: string,
    slug: string,
    sourceUrl: string,
    lastScrapedAt: Option<Time>,
    episodeCount: int)

  /** An Episode document; `updatedAt` is the write stamp of its last write. */
  datatype Episode = Episode(
    id: EpisodeId,
    anime: AnimeId,
    number: int,
    title: string,
    ty: EpisodeType,
    sourceHash: string,
    updatedAt: nat)

  /** One `{number, title, type}` entry, as extracted or as listed by the seed script. */
  datatype EpisodeData = EpisodeData(number: int, title: string, ty: EpisodeType)

  // ---------------------------------------------------------------------------
  // String.prototype.trim, which the schema applies to `title`

  /** WhiteSpace and LineTerminator code points of ECMAScript. */
  predicate IsJsSpace(c: char) {
    || c == '\t' || c == '\n' || c == '\U{000B}' || c == '\U{000C}' || c == '\r' || c == ' '
    || c == '\U{00A0}' || c == '\U{1680}' || ('\U{2000}' <= c <= '\U{200A}')
    || c == '\U{2028}' || c == '\U{2029}' || c == '\U{202F}' || c == '\U{205F}'
    || c == '\U{3000}' || c == '\U{FEFF}'
  }

  function TrimStart(s: string): string {
    if s != [] && IsJsSpace(s[0]) then TrimStart(s[1..]) else s
  }

  function TrimEnd(s: string): string {
    if s != [] && IsJsSpace(s[|s| - 1]) then TrimEnd(s[..|s| - 1]) else s
  }

  function Trim(s: string): string {
    TrimEnd(TrimStart(s))
  }

  predicate Trimmed(s: string) {
    s != [] ==> !IsJsSpace(s[0]) && !IsJsSpace(s[|s| - 1])
  }

  lemma {:induction false} TrimStartShape(s: string)
    ensures s != [] && TrimStart(s) != [] ==> !IsJsSpace(TrimStart(s)[0])
    ensures Slugify(TrimStart(s)) == Slugify(s)
  {
    if s != [] && IsJsSpace(s[0]) {
      TrimStartShape(s[1..]);
      assert s == [s[0]] + s[1..];
      SlugifyDropFirst(s[0], s[1..]);
    }
  }

  lemma {:induction false} TrimEndShape(s: string)
    ensures TrimEnd(s) != [] ==> !IsJsSpace(TrimEnd(s)[|TrimEnd(s)| - 1])
    ensures TrimEnd(s) != [] && s != [] && !IsJsSpace(s[0]) ==> TrimEnd(s)[0] == s[0]
    ensures Slugify(TrimEnd(s)) == Slugify(s)
  {
    if s != [] && IsJsSpace(s[|s| - 1]) {
      var p := s[..|s| - 1];
      TrimEndShape(p);
      assert s == p + [s[|s| - 1]];
      SlugifyDropLast(p, s[|s| - 1]);
    }
  }

  /** The trimmed title has no white space at either end and slugifies like the raw one. */
  lemma TrimProperties(s: string)
    ensures Trimmed(Trim(s))
    ensures Slugify(Trim(s)) == Slugify(s)
  {
    TrimStartShape(s);
    TrimEndShape(TrimStart(s));
  }

  // ---------------------------------------------------------------------------
  // Creating documents

  /** The fields given to `Anime.create`; an absent one takes the schema default. */
  datatype AnimeFields = AnimeFields(
    title: string,
    slug: string,
    sourceUrl: Option<string>,
    lastScrapedAt: Option<Time>,
    episodeCount: Option<int>)

  /**
   * Builds the document `Anime.create` stores, or None when validation fails:
   * `title` (after trimming) and `slug` are required, and a required string
   * must not be empty.
   */
  function NewAnime(id: AnimeId, f: AnimeFields): (r: Option<Anime>)
    ensures r.Some? <==> Trim(f.title) != [] && f.slug != []
    ensures r.Some? ==> r.value.id == id && r.value.slug == f.slug
    ensures r.Some? ==> Trimmed(r.value.title) && Slugify(r.value.title) == Slugify(f.title)
    ensures r.Some? ==> r.value.sourceUrl == f.sourceUrl.GetOr("")
    ensures r.Some? ==> r.value.episodeCount == f.episodeCount.GetOr(0)
    ensures r.Some? ==> r.value.lastScrapedAt == f.lastScrapedAt
  {
    TrimProperties(f.title);
    var title := Trim(f.title);
    if title == [] || f.slug == [] then None
    else Some(Anime(id, title, f.slug, f.sourceUrl.GetOr(""),
                    f.lastScrapedAt, f.episodeCount.GetOr(0)))
  }

  /** The animefillerlist.com page of a show, the `sourceUrl` a new anime gets by default. */
  function ShowsPageUrl(slug: string): string {
    "https://animefillerlist.com/shows/" + slug
  }

  /** The optional fields of an Episode; `anime` and `number` are always given. */
  datatype EpisodeFields = EpisodeFields(
    title: Option<string>,
    ty: Option<EpisodeType>,
    sourceHash: Option<string>)

  /** The document an upsert inserts: `title` and `sourceHash` default to "", `type` to unknown. */
  function NewEpisode(id: EpisodeId, anime: AnimeId, number: int, f: EpisodeFields, stamp: nat): (r: Episode)
    ensures r.id == id && r.anime == anime && r.number == number && r.updatedAt == stamp
    ensures r.title == f.title.GetOr("") && r.sourceHash == f.sourceHash.GetOr("")
    ensures f.ty.None? ==> r.ty == Unknown
  {
    Episode(id, anime, number, f.title.GetOr(""), f.ty.GetOr(Unknown), f.sourceHash.GetOr(""), stamp)
  }
}
