/**
 * The content fingerprint: a hash of the JSON text of an episode list. The
 * scraper serialises `{number, title, type}` objects and the seed script
 * `{n, t, ty}` objects. JSON text is modelled by a JSON value; SHA-1 is a
 * `Hasher` supplied by the caller whose only known trait is a non-empty result.
 */
module Fingerprint {
  import opened Models

  datatype Json =
    | JNum(n: int)
    | JStr(s: string)
    | JArr(items: seq<Json>)
    | JObj(members: seq<(string, Json)>)

  /** A hex digest; never the empty string. */
  type Digest = s: string | s != [] witness "0"

  /** `sha1(JSON.stringify(value))`, deterministic by being a function. */
  type Hasher = Json -> Digest

  function ScraperEntry(e: EpisodeData): Json {
    JObj([("number", JNum(e.number)), ("title", JStr(e.title)), ("type", JStr(TypeName(e.ty)))])
  }

  /** What the scraper hashes: the extracted list itself. */
  function ScraperJson(eps: seq<EpisodeData>): Json {
    JArr(seq(|eps|, i requires 0 <= i < |eps| => ScraperEntry(eps[i])))
  }

  function SeedEntry(e: EpisodeData): Json {
    JObj([("n", JNum(e.number)), ("t", JStr(e.title)), ("ty", JStr(TypeName(e.ty)))])
  }

  /** What the seed script hashes: the list mapped to short keys. */
  function SeedJson(eps: seq<EpisodeData>): Json {
    JArr(seq(|eps|, i requires 0 <= i < |eps| => SeedEntry(eps[i])))
  }

  /** Any change of number, title, type, order or length changes the scraper's serialisation. */
  lemma ScraperJsonInjective(a: seq<EpisodeData>, b: seq<EpisodeData>)
    ensures ScraperJson(a) == ScraperJson(b) <==> a == b
  {
    if ScraperJson(a) == ScraperJson(b) {
      assert |a| == |ScraperJson(a).items| == |b|;
      forall i | 0 <= i < |a| ensures a[i] == b[i] {
        assert ScraperEntry(a[i]) == ScraperJson(a).items[i] == ScraperEntry(b[i]);
        TypeNameInjective(a[i].ty, b[i].ty);
      }
    }
  }

  /** The same holds of the seed script's serialisation. */
  lemma SeedJsonInjective(a: seq<EpisodeData>, b: seq<EpisodeData>)
    ensures SeedJson(a) == SeedJson(b) <==> a == b
  {
    if SeedJson(a) == SeedJson(b) {
      assert |a| == |SeedJson(a).items| == |b|;
      forall i | 0 <= i < |a| ensures a[i] == b[i] {
        assert SeedEntry(a[i]) == SeedJson(a).items[i] == SeedEntry(b[i]);
        TypeNameInjective(a[i].ty, b[i].ty);
      }
    }
  }

  /** The two serialisations agree only on the empty list, whose text is `[]` in both. */
  lemma SerialisationsDiffer(a: seq<EpisodeData>, b: seq<EpisodeData>)
    ensures ScraperJson(a) == SeedJson(b) <==> a == [] && b == []
  {
    if a != [] && b != [] {
      assert ScraperJson(a).items[0] == ScraperEntry(a[0]) != SeedEntry(b[0]) == SeedJson(b).items[0];
    }
  }
}
