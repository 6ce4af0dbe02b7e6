/**
 * The episode extractor: flattens the upstream dataset's three buckets,
 * canon then mixed then filler, into one list numbered from 1.
 */
module Extractor {
  import opened Wrappers
  import opened Models
  import opened Decimal

  /** One upstream entry; only its optional `title` is read. */
  datatype RawEntry = RawEntry(title: Option<string>)

  /**
   * The upstream JSON object: whether its `total` field is truthy, and the
   * `canon`, `mixed` and `filler` arrays, each possibly absent (a falsy
   * bucket counts as absent). Only this documented shape is modelled.
   */
  datatype RawData = RawData(
    total: bool,
    canon: Option<seq<RawEntry>>,
    mixed: Option<seq<RawEntry>>,
    filler: Option<seq<RawEntry>>)

  /** `data.canon || []`: an absent bucket is empty. */
  function Bucket(b: Option<seq<RawEntry>>): seq<RawEntry> {
    b.GetOr([])
  }

  /** The title given to an entry without one. */
  function Placeholder(number: nat): string {
    "Episode " + NatToString(number)
  }

  /** `ep.title || \`Episode ${number}\``: a missing or empty title is replaced. */
  function TitleOr(title: Option<string>, number: nat): string {
    if title.Some? && title.value != [] then title.value else Placeholder(number)
  }

  function Tag(es: seq<RawEntry>, ty: EpisodeType): seq<(RawEntry, EpisodeType)> {
    seq(|es|, i requires 0 <= i < |es| => (es[i], ty))
  }

  /** The entries in the order they are numbered, each with its bucket's type. */
  function Tagged(data: RawData): seq<(RawEntry, EpisodeType)> {
    if !data.total then []
    else Tag(Bucket(data.canon), Canon) + Tag(Bucket(data.mixed), Mixed) + Tag(Bucket(data.filler), Filler)
  }

  /** What extraction yields: the i-th entry in bucket order becomes episode i + 1. */
  function Extracted(data: RawData): seq<EpisodeData> {
    var tagged := Tagged(data);
    seq(|tagged|, i requires 0 <= i < |tagged| =>
      EpisodeData(i + 1, TitleOr(tagged[i].0.title, i + 1), tagged[i].1))
  }

  /**
   * The length is the sum of the bucket sizes (zero when `total` is falsy),
   * the numbers are exactly 1..n in order, the types come as all canon, then
   * all mixed, then all filler, and every title is the entry's own when it
   * has a non-empty one and "Episode <n>" otherwise, so never empty.
   */
  lemma ExtractedShape(data: RawData)
    ensures var r := Extracted(data);
      var c, m, f := Bucket(data.canon), Bucket(data.mixed), Bucket(data.filler);
      && |r| == (if data.total then |c| + |m| + |f| else 0)
      && (forall i :: 0 <= i < |r| ==> r[i].number == i + 1)
      && (forall i :: 0 <= i < |r| ==> r[i].title != [])
      && (forall i :: 0 <= i < |r| && i < |c| ==> r[i].ty == Canon && r[i].title == TitleOr(c[i].title, i + 1))
      && (forall i :: 0 <= i < |r| && |c| <= i < |c| + |m| ==>
            r[i].ty == Mixed && r[i].title == TitleOr(m[i - |c|].title, i + 1))
      && (forall i :: 0 <= i < |r| && |c| + |m| <= i ==>
            r[i].ty == Filler && r[i].title == TitleOr(f[i - |c| - |m|].title, i + 1))
  {
  }

  /** The numbers of an extraction are pairwise distinct, so no two entries share a key. */
  lemma ExtractedDistinct(data: RawData)
    ensures var r := Extracted(data);
      forall i, j :: 0 <= i < |r| && 0 <= j < |r| && i != j ==> r[i].number != r[j].number
  {
  }

  /** The effect of `pushRange(eps, ty)`: one episode per entry, numbered on from `number`. */
  function Pushed(eps: seq<RawEntry>, ty: EpisodeType, number: nat): seq<EpisodeData> {
    seq(|eps|, i requires 0 <= i < |eps| =>
      EpisodeData(number + i, TitleOr(eps[i].title, number + i), ty))
  }

  method PushRange(parsed: seq<EpisodeData>, number: nat, eps: seq<RawEntry>, ty: EpisodeType)
    returns (parsed': seq<EpisodeData>, number': nat)
    ensures parsed' == parsed + Pushed(eps, ty, number)
    ensures number' == number + |eps|
  {
    parsed', number' := parsed, number;
    for k := 0 to |eps|
      invariant number' == number + k
      invariant parsed' == parsed + Pushed(eps[..k], ty, number)
    {
      assert Pushed(eps[..k + 1], ty, number) == Pushed(eps[..k], ty, number)
        + [EpisodeData(number', TitleOr(eps[k].title, number'), ty)];
      parsed' := parsed' + [EpisodeData(number', TitleOr(eps[k].title, number'), ty)];
      number' := number' + 1;
    }
    assert eps[..|eps|] == eps;
  }

  /** `extractEpisodesFromData`. */
  method ExtractEpisodesFromData(data: RawData) returns (parsed: seq<EpisodeData>)
    ensures parsed == Extracted(data)
  {
    parsed := [];
    var number := 1;
    if data.total {
      var c, m, f := Bucket(data.canon), Bucket(data.mixed), Bucket(data.filler);
      parsed, number := PushRange(parsed, number, c, Canon);
      parsed, number := PushRange(parsed, number, m, Mixed);
      parsed, number := PushRange(parsed, number, f, Filler);
      assert parsed == Pushed(c, Canon, 1) + Pushed(m, Mixed, 1 + |c|) + Pushed(f, Filler, 1 + |c| + |m|);
      var r := Extracted(data);
      assert |parsed| == |r|;
      forall i | 0 <= i < |r| ensures parsed[i] == r[i] {
        if i < |c| {
        } else if i < |c| + |m| {
        } else {
        }
      }
    }
  }

  // ---------------------------------------------------------------------------
  // Examples

  /** One entry per bucket is numbered 1, 2, 3 as canon, mixed, filler. */
  lemma ExtractThreeBuckets()
    ensures Extracted(RawData(true, Some([RawEntry(Some("A"))]), Some([RawEntry(Some("B"))]),
                              Some([RawEntry(Some("C"))])))
         == [EpisodeData(1, "A", Canon), EpisodeData(2, "B", Mixed), EpisodeData(3, "C", Filler)]
  {
  }

  /** A falsy `total` yields nothing, and an absent bucket counts as empty. */
  lemma ExtractNoTotalOrMissingBucket(c: Option<seq<RawEntry>>, m: Option<seq<RawEntry>>, f: Option<seq<RawEntry>>)
    ensures Extracted(RawData(false, c, m, f)) == []
    ensures Extracted(RawData(true, None, m, f)) == Extracted(RawData(true, Some([]), m, f))
    ensures Extracted(RawData(true, c, None, f)) == Extracted(RawData(true, c, Some([]), f))
    ensures Extracted(RawData(true, c, m, None)) == Extracted(RawData(true, c, m, Some([])))
  {
  }

  /** Missing and empty titles both become "Episode <n>". */
  lemma ExtractPlaceholderTitles()
    ensures Extracted(RawData(true, Some([RawEntry(None)]), None, Some([RawEntry(Some(""))])))
         == [EpisodeData(1, "Episode 1", Canon), EpisodeData(2, "Episode 2", Filler)]
  {
    var data := RawData(true, Some([RawEntry(None)]), None, Some([RawEntry(Some(""))]));
    assert NatToString(1) == "1" && NatToString(2) == "2";
    assert TitleOr(None, 1) == "Episode 1";
    assert TitleOr(Some(""), 2) == "Episode 2";
    assert Tagged(data) == [(RawEntry(None), Canon), (RawEntry(Some("")), Filler)];
  }
}
