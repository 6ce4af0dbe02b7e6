/**
 * `setWatched`: marks an episode watched or unwatched on the signed-in user's
 * list. Marking appends the id unless it is already there; unmarking drops
 * every occurrence and keeps the other ids in order.
 */
module EpisodeController {
  import opened Wrappers
  import opened Models

  /** The list after marking `id` watched: unchanged when it is already there, else `id` appended. */
  function Watch(l: seq<EpisodeId>, id: EpisodeId): seq<EpisodeId> {
    if id in l then l else l + [id]
  }

  /** `l.filter(x => x !== id)`. */
  function Unwatch(l: seq<EpisodeId>, id: EpisodeId): seq<EpisodeId> {
    if l == [] then [] else (if l[0] == id then [] else [l[0]]) + Unwatch(l[1..], id)
  }

  // ---------------------------------------------------------------------------
  // Marking watched

  /**
   * Afterwards `id` is in the list; every other id occurs as often as before,
   * and `id` occurs once if it was absent and as often as before otherwise,
   * so no duplicate is introduced.
   */
  lemma WatchEffect(l: seq<EpisodeId>, id: EpisodeId)
    ensures id in Watch(l, id)
    ensures forall x :: x != id ==> multiset(Watch(l, id))[x] == multiset(l)[x]
    ensures multiset(Watch(l, id))[id] == if id in l then multiset(l)[id] else 1
    ensures |Watch(l, id)| == if id in l then |l| else |l| + 1
    ensures Watch(l, id)[..|l|] == l
  {
    if id !in l {
      assert multiset(l)[id] == 0;
    }
  }

  /** Marking watched twice is marking it once. */
  lemma WatchIdempotent(l: seq<EpisodeId>, id: EpisodeId)
    ensures Watch(Watch(l, id), id) == Watch(l, id)
  {
  }

  ghost predicate NoDuplicates(l: seq<EpisodeId>) {
    forall i, j :: 0 <= i < j < |l| ==> l[i] != l[j]
  }

  /** A list without duplicates stays without duplicates. */
  lemma WatchNoDuplicates(l: seq<EpisodeId>, id: EpisodeId)
    requires NoDuplicates(l)
    ensures NoDuplicates(Watch(l, id))
  {
  }

  // ---------------------------------------------------------------------------
  // Marking unwatched

  /** Afterwards `id` is gone and every other id occurs as often as before. */
  lemma {:induction false} UnwatchEffect(l: seq<EpisodeId>, id: EpisodeId)
    ensures id !in Unwatch(l, id)
    ensures multiset(Unwatch(l, id)) == multiset(l)[id := 0]
  {
    if l != [] {
      UnwatchEffect(l[1..], id);
      assert l == [l[0]] + l[1..];
      assert multiset(l) == multiset{l[0]} + multiset(l[1..]);
    }
  }

  /** Unwatching an id that is not there changes nothing. */
  lemma {:induction false} UnwatchAbsent(l: seq<EpisodeId>, id: EpisodeId)
    requires id !in l
    ensures Unwatch(l, id) == l
  {
    if l != [] {
      UnwatchAbsent(l[1..], id);
      assert l == [l[0]] + l[1..];
    }
  }

  /** The filter works element by element, so the remaining ids keep their order. */
  lemma {:induction false} UnwatchAppend(a: seq<EpisodeId>, b: seq<EpisodeId>, id: EpisodeId)
    ensures Unwatch(a + b, id) == Unwatch(a, id) + Unwatch(b, id)
  {
    if a == [] {
      assert a + b == b;
    } else {
      assert (a + b)[1..] == a[1..] + b;
      UnwatchAppend(a[1..], b, id);
    }
  }

  /** Unwatching twice is unwatching once. */
  lemma UnwatchIdempotent(l: seq<EpisodeId>, id: EpisodeId)
    ensures Unwatch(Unwatch(l, id), id) == Unwatch(l, id)
  {
    UnwatchEffect(l, id);
    UnwatchAbsent(Unwatch(l, id), id);
  }

  /** Watching and then unwatching is the same as unwatching. */
  lemma UnwatchUndoesWatch(l: seq<EpisodeId>, id: EpisodeId)
    ensures Unwatch(Watch(l, id), id) == Unwatch(l, id)
  {
    if id !in l {
      UnwatchAppend(l, [id], id);
      assert Unwatch([id], id) == [];
    }
  }

  // ---------------------------------------------------------------------------
  // The handler

  /** The part of a User document this handler touches. */
  class User {
    var watchedEpisodes: seq<EpisodeId>

    constructor (watched: seq<EpisodeId>)
      ensures watchedEpisodes == watched
    {
      watchedEpisodes := watched;
    }
  }

  /** The JSON reply: the updated list, or a status code and message. */
  datatype Reply = Success(watchedEpisodes: seq<EpisodeId>) | Failure(status: nat, message: string)

  /**
   * `setWatched`: `watched` is None when the body's `watched` is not a
   * boolean, and `user` is null when `User.findById` finds nobody. A
   * non-boolean is rejected first, then a missing user; only then does the
   * list change, and the reply carries the saved list.
   */
  method SetWatched(user: User?, episodeId: EpisodeId, watched: Option<bool>) returns (r: Reply)
    modifies user
    ensures watched.None? ==> r == Failure(400, "watched must be boolean")
    ensures watched.Some? && user == null ==> r == Failure(401, "Unauthorized")
    ensures user != null && watched.None? ==> user.watchedEpisodes == old(user.watchedEpisodes)
    ensures user != null && watched.Some? ==>
      && user.watchedEpisodes == (if watched.value then Watch(old(user.watchedEpisodes), episodeId)
                                  else Unwatch(old(user.watchedEpisodes), episodeId))
      && r == Success(user.watchedEpisodes)
  {
    if watched.None? {
      return Failure(400, "watched must be boolean");
    }
    if user == null {
      return Failure(401, "Unauthorized");
    }
    if watched.value {
      if episodeId !in user.watchedEpisodes {
        user.watchedEpisodes := user.watchedEpisodes + [episodeId];
      }
    } else {
      user.watchedEpisodes := Unwatch(user.watchedEpisodes, episodeId);
    }
    return Success(user.watchedEpisodes);
  }
}
