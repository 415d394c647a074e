/** The account handlers of backend/controllers/user.js: `addFavorite`,
    `removeFavorite` and `deleteAccount`. `artistType` arrives as free text
    from the request body; a stored favorite's type is one of 'Group' and
    'Soloist' (backend/models/UserModel.js). */
module Users {
  import opened Common
  import opened Seqs
  import opened Schema

  /** `artistType === 'Group' ? 'Group' : 'Soloist'`. */
  function NormalizeKind(artistType: string): (k: ArtistKind)
    ensures k == Group <==> artistType == "Group"
    ensures artistType == "Group" || artistType == "Soloist" ==> KindName(k) == artistType
  {
    if artistType == "Group" then Group else Soloist
  }

  /** `fav.id.toString() === artistId && fav.type === artistType`: the type is
      compared as the body gave it. */
  predicate Matches(fav: Favorite, artistId: ArtistId, artistType: string)
  {
    fav.id == artistId && KindName(fav.kind) == artistType
  }

  /** `user.preferiti.find(...)`: the first matching entry, if any. */
  function FindFavorite(favorites: seq<Favorite>, artistId: ArtistId, artistType: string): (r: Option<Favorite>)
    ensures r.None? <==> forall i :: 0 <= i < |favorites| ==> !Matches(favorites[i], artistId, artistType)
    ensures r.Some? ==> r.value in favorites && Matches(r.value, artistId, artistType)
  {
    if favorites == [] then None
    else if Matches(favorites[0], artistId, artistType) then Some(favorites[0])
    else
      var r := FindFavorite(favorites[1..], artistId, artistType);
      assert forall i :: 1 <= i < |favorites| ==> favorites[i] == favorites[1..][i - 1];
      r
  }

  /** The list `addFavorite` leaves: unchanged when a matching entry exists,
      otherwise the new entry, with its type normalised, pushed at the end. */
  function AddFavoriteList(favorites: seq<Favorite>, artistId: ArtistId, artistType: string): (r: seq<Favorite>)
    ensures (exists i :: 0 <= i < |favorites| && Matches(favorites[i], artistId, artistType)) ==> r == favorites
    ensures (forall i :: 0 <= i < |favorites| ==> !Matches(favorites[i], artistId, artistType)) ==>
              r == favorites + [Favorite(artistId, NormalizeKind(artistType))]
  {
    if FindFavorite(favorites, artistId, artistType).None? then
      favorites + [Favorite(artistId, NormalizeKind(artistType))]
    else favorites
  }

  /** `preferiti.filter(fav => !(fav.id === artistId && fav.type === artistType))`. */
  function RemoveFavoriteList(favorites: seq<Favorite>, artistId: ArtistId, artistType: string): (r: seq<Favorite>)
    ensures forall f :: f in r <==> f in favorites && !Matches(f, artistId, artistType)
    ensures forall f :: !Matches(f, artistId, artistType) ==> Count(r, f) == Count(favorites, f)
    ensures |r| <= |favorites|
  {
    if favorites == [] then []
    else if Matches(favorites[0], artistId, artistType) then RemoveFavoriteList(favorites[1..], artistId, artistType)
    else [favorites[0]] + RemoveFavoriteList(favorites[1..], artistId, artistType)
  }

  /** `filter` keeps the surviving entries in their order: filtering a
      concatenation is concatenating the filtered parts. */
  lemma {:induction false} RemoveFavoriteAppend(a: seq<Favorite>, b: seq<Favorite>, artistId: ArtistId, artistType: string)
    ensures RemoveFavoriteList(a + b, artistId, artistType)
            == RemoveFavoriteList(a, artistId, artistType) + RemoveFavoriteList(b, artistId, artistType)
  {
    if a == [] {
      assert a + b == b;
    } else {
      assert (a + b)[0] == a[0];
      assert (a + b)[1..] == a[1..] + b;
      RemoveFavoriteAppend(a[1..], b, artistId, artistType);
    }
  }

  /** Filtering out what was never there changes nothing. */
  lemma {:induction false} RemoveAbsent(favorites: seq<Favorite>, artistId: ArtistId, artistType: string)
    requires forall i :: 0 <= i < |favorites| ==> !Matches(favorites[i], artistId, artistType)
    ensures RemoveFavoriteList(favorites, artistId, artistType) == favorites
  {
    if favorites != [] {
      assert forall i :: 1 <= i < |favorites| ==> favorites[1..][i - 1] == favorites[i];
      RemoveAbsent(favorites[1..], artistId, artistType);
    }
  }

  /** With a type of 'Group' or 'Soloist', adding then removing the same
      favorite leaves no entry for it, and leaves every other entry as it was. */
  lemma AddThenRemove(favorites: seq<Favorite>, artistId: ArtistId, artistType: string)
    requires artistType == "Group" || artistType == "Soloist"
    ensures var r := RemoveFavoriteList(AddFavoriteList(favorites, artistId, artistType), artistId, artistType);
            && Favorite(artistId, NormalizeKind(artistType)) !in r
            && r == RemoveFavoriteList(favorites, artistId, artistType)
  {
    var added := AddFavoriteList(favorites, artistId, artistType);
    var fav := Favorite(artistId, NormalizeKind(artistType));
    assert Matches(fav, artistId, artistType);
    if FindFavorite(favorites, artistId, artistType).None? {
      RemoveAppendMatch(favorites, fav, artistId, artistType);
    }
  }

  /** Filtering out an appended matching entry drops it. */
  lemma {:induction false} RemoveAppendMatch(favorites: seq<Favorite>, fav: Favorite, artistId: ArtistId, artistType: string)
    requires Matches(fav, artistId, artistType)
    ensures RemoveFavoriteList(favorites + [fav], artistId, artistType) == RemoveFavoriteList(favorites, artistId, artistType)
  {
    if favorites == [] {
      assert favorites + [fav] == [fav];
      assert [fav][1..] == [];
    } else {
      assert (favorites + [fav])[1..] == favorites[1..] + [fav];
      RemoveAppendMatch(favorites[1..], fav, artistId, artistType);
    }
  }

  /** With a type of 'Group' or 'Soloist', adding the same favorite twice is
      adding it once. */
  lemma AddFavoriteIdempotent(favorites: seq<Favorite>, artistId: ArtistId, artistType: string)
    requires artistType == "Group" || artistType == "Soloist"
    ensures var once := AddFavoriteList(favorites, artistId, artistType);
            AddFavoriteList(once, artistId, artistType) == once
  {
    var once := AddFavoriteList(favorites, artistId, artistType);
    if FindFavorite(favorites, artistId, artistType).None? {
      assert once[|favorites|] == Favorite(artistId, NormalizeKind(artistType));
      assert Matches(once[|favorites|], artistId, artistType);
    }
  }

  /** The deduplication compares the raw type, the stored entry has the
      normalised one: any other type ('group', say) adds a new 'Soloist' entry
      on every call. */
  lemma AddFavoriteDuplicates(artistId: ArtistId)
    ensures var once := AddFavoriteList([], artistId, "group");
            AddFavoriteList(once, artistId, "group") == [Favorite(artistId, Soloist), Favorite(artistId, Soloist)]
  {
    var once := AddFavoriteList([], artistId, "group");
    assert once == [Favorite(artistId, Soloist)];
    assert !Matches(once[0], artistId, "group");
  }

  /** The evidently intended `addFavorite`: deduplicate on the type that is
      stored. */
  function AddFavoriteListNormalized(favorites: seq<Favorite>, artistId: ArtistId, artistType: string): (r: seq<Favorite>)
    ensures Favorite(artistId, NormalizeKind(artistType)) in r
    ensures Favorite(artistId, NormalizeKind(artistType)) in favorites ==> r == favorites
    ensures Favorite(artistId, NormalizeKind(artistType)) !in favorites ==>
              r == favorites + [Favorite(artistId, NormalizeKind(artistType))]
  {
    var fav := Favorite(artistId, NormalizeKind(artistType));
    if fav in favorites then favorites else favorites + [fav]
  }

  /** The corrected add is idempotent for every type, and agrees with the
      source's whenever the type is 'Group' or 'Soloist'. */
  lemma AddFavoriteNormalizedIdempotent(favorites: seq<Favorite>, artistId: ArtistId, artistType: string)
    ensures var once := AddFavoriteListNormalized(favorites, artistId, artistType);
            AddFavoriteListNormalized(once, artistId, artistType) == once
    ensures artistType == "Group" || artistType == "Soloist" ==>
              AddFavoriteListNormalized(favorites, artistId, artistType) == AddFavoriteList(favorites, artistId, artistType)
  {
    var fav := Favorite(artistId, NormalizeKind(artistType));
    if artistType == "Group" || artistType == "Soloist" {
      assert forall f :: Matches(f, artistId, artistType) <==> f == fav;
      if fav in favorites {
        var i :| 0 <= i < |favorites| && favorites[i] == fav;
        assert Matches(favorites[i], artistId, artistType);
      }
    }
  }

  /** A response: status, the body's favorites list (empty for an error), and
      the store afterwards. */
  datatype FavoritesOutcome = FavoritesOutcome(status: nat, favorites: seq<Favorite>, state: State)

  /** addFavorite: 404 for a missing user, otherwise 200 with the new list. */
  function AddFavoriteSpec(s: State, caller: UserId, artistId: ArtistId, artistType: string): (r: FavoritesOutcome)
    ensures r.status == 404 <==> caller !in s.users
    ensures r.status == 404 ==> r.state == s
    ensures r.status == 200 ==> r.state == s.(users := s.users[caller := s.users[caller].(preferiti := r.favorites)])
    ensures r.status == 200 ==> |s.users[caller].preferiti| <= |r.favorites| <= |s.users[caller].preferiti| + 1
                                && r.favorites[..|s.users[caller].preferiti|] == s.users[caller].preferiti
  {
    if caller !in s.users then FavoritesOutcome(404, [], s)
    else
      var user := s.users[caller];
      var list := AddFavoriteList(user.preferiti, artistId, artistType);
      assert list[..|user.preferiti|] == user.preferiti;
      FavoritesOutcome(200, list, s.(users := s.users[caller := user.(preferiti := list)]))
  }

  /** removeFavorite: 404 for a missing user, otherwise 200 with the filtered list. */
  function RemoveFavoriteSpec(s: State, caller: UserId, artistId: ArtistId, artistType: string): (r: FavoritesOutcome)
    ensures r.status == 404 <==> caller !in s.users
    ensures r.status == 404 ==> r.state == s
    ensures r.status == 200 ==> r.state == s.(users := s.users[caller := s.users[caller].(preferiti := r.favorites)])
    ensures r.status == 200 ==> forall f :: f in r.favorites <==> f in s.users[caller].preferiti && !Matches(f, artistId, artistType)
    ensures r.status == 200 ==> r.favorites == RemoveFavoriteList(s.users[caller].preferiti, artistId, artistType)
  {
    if caller !in s.users then FavoritesOutcome(404, [], s)
    else
      var user := s.users[caller];
      var list := RemoveFavoriteList(user.preferiti, artistId, artistType);
      FavoritesOutcome(200, list, s.(users := s.users[caller := user.(preferiti := list)]))
  }

  /** Favorites are not part of the store invariants. */
  lemma FavoritesKeepConsistent(s: State, caller: UserId, artistId: ArtistId, artistType: string)
    requires Consistent(s)
    ensures Consistent(AddFavoriteSpec(s, caller, artistId, artistType).state)
    ensures Consistent(RemoveFavoriteSpec(s, caller, artistId, artistType).state)
  {
    var t := AddFavoriteSpec(s, caller, artistId, artistType).state;
    var u := RemoveFavoriteSpec(s, caller, artistId, artistType).state;
    forall c | c in s.comments
      ensures ReplyLinked(t, c) && ReplyLinked(u, c)
    {
      assert ReplyLinked(s, c);
    }
  }

  // ------------------------------------------------------------- deleteAccount

  /** `$pull: { favorites: userId }` on every document of one artist collection. */
  function PullFavorites(artists: map<ArtistRef, Artist>, kind: ArtistKind, userId: UserId): map<ArtistRef, Artist>
  {
    map a | a in artists :: if a.kind == kind then artists[a].(favorites := Pull(artists[a].favorites, userId)) else artists[a]
  }

  /** `Comment.deleteMany({ author: userId })`. */
  function DeleteAuthored(comments: map<CommentId, Comment>, userId: UserId): map<CommentId, Comment>
  {
    map k | k in comments && comments[k].author != userId :: comments[k]
  }

  /** `Comment.updateMany({ likes: userId }, { $pull: { likes: userId } })`. */
  function PullLikes(comments: map<CommentId, Comment>, userId: UserId): map<CommentId, Comment>
  {
    map k | k in comments :: comments[k].(likes := Pull(comments[k].likes, userId))
  }

  /** deleteAccount: in one transaction, delete the user and every comment
      they wrote, and take them out of every artist's favorites and every
      remaining comment's likes; 500 with nothing changed when the user is
      missing. */
  function DeleteAccountSpec(s: State, userId: UserId): (r: Outcome)
    ensures r.status == 500 <==> userId !in s.users
    ensures r.status == 200 <==> userId in s.users
    ensures r.status != 200 ==> r.state == s
    ensures r.state.nextId == s.nextId
  {
    if userId !in s.users then Outcome(500, s)
    else
      Outcome(200, State(
        PullLikes(DeleteAuthored(s.comments, userId), userId),
        PullFavorites(PullFavorites(s.artists, Group, userId), Soloist, userId),
        s.users - {userId},
        s.nextId))
  }

  /** After a successful delete no trace of the user is left in users,
      authors, favorites or likes; the other users, the artists' comment lists
      and members, and the remaining comments' texts and reply links are as
      they were, so ids of deleted comments stay listed where they were. */
  lemma DeleteAccountEffects(s: State, userId: UserId)
    requires userId in s.users
    ensures var t := DeleteAccountSpec(s, userId).state;
            && userId !in t.users
            && (forall u :: u in s.users && u != userId ==> u in t.users && t.users[u] == s.users[u])
            && (forall k :: k in t.comments <==> k in s.comments && s.comments[k].author != userId)
            && (forall k :: k in t.comments ==> userId !in t.comments[k].likes)
            && (forall k :: k in t.comments ==> t.comments[k] == s.comments[k].(likes := Pull(s.comments[k].likes, userId)))
            && t.artists.Keys == s.artists.Keys
            && (forall a :: a in t.artists ==> userId !in t.artists[a].favorites)
            && (forall a :: a in t.artists ==> t.artists[a] == s.artists[a].(favorites := Pull(s.artists[a].favorites, userId)))
  {
    var t := DeleteAccountSpec(s, userId).state;
    forall a | a in t.artists
      ensures t.artists[a] == s.artists[a].(favorites := Pull(s.artists[a].favorites, userId))
    {
      if a.kind == Soloist {
        assert PullFavorites(s.artists, Group, userId)[a] == s.artists[a];
      } else {
        PullAbsent<UserId>(Pull(s.artists[a].favorites, userId), userId);
      }
    }
  }

  /** deleteAccount keeps the store consistent: the deleted comments may leave
      dangling ids behind, which the invariants allow. */
  lemma DeleteAccountKeepsConsistent(s: State, userId: UserId)
    requires Consistent(s)
    ensures Consistent(DeleteAccountSpec(s, userId).state)
  {
    if userId in s.users {
      var t := DeleteAccountSpec(s, userId).state;
      DeleteAccountEffects(s, userId);
      forall c | c in t.comments
        ensures NoDup(t.comments[c].likes)
      {
        PullNoDup<UserId>(s.comments[c].likes, userId);
      }
      forall c | c in t.comments
        ensures ReplyLinked(t, c)
      {
        assert ReplyLinked(s, c);
      }
    }
  }

  // ------------------------------------------------------------------ handlers

  /** `addFavorite`: find a matching entry, push the new one if there is none. */
  method AddFavorite(db: Database, caller: UserId, artistId: ArtistId, artistType: string)
    returns (status: nat, favorites: seq<Favorite>)
    requires db.Valid()
    modifies db
    ensures db.Valid()
    ensures FavoritesOutcome(status, favorites, db.Snapshot()) == AddFavoriteSpec(old(db.Snapshot()), caller, artistId, artistType)
  {
    FavoritesKeepConsistent(db.Snapshot(), caller, artistId, artistType);
    if caller !in db.users {
      return 404, [];
    }
    var user := db.users[caller];
    var existing := FindFavorite(user.preferiti, artistId, artistType);
    if existing.None? {
      var validType := NormalizeKind(artistType);
      user := user.(preferiti := user.preferiti + [Favorite(artistId, validType)]);
    }
    db.users := db.users[caller := user];
    status, favorites := 200, user.preferiti;
  }

  /** `removeFavorite`: reassign the filtered list. */
  method RemoveFavorite(db: Database, caller: UserId, artistId: ArtistId, artistType: string)
    returns (status: nat, favorites: seq<Favorite>)
    requires db.Valid()
    modifies db
    ensures db.Valid()
    ensures FavoritesOutcome(status, favorites, db.Snapshot()) == RemoveFavoriteSpec(old(db.Snapshot()), caller, artistId, artistType)
  {
    FavoritesKeepConsistent(db.Snapshot(), caller, artistId, artistType);
    if caller !in db.users {
      return 404, [];
    }
    var user := db.users[caller];
    user := user.(preferiti := RemoveFavoriteList(user.preferiti, artistId, artistType));
    db.users := db.users[caller := user];
    status, favorites := 200, user.preferiti;
  }

  /** `deleteAccount`: each step writes into the transaction's view; the view
      is committed at the end, or dropped when the user is missing. */
  method DeleteAccount(db: Database, userId: UserId) returns (status: nat)
    requires db.Valid()
    modifies db
    ensures db.Valid()
    ensures Outcome(status, db.Snapshot()) == DeleteAccountSpec(old(db.Snapshot()), userId)
  {
    ghost var s := db.Snapshot();
    DeleteAccountKeepsConsistent(s, userId);
    if userId !in db.users {
      return 500;
    }
    var users := db.users - {userId};
    var comments := DeleteAuthored(db.comments, userId);
    var artists := PullFavorites(db.artists, Group, userId);
    artists := PullFavorites(artists, Soloist, userId);
    comments := PullLikes(comments, userId);
    db.users, db.comments, db.artists := users, comments, artists;
    status := 200;
  }
}
