/** The comment handlers of controllers/group.js and
    controllers/soloistController.js. The two files hold the same code for the
    two artist collections, so each handler is written once over an ArtistRef;
    the one place where they differ, the soloist `replyToComment`, has its own
    member. Each handler is a method over the Database whose effect is the
    function of the old store named beside it. */
module Comments {
  import opened Common
  import opened Seqs
  import opened Schema

  /** Mongoose's `required` validator on a String path: a missing value and the
      empty string both fail it. */
  predicate TextValid(text: Option<string>)
  {
    text.Some? && text.value != ""
  }

  /** `parentComment.replies.push(id)`, done only when the parent is found. */
  function LinkReply(comments: map<CommentId, Comment>, parent: Option<CommentId>, id: CommentId): map<CommentId, Comment>
  {
    if parent.Some? && parent.value in comments then
      comments[parent.value := comments[parent.value].(replies := comments[parent.value].replies + [id])]
    else
      comments
  }

  /** `artist.comments.push(id)`. */
  function AppendCommentRef(artists: map<ArtistRef, Artist>, target: ArtistRef, id: CommentId): map<ArtistRef, Artist>
    requires target in artists
  {
    artists[target := artists[target].(comments := artists[target].comments + [id])]
  }

  // ---------------------------------------------------------------- addComment

  /** addComment: 404 when the artist is missing; 400 when the new comment fails
      validation on save (before anything is written); otherwise the comment is
      stored, linked from its parent if that parent exists, appended to the
      artist's `comments`, and the answer is 201. */
  function AddCommentSpec(s: State, target: ArtistRef, caller: UserId, text: Option<string>, parent: Option<CommentId>): (r: Outcome)
    ensures r.status == 404 <==> target !in s.artists
    ensures r.status == 400 <==> target in s.artists && !TextValid(text)
    ensures r.status == 201 <==> target in s.artists && TextValid(text)
    ensures r.status != 201 ==> r.state == s
  {
    if target !in s.artists then Outcome(404, s)
    else if !TextValid(text) then Outcome(400, s)
    else
      var id := s.nextId;
      var stored := s.comments[id := Comment(text.value, caller, [], parent, [])];
      Outcome(201, State(LinkReply(stored, parent, id), AppendCommentRef(s.artists, target, id), s.users, id + 1))
  }

  /** A successful addComment stores a comment by the caller with the given
      parent, and lists its id exactly once, at the end of the artist's
      `comments`; no other artist and no user changes. */
  lemma AddCommentCreates(s: State, target: ArtistRef, caller: UserId, text: Option<string>, parent: Option<CommentId>)
    requires Consistent(s)
    requires target in s.artists && TextValid(text)
    ensures var t := AddCommentSpec(s, target, caller, text, parent).state;
            var id := s.nextId;
            && id !in s.comments && id in t.comments
            && t.comments[id].text == text.value
            && t.comments[id].author == caller
            && t.comments[id].parentComment == parent
            && t.comments[id].likes == []
            && t.artists[target].comments == s.artists[target].comments + [id]
            && Count(t.artists[target].comments, id) == 1
            && t.artists.Keys == s.artists.Keys
            && (forall a :: a in s.artists && a != target ==> t.artists[a] == s.artists[a])
            && t.users == s.users
  {
    var id := s.nextId;
    var before := s.artists[target].comments;
    assert id !in before;
    CountAppend(before, [id], id);
  }

  /** The parent link of addComment: an existing parent gets the new id at the
      end of its `replies`; a parent id that names no comment is skipped
      silently, and the comment is stored with that `parentComment` anyway. */
  lemma AddCommentParentLink(s: State, target: ArtistRef, caller: UserId, text: Option<string>, p: CommentId)
    requires Consistent(s)
    requires target in s.artists && TextValid(text)
    ensures var t := AddCommentSpec(s, target, caller, text, Some(p)).state;
            var id := s.nextId;
            && (p in s.comments ==>
                  t.comments == s.comments[id := Comment(text.value, caller, [], Some(p), [])]
                                          [p := s.comments[p].(replies := s.comments[p].replies + [id])])
            && (p !in s.comments && p != id ==>
                  t.comments == s.comments[id := Comment(text.value, caller, [], Some(p), [])])
  {
    var id := s.nextId;
    assert id !in s.comments;
    if p in s.comments {
      assert p != id;
    }
  }

  /** addComment keeps the store consistent. */
  lemma AddCommentKeepsConsistent(s: State, target: ArtistRef, caller: UserId, text: Option<string>, parent: Option<CommentId>)
    requires Consistent(s)
    ensures Consistent(AddCommentSpec(s, target, caller, text, parent).state)
  {
    if target in s.artists && TextValid(text) {
      var t := AddCommentSpec(s, target, caller, text, parent).state;
      var id := s.nextId;
      var stored := s.comments[id := Comment(text.value, caller, [], parent, [])];
      assert t.comments == LinkReply(stored, parent, id);
      forall c | c in t.comments
        ensures c < t.nextId && IdsBelow(t.comments[c].replies, t.nextId)
        ensures NoDup(t.comments[c].likes)
        ensures ReplyLinked(t, c)
      {
        assert c in stored;
        assert t.comments[c].likes == stored[c].likes;
        assert forall x :: x in t.comments[c].replies ==> x in stored[c].replies || x == id;
        if c != id {
          assert stored[c] == s.comments[c];
          assert c < id;
          match s.comments[c].parentComment
          case None =>
          case Some(q) =>
            if q in t.comments && q < c {
              assert q in s.comments;
              assert c in s.comments[q].replies;
              assert c in stored[q].replies;
            }
        }
      }
      forall a | a in t.artists
        ensures IdsBelow(t.artists[a].comments, t.nextId)
      {
      }
    }
  }

  // ------------------------------------------------------------ replyToComment

  /** replyToComment (controllers/group.js): 404 when the artist or the parent
      comment is missing, then 400 when the reply fails validation; otherwise
      the reply is stored, appended to the parent's `replies` and to the
      artist's `comments`, and the answer is 201. */
  function ReplyToCommentSpec(s: State, target: ArtistRef, parentId: CommentId, caller: UserId, text: Option<string>): (r: Outcome)
    ensures r.status == 404 <==> target !in s.artists || parentId !in s.comments
    ensures r.status == 400 <==> target in s.artists && parentId in s.comments && !TextValid(text)
    ensures r.status != 201 ==> r.state == s
  {
    if target !in s.artists || parentId !in s.comments then Outcome(404, s)
    else if !TextValid(text) then Outcome(400, s)
    else
      var id := s.nextId;
      var parent := s.comments[parentId];
      var comments := s.comments[id := Comment(text.value, caller, [], Some(parentId), [])]
                                [parentId := parent.(replies := parent.replies + [id])];
      Outcome(201, State(comments, AppendCommentRef(s.artists, target, id), s.users, id + 1))
  }

  /** Once the parent is found, a reply is exactly addComment with that parent;
      where addComment skips a missing parent, replyToComment answers 404. */
  lemma ReplyIsAddWithParent(s: State, target: ArtistRef, parentId: CommentId, caller: UserId, text: Option<string>)
    requires Consistent(s)
    ensures parentId in s.comments ==>
              ReplyToCommentSpec(s, target, parentId, caller, text) == AddCommentSpec(s, target, caller, text, Some(parentId))
    ensures parentId !in s.comments && parentId != s.nextId && target in s.artists && TextValid(text) ==>
              && ReplyToCommentSpec(s, target, parentId, caller, text).status == 404
              && AddCommentSpec(s, target, caller, text, Some(parentId)).status == 201
  {
    if parentId in s.comments && target in s.artists && TextValid(text) {
      var id := s.nextId;
      assert id !in s.comments;
      assert parentId != id;
      var stored := s.comments[id := Comment(text.value, caller, [], Some(parentId), [])];
      assert stored[parentId] == s.comments[parentId];
    }
  }

  /** A reply is listed both by its parent and by the artist. */
  lemma ReplyLinksBoth(s: State, target: ArtistRef, parentId: CommentId, caller: UserId, text: Option<string>)
    requires Consistent(s)
    requires target in s.artists && parentId in s.comments && TextValid(text)
    ensures var t := ReplyToCommentSpec(s, target, parentId, caller, text).state;
            && s.nextId in t.comments && t.comments[s.nextId].parentComment == Some(parentId)
            && t.comments[parentId].replies == s.comments[parentId].replies + [s.nextId]
            && t.artists[target].comments == s.artists[target].comments + [s.nextId]
            && Consistent(t)
  {
    ReplyIsAddWithParent(s, target, parentId, caller, text);
    AddCommentKeepsConsistent(s, target, caller, text, Some(parentId));
    AddCommentParentLink(s, target, caller, text, parentId);
  }

  /** The soloist replyToComment as written: it looks the soloist up through
      `Group`, a name controllers/soloistController.js never imports, so the
      lookup throws a ReferenceError and the handler answers 400 every time.
      The intended behaviour is ReplyToCommentSpec with a soloist target. */
  function SoloistReplyToCommentSpec(s: State, soloistId: ArtistId, parentId: CommentId, caller: UserId, text: Option<string>): Outcome
  {
    Outcome(400, s)
  }

  /** The discrepancy: for every soloist, parent and valid text, the intended
      reply succeeds and the written one fails without touching the store. */
  lemma SoloistReplyAlwaysFails(s: State, soloistId: ArtistId, parentId: CommentId, caller: UserId, text: Option<string>)
    requires Consistent(s)
    requires ArtistRef(Soloist, soloistId) in s.artists && parentId in s.comments && TextValid(text)
    ensures SoloistReplyToCommentSpec(s, soloistId, parentId, caller, text) == Outcome(400, s)
    ensures ReplyToCommentSpec(s, ArtistRef(Soloist, soloistId), parentId, caller, text).status == 201
    ensures ReplyToCommentSpec(s, ArtistRef(Soloist, soloistId), parentId, caller, text).state != s
  {
    var t := ReplyToCommentSpec(s, ArtistRef(Soloist, soloistId), parentId, caller, text).state;
    assert t.nextId == s.nextId + 1;
  }

  // ------------------------------------------------------------- deleteComment

  /** The delete check: the caller wrote the comment or is an admin. */
  predicate MayDelete(c: Comment, caller: Principal)
  {
    c.author == caller.id || caller.ruolo == Admin
  }

  /** `$pull: { replies: id }` on the parent, a no-op when no parent is found. */
  function UnlinkReply(comments: map<CommentId, Comment>, parent: Option<CommentId>, id: CommentId): map<CommentId, Comment>
  {
    if parent.Some? && parent.value in comments then
      comments[parent.value := comments[parent.value].(replies := Pull(comments[parent.value].replies, id))]
    else
      comments
  }

  /** `Comment.deleteMany({ $or: [{ _id: id }, { parentComment: id }] })`. */
  function DeleteWithChildren(comments: map<CommentId, Comment>, id: CommentId): map<CommentId, Comment>
  {
    map k | k in comments && k != id && comments[k].parentComment != Some(id) :: comments[k]
  }

  /** deleteComment: 404 for a missing artist, then 404 for a missing comment,
      then 403 unless the caller wrote it or is an admin; each failure leaves
      the store as it was. Otherwise the id is pulled from this artist's
      `comments` and from the parent's `replies`, the comment and its direct
      replies are deleted, and the answer is 200. Whether the comment belongs
      to this artist is never checked. */
  function DeleteCommentSpec(s: State, target: ArtistRef, commentId: CommentId, caller: Principal): (r: Outcome)
    ensures r.status == 404 <==> target !in s.artists || commentId !in s.comments
    ensures r.status == 403 <==> target in s.artists && commentId in s.comments && !MayDelete(s.comments[commentId], caller)
    ensures r.status == 200 <==> target in s.artists && commentId in s.comments && MayDelete(s.comments[commentId], caller)
    ensures r.status != 200 ==> r.state == s
  {
    if target !in s.artists then Outcome(404, s)
    else if commentId !in s.comments then Outcome(404, s)
    else if !MayDelete(s.comments[commentId], caller) then Outcome(403, s)
    else
      var artist := s.artists[target];
      var artists := s.artists[target := artist.(comments := Pull(artist.comments, commentId))];
      var unlinked := UnlinkReply(s.comments, s.comments[commentId].parentComment, commentId);
      Outcome(200, State(DeleteWithChildren(unlinked, commentId), artists, s.users, s.nextId))
  }

  /** What a successful delete does: the comment and exactly its direct replies
      leave the store; its id leaves this artist's list and its parent's
      `replies`; nothing else changes. */
  lemma DeleteCommentEffects(s: State, target: ArtistRef, commentId: CommentId, caller: Principal)
    requires target in s.artists && commentId in s.comments && MayDelete(s.comments[commentId], caller)
    ensures var t := DeleteCommentSpec(s, target, commentId, caller).state;
            var parent := s.comments[commentId].parentComment;
            && (forall k :: k in t.comments <==> k in s.comments && k != commentId && s.comments[k].parentComment != Some(commentId))
            && t.artists[target].comments == Pull(s.artists[target].comments, commentId)
            && t.artists.Keys == s.artists.Keys
            && (forall a :: a in s.artists && a != target ==> t.artists[a] == s.artists[a])
            && (forall k :: k in t.comments && parent != Some(k) ==> t.comments[k] == s.comments[k])
            && (parent.Some? && parent.value in t.comments ==>
                  t.comments[parent.value] == s.comments[parent.value].(replies := Pull(s.comments[parent.value].replies, commentId)))
            && t.users == s.users
  {
  }

  /** The cascade stops after one level: a reply to a deleted reply survives,
      pointing at a comment that no longer exists, and the deleted reply's id
      stays in the artist's `comments`. */
  lemma DeleteLeavesGrandchildren(s: State, target: ArtistRef, commentId: CommentId, caller: Principal, child: CommentId, grandchild: CommentId)
    requires target in s.artists && commentId in s.comments && MayDelete(s.comments[commentId], caller)
    requires child in s.comments && child != commentId && s.comments[child].parentComment == Some(commentId)
    requires grandchild in s.comments && grandchild != commentId && s.comments[grandchild].parentComment == Some(child)
    ensures var t := DeleteCommentSpec(s, target, commentId, caller).state;
            && child !in t.comments
            && grandchild in t.comments
            && t.comments[grandchild].parentComment == Some(child)
            && (child in s.artists[target].comments ==> child in t.artists[target].comments)
  {
    var t := DeleteCommentSpec(s, target, commentId, caller).state;
    DeleteCommentEffects(s, target, commentId, caller);
    assert Some(child) != Some(commentId);
    PullSubset<CommentId>(s.artists[target].comments, commentId, child);
  }

  /** Ownership is not checked: deleting through an artist that does not list
      the comment still deletes it, and leaves that artist's list as it was
      (the owner keeps a dangling id). */
  lemma DeleteIgnoresOwnership(s: State, target: ArtistRef, commentId: CommentId, caller: Principal)
    requires target in s.artists && commentId in s.comments && MayDelete(s.comments[commentId], caller)
    requires commentId !in s.artists[target].comments
    ensures var r := DeleteCommentSpec(s, target, commentId, caller);
            && r.status == 200
            && commentId !in r.state.comments
            && r.state.artists == s.artists
  {
    var artist := s.artists[target];
    PullAbsent(artist.comments, commentId);
    assert artist.(comments := Pull(artist.comments, commentId)) == artist;
  }

  /** deleteComment keeps the store consistent. */
  lemma DeleteCommentKeepsConsistent(s: State, target: ArtistRef, commentId: CommentId, caller: Principal)
    requires Consistent(s)
    ensures Consistent(DeleteCommentSpec(s, target, commentId, caller).state)
  {
    if target in s.artists && commentId in s.comments && MayDelete(s.comments[commentId], caller) {
      var t := DeleteCommentSpec(s, target, commentId, caller).state;
      var parent := s.comments[commentId].parentComment;
      DeleteCommentEffects(s, target, commentId, caller);
      forall c | c in t.comments
        ensures c < t.nextId && IdsBelow(t.comments[c].replies, t.nextId)
        ensures NoDup(t.comments[c].likes)
        ensures ReplyLinked(t, c)
      {
        assert c in s.comments && c != commentId;
        assert t.comments[c].likes == s.comments[c].likes;
        assert t.comments[c].parentComment == s.comments[c].parentComment;
        forall x | x in t.comments[c].replies
          ensures x in s.comments[c].replies
        {
          if parent == Some(c) {
            PullSubset<CommentId>(s.comments[c].replies, commentId, x);
          }
        }
        assert ReplyLinked(s, c);
        match s.comments[c].parentComment
        case None =>
        case Some(q) =>
          if q in t.comments && q < c {
            assert q in s.comments;
            assert c in s.comments[q].replies;
            if parent == Some(q) {
              PullSubset<CommentId>(s.comments[q].replies, commentId, c);
              assert c in t.comments[q].replies;
            } else {
              assert t.comments[q] == s.comments[q];
            }
          }
      }
      forall a | a in t.artists
        ensures IdsBelow(t.artists[a].comments, t.nextId)
      {
        assert IdsBelow(s.artists[a].comments, s.nextId);
        if a == target {
          assert t.artists[a].comments == Pull(s.artists[a].comments, commentId);
          forall x | x in t.artists[a].comments
            ensures x < t.nextId
          {
            PullSubset<CommentId>(s.artists[a].comments, commentId, x);
            assert x in s.artists[a].comments;
            assert t.nextId == s.nextId;
          }
        }
      }
    }
  }

  // --------------------------------------------------------------- likeComment

  /** `indexOf`, then `splice(i, 1)` when found or `push` when not: the caller's
      first like is taken back, or a like is added at the end. */
  function Toggle(likes: seq<UserId>, user: UserId): (r: seq<UserId>)
    ensures user !in likes ==> r == likes + [user]
    ensures user in likes ==> Count(r, user) == Count(likes, user) - 1
    ensures forall y :: y != user ==> Count(r, y) == Count(likes, y)
  {
    var i := IndexOf<UserId>(likes, user);
    if i > -1 then
      SpliceCount<UserId>(likes, i);
      Splice<UserId>(likes, i)
    else
      PushCount<UserId>(likes, user);
      likes + [user]
  }

  /** A toggle keeps `likes` duplicate-free, and flips the caller's membership. */
  lemma ToggleFlips(likes: seq<UserId>, user: UserId)
    requires NoDup(likes)
    ensures NoDup(Toggle(likes, user))
    ensures user in Toggle(likes, user) <==> user !in likes
  {
    var r := Toggle(likes, user);
    if user in likes {
      NoDupCount(likes, user);
      var i := IndexOf<UserId>(likes, user);
      assert r == Splice(likes, i);
      forall a, b | 0 <= a < b < |r|
        ensures r[a] != r[b]
      {
        var a' := if a < i then a else a + 1;
        var b' := if b < i then b else b + 1;
        assert r[a] == likes[a'] && r[b] == likes[b'];
      }
    } else {
      forall a, b | 0 <= a < b < |r|
        ensures r[a] != r[b]
      {
        if b == |likes| {
          assert r[a] == likes[a];
        }
      }
    }
  }

  /** Two toggles by the same user restore who likes the comment. */
  lemma ToggleTwiceMembership(likes: seq<UserId>, user: UserId, y: UserId)
    requires NoDup(likes)
    ensures y in Toggle(Toggle(likes, user), user) <==> y in likes
  {
    ToggleFlips(likes, user);
    ToggleFlips(Toggle(likes, user), user);
    if y != user {
      assert Count(Toggle(Toggle(likes, user), user), y) == Count(likes, y);
    }
  }

  /** Starting without the user's like, two toggles give back the same list. */
  lemma ToggleTwiceFromAbsent(likes: seq<UserId>, user: UserId)
    requires user !in likes
    ensures Toggle(Toggle(likes, user), user) == likes
  {
    var once := likes + [user];
    assert IndexOf(once, user) == |likes| by {
      assert once[|likes|] == user;
      assert once[..|likes|] == likes;
    }
    assert once[..|likes|] + once[|likes| + 1..] == likes;
  }

  /** Starting with the user's like, two toggles move it to the end: the order
      of `likes` is not restored. */
  lemma ToggleTwiceFromPresent(likes: seq<UserId>, user: UserId)
    requires NoDup(likes) && user in likes
    ensures Toggle(Toggle(likes, user), user) == Pull(likes, user) + [user]
  {
    NoDupCount(likes, user);
    SpliceIsPull(likes, user);
    assert Toggle(likes, user) == Pull(likes, user);
  }

  /** Without the duplicate-free invariant two toggles need not restore
      membership: from [u, u] they remove both likes. */
  lemma ToggleTwiceWithDuplicate(user: UserId)
    ensures Toggle(Toggle([user, user], user), user) == []
  {
    assert IndexOf([user, user], user) == 0;
    assert Splice([user, user], 0) == [user];
    assert IndexOf([user], user) == 0;
  }

  /** likeComment: 404 when the comment is missing; otherwise the caller's like
      is toggled on that comment only, and the answer is 200. The artist id in
      the path is never read. */
  function LikeCommentSpec(s: State, commentId: CommentId, user: UserId): (r: Outcome)
    ensures r.status == 404 <==> commentId !in s.comments
    ensures r.status == 200 <==> commentId in s.comments
    ensures r.status != 200 ==> r.state == s
    ensures r.state.artists == s.artists && r.state.users == s.users && r.state.nextId == s.nextId
    ensures r.state.comments.Keys == s.comments.Keys
    ensures forall k :: k in s.comments && k != commentId ==> r.state.comments[k] == s.comments[k]
    ensures commentId in s.comments ==>
              r.state.comments[commentId] == s.comments[commentId].(likes := Toggle(s.comments[commentId].likes, user))
  {
    if commentId !in s.comments then Outcome(404, s)
    else
      var c := s.comments[commentId];
      Outcome(200, s.(comments := s.comments[commentId := c.(likes := Toggle(c.likes, user))]))
  }

  /** likeComment keeps the store consistent. */
  lemma LikeCommentKeepsConsistent(s: State, commentId: CommentId, user: UserId)
    requires Consistent(s)
    ensures Consistent(LikeCommentSpec(s, commentId, user).state)
  {
    if commentId in s.comments {
      ToggleFlips(s.comments[commentId].likes, user);
      var t := LikeCommentSpec(s, commentId, user).state;
      forall c | c in t.comments
        ensures ReplyLinked(t, c)
      {
        assert ReplyLinked(s, c);
      }
    }
  }

  /** One like flips whether the caller likes the comment and leaves every
      other user's like as it was: added when absent, taken back when present. */
  lemma LikeOnce(s: State, commentId: CommentId, user: UserId)
    requires Consistent(s) && commentId in s.comments
    ensures var likes := LikeCommentSpec(s, commentId, user).state.comments[commentId].likes;
            && (user in likes <==> user !in s.comments[commentId].likes)
            && (forall y :: y != user ==> (y in likes <==> y in s.comments[commentId].likes))
            && NoDup(likes)
  {
    var before := s.comments[commentId].likes;
    ToggleFlips(before, user);
    forall y | y != user
      ensures y in Toggle(before, user) <==> y in before
    {
      assert Count(Toggle(before, user), y) == Count(before, y);
    }
  }

  /** Liking twice restores who likes every comment, and when the caller had not
      liked the comment, restores the whole store. */
  lemma LikeTwice(s: State, commentId: CommentId, user: UserId)
    requires Consistent(s) && commentId in s.comments
    ensures var t := LikeCommentSpec(LikeCommentSpec(s, commentId, user).state, commentId, user).state;
            && t.comments.Keys == s.comments.Keys
            && (forall y :: y in t.comments[commentId].likes <==> y in s.comments[commentId].likes)
            && (user !in s.comments[commentId].likes ==> t == s)
  {
    var c := s.comments[commentId];
    var t := LikeCommentSpec(LikeCommentSpec(s, commentId, user).state, commentId, user).state;
    assert t.comments[commentId] == c.(likes := Toggle(Toggle(c.likes, user), user));
    forall y
      ensures y in t.comments[commentId].likes <==> y in c.likes
    {
      ToggleTwiceMembership(c.likes, user, y);
    }
    if user !in c.likes {
      ToggleTwiceFromAbsent(c.likes, user);
      assert t.comments == s.comments;
    }
  }

  // ------------------------------------------------------------------ handlers

  /** `addComment` (group and soloist). `caller` is `req.user._id`; `text` and
      `parentCommentId` come from the body. */
  method AddComment(db: Database, target: ArtistRef, caller: UserId, text: Option<string>, parentCommentId: Option<CommentId>)
    returns (status: nat)
    requires db.Valid()
    modifies db
    ensures db.Valid()
    ensures Outcome(status, db.Snapshot()) == AddCommentSpec(old(db.Snapshot()), target, caller, text, parentCommentId)
  {
    AddCommentKeepsConsistent(db.Snapshot(), target, caller, text, parentCommentId);
    if target !in db.artists {
      return 404;
    }
    if !TextValid(text) {
      return 400;
    }
    var id := db.nextId;
    db.nextId := db.nextId + 1;
    db.comments := db.comments[id := Comment(text.value, caller, [], parentCommentId, [])];
    if parentCommentId.Some? && parentCommentId.value in db.comments {
      var parent := db.comments[parentCommentId.value];
      db.comments := db.comments[parentCommentId.value := parent.(replies := parent.replies + [id])];
    }
    var artist := db.artists[target];
    db.artists := db.artists[target := artist.(comments := artist.comments + [id])];
    status := 201;
  }

  /** `replyToComment` of controllers/group.js, for either collection. */
  method ReplyToComment(db: Database, target: ArtistRef, parentId: CommentId, caller: UserId, text: Option<string>)
    returns (status: nat)
    requires db.Valid()
    modifies db
    ensures db.Valid()
    ensures Outcome(status, db.Snapshot()) == ReplyToCommentSpec(old(db.Snapshot()), target, parentId, caller, text)
  {
    ReplyIsAddWithParent(db.Snapshot(), target, parentId, caller, text);
    AddCommentKeepsConsistent(db.Snapshot(), target, caller, text, Some(parentId));
    if target !in db.artists {
      return 404;
    }
    if parentId !in db.comments {
      return 404;
    }
    if !TextValid(text) {
      return 400;
    }
    var id := db.nextId;
    db.nextId := db.nextId + 1;
    db.comments := db.comments[id := Comment(text.value, caller, [], Some(parentId), [])];
    var parent := db.comments[parentId];
    db.comments := db.comments[parentId := parent.(replies := parent.replies + [id])];
    var artist := db.artists[target];
    db.artists := db.artists[target := artist.(comments := artist.comments + [id])];
    status := 201;
  }

  /** `replyToComment` of controllers/soloistController.js as written: the
      lookup through the unimported `Group` throws before anything is read or
      written, and the catch block answers 400. */
  method SoloistReplyToComment(db: Database, soloistId: ArtistId, parentId: CommentId, caller: UserId, text: Option<string>)
    returns (status: nat)
    ensures Outcome(status, db.Snapshot()) == SoloistReplyToCommentSpec(db.Snapshot(), soloistId, parentId, caller, text)
  {
    status := 400;
  }

  /** `deleteComment` (group and soloist). */
  method DeleteComment(db: Database, target: ArtistRef, commentId: CommentId, caller: Principal)
    returns (status: nat)
    requires db.Valid()
    modifies db
    ensures db.Valid()
    ensures Outcome(status, db.Snapshot()) == DeleteCommentSpec(old(db.Snapshot()), target, commentId, caller)
  {
    DeleteCommentKeepsConsistent(db.Snapshot(), target, commentId, caller);
    if target !in db.artists {
      return 404;
    }
    if commentId !in db.comments {
      return 404;
    }
    var comment := db.comments[commentId];
    if comment.author != caller.id && caller.ruolo != Admin {
      return 403;
    }
    var artist := db.artists[target];
    db.artists := db.artists[target := artist.(comments := Pull(artist.comments, commentId))];
    if comment.parentComment.Some? && comment.parentComment.value in db.comments {
      var parent := db.comments[comment.parentComment.value];
      db.comments := db.comments[comment.parentComment.value := parent.(replies := Pull(parent.replies, commentId))];
    }
    db.comments := map k | k in db.comments && k != commentId && db.comments[k].parentComment != Some(commentId) :: db.comments[k];
    status := 200;
  }

  /** `likeComment` (group and soloist); the artist id is not an input because
      the handler never reads it. */
  method LikeComment(db: Database, commentId: CommentId, caller: UserId)
    returns (status: nat)
    requires db.Valid()
    modifies db
    ensures db.Valid()
    ensures Outcome(status, db.Snapshot()) == LikeCommentSpec(old(db.Snapshot()), commentId, caller)
  {
    ghost var s := db.Snapshot();
    ghost var r := LikeCommentSpec(s, commentId, caller);
    LikeCommentKeepsConsistent(s, commentId, caller);
    if commentId !in db.comments {
      return 404;
    }
    var comment := db.comments[commentId];
    var likeIndex := IndexOf<UserId>(comment.likes, caller);
    var likes;
    if likeIndex > -1 {
      likes := Splice<UserId>(comment.likes, likeIndex);
    } else {
      likes := comment.likes + [caller];
    }
    assert likes == Toggle(comment.likes, caller);
    db.comments := db.comments[commentId := comment.(likes := likes)];
    assert db.Snapshot() == r.state;
    status := 200;
  }
}
