/** The documents of the four collections (models/CommentModel.js,
    models/GroupModel.js, models/SoloistModel.js, models/UserModel.js), the
    store that holds them, and the invariants every controller keeps. */
module Schema {
  import opened Common
  import opened Seqs

  /** `ruolo`: one of 'utente' (the default) and 'admin'. */
  datatype Role = Utente | Admin

  /** The two artist collections, and the `type` tag of a favorite. */
  datatype ArtistKind = Group | Soloist

  /** The string stored in a favorite's `type` field. */
  function KindName(k: ArtistKind): (name: string)
    ensures name == "Group" || name == "Soloist"
  {
    match k
    case Group => "Group"
    case Soloist => "Soloist"
  }

  /** An entry `{ type, id }` of a user's `preferiti`. */
  datatype Favorite = Favorite(id: ArtistId, kind: ArtistKind)

  /** A user document, reduced to the fields the core reads and writes. */
  datatype User = User(ruolo: Role, preferiti: seq<Favorite>)

  /** The authenticated caller as the middleware leaves it in `req.user`. */
  datatype Principal = Principal(id: UserId, ruolo: Role)

  /** A comment document. `date` is left to the clock and not modelled. */
  datatype Comment = Comment(
    text: string,
    author: UserId,
    likes: seq<UserId>,
    parentComment: Option<CommentId>,
    replies: seq<CommentId>)

  /** A member sub-document of a group. The string-typed paths (name,
      stageName, birthday, zodiacSign, mbtiType, nationality, instagram, bio,
      photo) are kept by path name in `texts`. */
  datatype Member = Member(
    id: MemberId,
    texts: map<string, string>,
    height: Option<real>,
    weight: Option<real>,
    position: seq<string>)

  /** The part of a group or soloist document the core touches. Soloists have
      no members; theirs stays empty. */
  datatype Artist = Artist(comments: seq<CommentId>, favorites: seq<UserId>, members: seq<Member>)

  /** Which artist document: its collection and its id. */
  datatype ArtistRef = ArtistRef(kind: ArtistKind, id: ArtistId)

  /** The contents of the store. `nextId` is the ObjectId generator: every id
      the store creates is drawn from it. */
  datatype State = State(
    comments: map<CommentId, Comment>,
    artists: map<ArtistRef, Artist>,
    users: map<UserId, User>,
    nextId: nat)

  predicate IdsBelow(ids: seq<nat>, bound: nat)
  {
    forall x :: x in ids ==> x < bound
  }

  predicate MembersBelow(members: seq<Member>, bound: nat)
  {
    forall k :: 0 <= k < |members| ==> members[k].id < bound
  }

  /** Every comment id and member id the store created, and every id it wrote
      into a `replies` or `comments` list, was drawn from the generator before. */
  predicate FreshIds(s: State)
  {
    && (forall c :: c in s.comments ==> c < s.nextId && IdsBelow(s.comments[c].replies, s.nextId))
    && (forall a :: a in s.artists ==> IdsBelow(s.artists[a].comments, s.nextId) && MembersBelow(s.artists[a].members, s.nextId))
  }

  /** `likes` holds each user at most once. */
  predicate LikesAreSets(s: State)
  {
    forall c :: c in s.comments ==> NoDup(s.comments[c].likes)
  }

  /** A reply is listed in the `replies` of its parent whenever that parent
      exists and is older than the reply. (A parent id that names no comment
      when the reply is created may be handed out later, to a comment that
      knows nothing of the reply: hence the age condition.) */
  predicate RepliesLinked(s: State)
  {
    forall c :: c in s.comments ==> ReplyLinked(s, c)
  }

  predicate ReplyLinked(s: State, c: CommentId)
    requires c in s.comments
  {
    match s.comments[c].parentComment
    case None => true
    case Some(p) => p in s.comments && p < c ==> c in s.comments[p].replies
  }

  predicate Consistent(s: State)
  {
    FreshIds(s) && LikesAreSets(s) && RepliesLinked(s)
  }

  /** The HTTP status a handler answers with, and the store it leaves. */
  datatype Outcome = Outcome(status: nat, state: State)

  /** The store: the database every controller reads and writes. */
  class Database {
    var comments: map<CommentId, Comment>
    var artists: map<ArtistRef, Artist>
    var users: map<UserId, User>
    var nextId: nat

    function Snapshot(): State
      reads this
    {
      State(comments, artists, users, nextId)
    }

    predicate Valid()
      reads this
    {
      Consistent(Snapshot())
    }

    /** An empty store. */
    constructor ()
      ensures Valid()
      ensures Snapshot() == State(map[], map[], map[], 0)
    {
      comments, artists, users, nextId := map[], map[], map[], 0;
    }
  }
}
