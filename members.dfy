/** The group member handlers of backend/controllers/group.js: `addMemberToGroup`
    and `updateMember`, over the member sub-documents of
    backend/models/GroupModel.js. A request body is the list of its entries, and
    `parseNumber` stands for `parseFloat(x) || null`: the non-zero number that
    `parseFloat` reads from a string, or nothing. */
module Members {
  import opened Common
  import opened Seqs
  import opened JsString
  import opened Schema

  /** A form value: a single string, or an array when the field is repeated. */
  datatype BodyValue = Text(text: string) | List(items: seq<string>)

  datatype Field = Field(key: string, value: BodyValue)

  /** `req.body` as its entries, in `Object.keys` order. */
  type Body = seq<Field>

  /** The keys of a JavaScript object are distinct. */
  predicate DistinctKeys(body: Body)
  {
    forall i, j :: 0 <= i < j < |body| ==> body[i].key != body[j].key
  }

  /** `req.body[key]`: the value last given for `key`, if any. */
  function Lookup(body: Body, key: string): (v: Option<BodyValue>)
    ensures v.None? <==> forall i :: 0 <= i < |body| ==> body[i].key != key
    ensures v.Some? ==> Field(key, v.value) in body
  {
    if body == [] then None
    else if body[|body| - 1].key == key then Some(body[|body| - 1].value)
    else
      var r := Lookup(body[..|body| - 1], key);
      assert forall i :: 0 <= i < |body| - 1 ==> body[..|body| - 1][i] == body[i];
      r
  }

  /** JavaScript falsiness of a body value: missing or the empty string. An
      array, even an empty one, is truthy. */
  predicate Falsy(v: Option<BodyValue>)
  {
    v.None? || v == Some(Text(""))
  }

  /** The required fields of `addMemberToGroup`, in the order they are checked. */
  const RequiredFields: seq<string> := ["name", "stageName", "birthday", "position"]

  /** The member paths of type String (and the Date path `birthday`, whose
      parsing is not modelled). */
  const StringPaths: set<string> := {"name", "photo", "stageName", "birthday", "zodiacSign", "mbtiType", "nationality", "instagram", "bio"}

  /** The Number paths and `position` are not String paths. */
  lemma OtherPathsNotStrings()
    ensures "height" !in StringPaths && "weight" !in StringPaths && "position" !in StringPaths
  {
  }

  /** The string fields `addMemberToGroup` copies from the body (not `photo`,
      which comes only from the uploaded file). */
  const CopiedPaths: seq<string> := ["name", "stageName", "birthday", "zodiacSign", "mbtiType", "nationality", "instagram", "bio"]

  /** The response: status, the `message` of an error body (empty for a
      success, whose body is the group), and the store afterwards. */
  datatype MemberOutcome = MemberOutcome(status: nat, message: string, state: State)

  const GroupNotFound: string := "Gruppo non trovato"
  const MemberNotFound: string := "Membro non trovato"
  const AddFailed: string := "Errore nell'aggiunta del membro"
  /** Mongoose's validation message, which the model does not spell out. */
  const ValidationFailed: string := "Validation failed"

  function MissingMessage(field: string): string
  {
    "Il campo " + field + " \U{00E8} obbligatorio"
  }

  /** The first field of `fields` whose body value is falsy. */
  function FirstMissing(body: Body, fields: seq<string>): (r: Option<string>)
    ensures r.None? <==> forall i :: 0 <= i < |fields| ==> !Falsy(Lookup(body, fields[i]))
    ensures r.Some? ==> r.value in fields && Falsy(Lookup(body, r.value))
  {
    if fields == [] then None
    else if Falsy(Lookup(body, fields[0])) then Some(fields[0])
    else
      var r := FirstMissing(body, fields[1..]);
      assert forall i :: 1 <= i < |fields| ==> fields[i] == fields[1..][i - 1];
      r
  }

  /** The field FirstMissing names is the first missing one in order. */
  lemma {:induction false} FirstMissingIsFirst(body: Body, fields: seq<string>)
    requires FirstMissing(body, fields).Some?
    ensures exists i :: 0 <= i < |fields| && fields[i] == FirstMissing(body, fields).value
                        && forall j :: 0 <= j < i ==> !Falsy(Lookup(body, fields[j]))
  {
    if Falsy(Lookup(body, fields[0])) {
      assert fields[0] == FirstMissing(body, fields).value;
    } else {
      FirstMissingIsFirst(body, fields[1..]);
      var i :| 0 <= i < |fields[1..]| && fields[1..][i] == FirstMissing(body, fields[1..]).value
               && forall j :: 0 <= j < i ==> !Falsy(Lookup(body, fields[1..][j]));
      assert fields[i + 1] == FirstMissing(body, fields).value;
      forall j | 0 <= j < i + 1
        ensures !Falsy(Lookup(body, fields[j]))
      {
        if j > 0 {
          assert fields[j] == fields[1..][j - 1];
        }
      }
    }
  }

  /** `Array.prototype.toString`: the items joined with ','. */
  function ArrayToString(items: seq<string>): string
  {
    if items == [] then "" else Join(items, ',')
  }

  /** `v === 'N/A' ? 'N/A' : parseFloat(v) || null` stored in a Number path:
      None when the cast of 'N/A' fails, else the number or null. */
  function NumberField(v: Option<BodyValue>, parseNumber: string -> Option<real>): (r: Option<Option<real>>)
    ensures r.None? <==> v == Some(Text("N/A"))
    ensures v.None? ==> r == Some(None)
  {
    match v
    case None => Some(None)
    case Some(Text(t)) => if t == "N/A" then None else Some(parseNumber(t))
    case Some(List(items)) => Some(parseNumber(ArrayToString(items)))
  }

  /** `position.split(',').map(item => item.trim())`. */
  function SplitPosition(t: string): (r: seq<string>)
    ensures |r| == |Split(t, ',')|
    ensures forall k :: 0 <= k < |r| ==> r[k] == Trim(Split(t, ',')[k])
  {
    var parts := Split(t, ',');
    seq(|parts|, k requires 0 <= k < |parts| => Trim(parts[k]))
  }

  /** The string fields of the new member: every copied path the body gives,
      or None when one of them is an array, which the String cast rejects. */
  function CopyTexts(body: Body, paths: seq<string>): (r: Option<map<string, string>>)
    ensures r.None? <==> exists i :: 0 <= i < |paths| && Lookup(body, paths[i]).Some? && Lookup(body, paths[i]).value.List?
    ensures r.Some? ==> forall k :: k in r.value <==> k in paths && Lookup(body, k).Some?
    ensures r.Some? ==> forall k :: k in r.value ==> Lookup(body, k) == Some(Text(r.value[k]))
  {
    if paths == [] then Some(map[])
    else
      var rest := CopyTexts(body, paths[1..]);
      assert forall i :: 1 <= i < |paths| ==> paths[i] == paths[1..][i - 1];
      assert forall k :: k in paths[1..] ==> k in paths;
      match Lookup(body, paths[0])
      case None => rest
      case Some(List(_)) => None
      case Some(Text(t)) => if rest.None? then None else Some(rest.value[paths[0] := t])
  }

  /** The document `addMemberToGroup` pushes, or None when saving it fails a
      cast (an array in a String path, 'N/A' in a Number path). */
  function BuildMember(body: Body, file: Option<string>, id: MemberId, parseNumber: string -> Option<real>): Option<Member>
  {
    var texts := CopyTexts(body, CopiedPaths);
    var height := NumberField(Lookup(body, "height"), parseNumber);
    var weight := NumberField(Lookup(body, "weight"), parseNumber);
    if texts.None? || height.None? || weight.None? then None
    else
      var photo := if file.Some? then texts.value["photo" := file.value] else texts.value;
      var position :=
        match Lookup(body, "position")
        case None => []
        case Some(List(items)) => items
        case Some(Text(t)) => SplitPosition(t);
      Some(Member(id, photo, height.value, weight.value, position))
  }

  /** addMemberToGroup: 404 for a missing group; 400 naming the first falsy
      required field; 400 when a cast fails; otherwise the new member, with a
      fresh id, is appended and the answer is 201. */
  function AddMemberSpec(s: State, groupId: ArtistId, body: Body, file: Option<string>, parseNumber: string -> Option<real>): (r: MemberOutcome)
    ensures r.status == 404 <==> ArtistRef(Group, groupId) !in s.artists
    ensures r.status == 400 && FirstMissing(body, RequiredFields).Some? ==>
              r.message == MissingMessage(FirstMissing(body, RequiredFields).value)
    ensures r.status == 201 <==> ArtistRef(Group, groupId) in s.artists && FirstMissing(body, RequiredFields).None?
                                 && BuildMember(body, file, s.nextId, parseNumber).Some?
    ensures r.status in {201, 400, 404}
    ensures r.status != 201 ==> r.state == s
  {
    var g := ArtistRef(Group, groupId);
    if g !in s.artists then MemberOutcome(404, GroupNotFound, s)
    else if FirstMissing(body, RequiredFields).Some? then
      MemberOutcome(400, MissingMessage(FirstMissing(body, RequiredFields).value), s)
    else PushMember(s, g, BuildMember(body, file, s.nextId, parseNumber))
  }

  /** The last step of addMemberToGroup: 400 when the document failed a cast,
      otherwise the member is pushed onto the group and the answer is 201. */
  function PushMember(s: State, g: ArtistRef, built: Option<Member>): MemberOutcome
    requires g in s.artists
  {
    match built
    case None => MemberOutcome(400, AddFailed, s)
    case Some(m) =>
      var group := s.artists[g];
      MemberOutcome(201, "", s.(artists := s.artists[g := group.(members := group.members + [m])], nextId := s.nextId + 1))
  }

  /** A successful add appends exactly one member, at the end, with a fresh id
      and the given string fields; existing members and every other document
      stay as they were. */
  lemma AddMemberAppends(s: State, groupId: ArtistId, body: Body, file: Option<string>, parseNumber: string -> Option<real>)
    requires AddMemberSpec(s, groupId, body, file, parseNumber).status == 201
    ensures var t := AddMemberSpec(s, groupId, body, file, parseNumber).state;
            var g := ArtistRef(Group, groupId);
            && t.artists.Keys == s.artists.Keys
            && (forall a :: a in s.artists && a != g ==> t.artists[a] == s.artists[a])
            && t.comments == s.comments && t.users == s.users
            && |t.artists[g].members| == |s.artists[g].members| + 1
            && t.artists[g].members[..|s.artists[g].members|] == s.artists[g].members
            && t.artists[g].comments == s.artists[g].comments
            && var m := t.artists[g].members[|s.artists[g].members|];
               && m.id == s.nextId
               && (forall k :: k in CopiedPaths && Lookup(body, k).Some? ==> k in m.texts && Lookup(body, k) == Some(Text(m.texts[k])))
               && (file.Some? ==> m.texts["photo"] == file.value)
    ensures Consistent(s) ==>
              var t := AddMemberSpec(s, groupId, body, file, parseNumber).state;
              var n := |s.artists[ArtistRef(Group, groupId)].members|;
              && (forall a, k :: a in s.artists && 0 <= k < |s.artists[a].members| ==> s.artists[a].members[k].id != s.nextId)
              && FindMember(t.artists[ArtistRef(Group, groupId)].members, s.nextId) == n
  {
    var m := BuildMember(body, file, s.nextId, parseNumber).value;
    var g := ArtistRef(Group, groupId);
    var group := s.artists[g];
    AddMemberFreshId(s, groupId, body, file, parseNumber);
    assert AddMemberSpec(s, groupId, body, file, parseNumber).state
           == s.(artists := s.artists[g := group.(members := group.members + [m])], nextId := s.nextId + 1);
    assert (group.members + [m])[..|group.members|] == group.members;
    assert (group.members + [m])[|group.members|] == m;
    BuildMemberFields(body, file, s.nextId, parseNumber);
  }

  /** In a consistent store the id a successful add gives is carried by no
      earlier member, so looking it up finds the new member. */
  lemma AddMemberFreshId(s: State, groupId: ArtistId, body: Body, file: Option<string>, parseNumber: string -> Option<real>)
    requires AddMemberSpec(s, groupId, body, file, parseNumber).status == 201
    ensures Consistent(s) ==>
              var t := AddMemberSpec(s, groupId, body, file, parseNumber).state;
              var n := |s.artists[ArtistRef(Group, groupId)].members|;
              && (forall a, k :: a in s.artists && 0 <= k < |s.artists[a].members| ==> s.artists[a].members[k].id != s.nextId)
              && FindMember(t.artists[ArtistRef(Group, groupId)].members, s.nextId) == n
  {
    if Consistent(s) {
      var m := BuildMember(body, file, s.nextId, parseNumber).value;
      var g := ArtistRef(Group, groupId);
      var group := s.artists[g];
      assert AddMemberSpec(s, groupId, body, file, parseNumber).state
             == s.(artists := s.artists[g := group.(members := group.members + [m])], nextId := s.nextId + 1);
      BuildMemberFields(body, file, s.nextId, parseNumber);
      FreshMemberId(s);
      FindMemberAppend(group.members, m);
    }
  }

  /** No member of a consistent store carries the next id. */
  lemma FreshMemberId(s: State)
    requires Consistent(s)
    ensures forall a, k :: a in s.artists && 0 <= k < |s.artists[a].members| ==> s.artists[a].members[k].id != s.nextId
  {
    forall a, k | a in s.artists && 0 <= k < |s.artists[a].members|
      ensures s.artists[a].members[k].id != s.nextId
    {
      assert MembersBelow(s.artists[a].members, s.nextId);
    }
  }

  /** FindMember answers the first position holding the id. */
  lemma FindMemberFirst(members: seq<Member>, id: MemberId, i: nat)
    requires i < |members| && members[i].id == id
    requires forall k :: 0 <= k < i ==> members[k].id != id
    ensures FindMember(members, id) == i
  {
    var j := FindMember(members, id);
    assert j != -1;
    assert !(j < i);
    assert !(i < j);
  }

  /** Replacing the member found by one with the same id finds it again. */
  lemma FindMemberReplace(members: seq<Member>, id: MemberId, m: Member)
    requires FindMember(members, id) != -1 && m.id == id
    ensures var i := FindMember(members, id);
            FindMember(members[i := m], id) == i
  {
    var i := FindMember(members, id);
    var ms := members[i := m];
    assert forall k :: 0 <= k < i ==> ms[k] == members[k];
    FindMemberFirst(ms, id, i);
  }

  /** Looking up an id no earlier member carries finds the member appended with it. */
  lemma FindMemberAppend(members: seq<Member>, m: Member)
    requires forall k :: 0 <= k < |members| ==> members[k].id != m.id
    ensures FindMember(members + [m], m.id) == |members|
  {
    var ms := members + [m];
    assert ms[|members|] == m;
    assert forall k :: 0 <= k < |members| ==> ms[k] == members[k];
    FindMemberFirst(ms, m.id, |members|);
  }

  /** The member built from a body carries the given id, the body's strings and
      the uploaded photo. */
  lemma BuildMemberFields(body: Body, file: Option<string>, id: MemberId, parseNumber: string -> Option<real>)
    requires BuildMember(body, file, id, parseNumber).Some?
    ensures var m := BuildMember(body, file, id, parseNumber).value;
            && m.id == id
            && (forall k :: k in CopiedPaths && Lookup(body, k).Some? ==> k in m.texts && Lookup(body, k) == Some(Text(m.texts[k])))
            && (file.Some? ==> m.texts["photo"] == file.value)
  {
    assert "photo" !in CopiedPaths;
  }

  /** A string `position` is split on ',' into trimmed pieces: one more piece
      than there are commas, none holding a comma or starting or ending with
      white space. An array is stored as it came. */
  lemma AddMemberPosition(s: State, groupId: ArtistId, body: Body, file: Option<string>, parseNumber: string -> Option<real>)
    requires AddMemberSpec(s, groupId, body, file, parseNumber).status == 201
    ensures var t := AddMemberSpec(s, groupId, body, file, parseNumber).state;
            var g := ArtistRef(Group, groupId);
            var p := t.artists[g].members[|s.artists[g].members|].position;
            && Lookup(body, "position").Some?
            && (Lookup(body, "position").value.List? ==> p == Lookup(body, "position").value.items)
            && (Lookup(body, "position").value.Text? ==>
                  var text := Lookup(body, "position").value.text;
                  && |p| == Count(text, ',') + 1
                  && forall k :: 0 <= k < |p| ==>
                       && ',' !in p[k]
                       && (p[k] != [] ==> !IsWhiteSpace(p[k][0]) && !IsWhiteSpace(p[k][|p[k]| - 1])))
  {
    assert RequiredFields[3] == "position";
    var m := BuildMember(body, file, s.nextId, parseNumber).value;
    var g := ArtistRef(Group, groupId);
    assert AddMemberSpec(s, groupId, body, file, parseNumber).state.artists[g].members[|s.artists[g].members|] == m;
    match Lookup(body, "position").value
    case List(_) =>
    case Text(text) =>
      SplitPositionShape(text);
  }

  /** The pieces of a split position: one more than there are commas, none
      holding a comma, none starting or ending with white space. */
  lemma SplitPositionShape(text: string)
    ensures |SplitPosition(text)| == Count(text, ',') + 1
    ensures forall k :: 0 <= k < |SplitPosition(text)| ==>
              && ',' !in SplitPosition(text)[k]
              && (SplitPosition(text)[k] != [] ==>
                    && !IsWhiteSpace(SplitPosition(text)[k][0])
                    && !IsWhiteSpace(SplitPosition(text)[k][|SplitPosition(text)[k]| - 1]))
  {
    SplitCount(text, ',');
    forall k | 0 <= k < |SplitPosition(text)|
      ensures ',' !in SplitPosition(text)[k]
      ensures SplitPosition(text)[k] != [] ==>
                && !IsWhiteSpace(SplitPosition(text)[k][0])
                && !IsWhiteSpace(SplitPosition(text)[k][|SplitPosition(text)[k]| - 1])
    {
      SplitPositionPiece(text, k);
    }
  }

  /** One piece of a split position is the trimmed comma-free piece. */
  lemma SplitPositionPiece(text: string, k: nat)
    requires k < |SplitPosition(text)|
    ensures ',' !in SplitPosition(text)[k]
    ensures SplitPosition(text)[k] != [] ==>
              && !IsWhiteSpace(SplitPosition(text)[k][0])
              && !IsWhiteSpace(SplitPosition(text)[k][|SplitPosition(text)[k]| - 1])
  {
    var piece := Split(text, ',')[k];
    assert ',' !in piece;
    assert SplitPosition(text)[k] == Trim(piece);
    TrimmedPiece(piece);
  }

  /** A trimmed piece free of commas stays free of them, and neither starts
      nor ends with white space. */
  lemma TrimmedPiece(piece: string)
    requires ',' !in piece
    ensures var t := Trim(piece);
            && ',' !in t
            && (t != [] ==> !IsWhiteSpace(t[0]) && !IsWhiteSpace(t[|t| - 1]))
  {
    TrimSlice(piece);
    var i, j :| 0 <= i <= j <= |piece| && Trim(piece) == piece[i..j];
    assert forall c :: c in piece[i..j] ==> c in piece;
  }

  /** Raising the id counter keeps every id below it. */
  lemma IdsBelowMono(ids: seq<nat>, bound: nat, bound': nat)
    requires IdsBelow(ids, bound) && bound <= bound'
    ensures IdsBelow(ids, bound')
  {
  }

  /** Members take no part in the store invariants: adding one keeps them. */
  lemma AddMemberKeepsConsistent(s: State, groupId: ArtistId, body: Body, file: Option<string>, parseNumber: string -> Option<real>)
    requires Consistent(s)
    ensures Consistent(AddMemberSpec(s, groupId, body, file, parseNumber).state)
  {
    var t := AddMemberSpec(s, groupId, body, file, parseNumber).state;
    if t != s {
      var g := ArtistRef(Group, groupId);
      var group := s.artists[g];
      var m := BuildMember(body, file, s.nextId, parseNumber).value;
      assert t == s.(artists := s.artists[g := group.(members := group.members + [m])], nextId := s.nextId + 1);
      BuildMemberFields(body, file, s.nextId, parseNumber);
      forall c | c in t.comments
        ensures ReplyLinked(t, c)
      {
        assert ReplyLinked(s, c);
      }
      forall a | a in t.artists
        ensures IdsBelow(t.artists[a].comments, t.nextId)
        ensures MembersBelow(t.artists[a].members, t.nextId)
      {
        IdsBelowMono(s.artists[a].comments, s.nextId, t.nextId);
        assert MembersBelow(s.artists[a].members, s.nextId);
      }
      forall c | c in t.comments
        ensures IdsBelow(t.comments[c].replies, t.nextId)
      {
        IdsBelowMono(s.comments[c].replies, s.nextId, t.nextId);
      }
    }
  }

  // -------------------------------------------------------------- updateMember

  /** `group.members.id(memberId)`: the index of the first member with that id, or -1. */
  function FindMember(members: seq<Member>, id: MemberId): (i: int)
    ensures -1 <= i < |members|
    ensures i == -1 <==> forall k :: 0 <= k < |members| ==> members[k].id != id
    ensures 0 <= i ==> members[i].id == id && forall k :: 0 <= k < i ==> members[k].id != id
  {
    if members == [] then -1
    else if members[0].id == id then 0
    else
      var j := FindMember(members[1..], id);
      assert forall k :: 1 <= k < |members| ==> members[k] == members[1..][k - 1];
      if j == -1 then -1 else j + 1
  }

  /** Whether saving after `member[key] = value` can succeed: 'N/A' fails the
      Number cast, an array fails the String cast, and an empty `name` fails
      the required check. */
  predicate Accepted(f: Field)
  {
    if f.key == "height" || f.key == "weight" then f.value != Text("N/A")
    else if f.key in StringPaths then f.value.Text? && !(f.key == "name" && f.value.text == "")
    else true
  }

  /** One step of the `forEach`: `member[key] = value`, with height and weight
      converted first. A key that is not a member path is dropped, as Mongoose's
      strict mode does; a string given to `position` is cast to a one-element
      array. None when the save will be rejected. */
  function UpdateField(m: Member, f: Field, parseNumber: string -> Option<real>): (r: Option<Member>)
    ensures r.Some? <==> Accepted(f)
    ensures r.Some? ==> r.value.id == m.id
  {
    if !Accepted(f) then None
    else if f.key == "height" then Some(m.(height := NumberField(Some(f.value), parseNumber).value))
    else if f.key == "weight" then Some(m.(weight := NumberField(Some(f.value), parseNumber).value))
    else if f.key in StringPaths then Some(m.(texts := m.texts[f.key := f.value.text]))
    else if f.key == "position" then
      Some(m.(position := match f.value case Text(t) => [t] case List(items) => items))
    else Some(m)
  }

  /** The whole `forEach`, one entry after another. */
  function ApplyFields(m: Member, body: Body, parseNumber: string -> Option<real>): Option<Member>
  {
    if body == [] then Some(m)
    else
      match ApplyFields(m, body[..|body| - 1], parseNumber)
      case None => None
      case Some(m') => UpdateField(m', body[|body| - 1], parseNumber)
  }

  /** The new value of a Number path given in the body. */
  function NumberOf(v: BodyValue, current: Option<real>, parseNumber: string -> Option<real>): Option<real>
  {
    if v == Text("N/A") then current else NumberField(Some(v), parseNumber).value
  }

  /** The String paths the body gives a string for. */
  function TextsOf(body: Body): map<string, string>
  {
    map k | k in StringPaths && Lookup(body, k).Some? && Lookup(body, k).value.Text? :: Lookup(body, k).value.text
  }

  /** An independent description of the update: every member path the body
      names takes the body's value, every other path keeps its value. */
  function Overwrite(m: Member, body: Body, parseNumber: string -> Option<real>): Member
  {
    Member(
      m.id,
      m.texts + TextsOf(body),
      if Lookup(body, "height").Some? then NumberOf(Lookup(body, "height").value, m.height, parseNumber) else m.height,
      if Lookup(body, "weight").Some? then NumberOf(Lookup(body, "weight").value, m.weight, parseNumber) else m.weight,
      match Lookup(body, "position")
      case None => m.position
      case Some(Text(t)) => [t]
      case Some(List(items)) => items)
  }

  /** The update succeeds exactly when every entry is accepted, whatever the
      member held before. */
  lemma {:induction false} ApplyFieldsSucceeds(m: Member, body: Body, parseNumber: string -> Option<real>)
    ensures ApplyFields(m, body, parseNumber).Some? <==> forall i :: 0 <= i < |body| ==> Accepted(body[i])
  {
    if body != [] {
      var init := body[..|body| - 1];
      ApplyFieldsSucceeds(m, init, parseNumber);
      assert forall i :: 0 <= i < |init| ==> init[i] == body[i];
    }
  }

  /** Appending an entry to the body: that key now has the new value. */
  lemma LookupSnoc(body: Body, f: Field, k: string)
    ensures Lookup(body + [f], k) == if k == f.key then Some(f.value) else Lookup(body, k)
  {
    assert (body + [f])[..|body|] == body;
  }

  lemma TextsOfSnoc(body: Body, f: Field)
    requires Accepted(f)
    ensures TextsOf(body + [f]) == if f.key in StringPaths then TextsOf(body)[f.key := f.value.text] else TextsOf(body)
  {
    var after := TextsOf(body + [f]);
    var expected := if f.key in StringPaths then TextsOf(body)[f.key := f.value.text] else TextsOf(body);
    forall k
      ensures k in after <==> k in expected
      ensures k in after ==> after[k] == expected[k]
    {
      LookupSnoc(body, f, k);
    }
    assert after.Keys == expected.Keys;
  }

  /** One more accepted entry moves the overwrite on by one assignment. */
  lemma OverwriteSnoc(m: Member, body: Body, f: Field, parseNumber: string -> Option<real>)
    requires Accepted(f)
    ensures UpdateField(Overwrite(m, body, parseNumber), f, parseNumber) == Some(Overwrite(m, body + [f], parseNumber))
  {
    OtherPathsNotStrings();
    TextsOfSnoc(body, f);
    LookupSnoc(body, f, "height");
    LookupSnoc(body, f, "weight");
    LookupSnoc(body, f, "position");
    if f.key == "height" || f.key == "weight" {
      OverwriteSnocNumber(m, body, f, parseNumber);
    } else if f.key in StringPaths {
      OverwriteSnocText(m, body, f, parseNumber);
    } else {
      OverwriteSnocOther(m, body, f, parseNumber);
    }
  }

  lemma OverwriteSnocNumber(m: Member, body: Body, f: Field, parseNumber: string -> Option<real>)
    requires Accepted(f) && (f.key == "height" || f.key == "weight")
    requires TextsOf(body + [f]) == TextsOf(body)
    requires Lookup(body + [f], "height") == if f.key == "height" then Some(f.value) else Lookup(body, "height")
    requires Lookup(body + [f], "weight") == if f.key == "weight" then Some(f.value) else Lookup(body, "weight")
    requires Lookup(body + [f], "position") == Lookup(body, "position")
    ensures UpdateField(Overwrite(m, body, parseNumber), f, parseNumber) == Some(Overwrite(m, body + [f], parseNumber))
  {
  }

  lemma OverwriteSnocText(m: Member, body: Body, f: Field, parseNumber: string -> Option<real>)
    requires Accepted(f) && f.key in StringPaths
    requires TextsOf(body + [f]) == TextsOf(body)[f.key := f.value.text]
    requires Lookup(body + [f], "height") == Lookup(body, "height")
    requires Lookup(body + [f], "weight") == Lookup(body, "weight")
    requires Lookup(body + [f], "position") == Lookup(body, "position")
    ensures UpdateField(Overwrite(m, body, parseNumber), f, parseNumber) == Some(Overwrite(m, body + [f], parseNumber))
  {
    var before := Overwrite(m, body, parseNumber);
    OtherPathsNotStrings();
    assert f.key != "height" && f.key != "weight";
    assert UpdateField(before, f, parseNumber) == Some(before.(texts := before.texts[f.key := f.value.text]));
    MapUpdateUnion(m.texts, TextsOf(body), f.key, f.value.text);
  }

  lemma MapUpdateUnion(a: map<string, string>, b: map<string, string>, k: string, v: string)
    ensures (a + b)[k := v] == a + b[k := v]
  {
  }

  lemma OverwriteSnocOther(m: Member, body: Body, f: Field, parseNumber: string -> Option<real>)
    requires Accepted(f) && f.key != "height" && f.key != "weight" && f.key !in StringPaths
    requires TextsOf(body + [f]) == TextsOf(body)
    requires Lookup(body + [f], "height") == Lookup(body, "height")
    requires Lookup(body + [f], "weight") == Lookup(body, "weight")
    requires Lookup(body + [f], "position") == if f.key == "position" then Some(f.value) else Lookup(body, "position")
    ensures UpdateField(Overwrite(m, body, parseNumber), f, parseNumber) == Some(Overwrite(m, body + [f], parseNumber))
  {
  }

  /** Applied one entry at a time, the update is the overwrite. */
  lemma {:induction false} ApplyFieldsIsOverwrite(m: Member, body: Body, parseNumber: string -> Option<real>)
    requires ApplyFields(m, body, parseNumber).Some?
    ensures ApplyFields(m, body, parseNumber) == Some(Overwrite(m, body, parseNumber))
  {
    if body == [] {
      assert TextsOf(body) == map[];
      assert m.texts + map[] == m.texts;
    } else {
      var init := body[..|body| - 1];
      var f := body[|body| - 1];
      assert body == init + [f];
      ApplyFieldsIsOverwrite(m, init, parseNumber);
      OverwriteSnoc(m, init, f, parseNumber);
    }
  }

  /** Sending the same update twice leaves the member as sending it once. */
  lemma UpdateFieldsTwice(m: Member, body: Body, parseNumber: string -> Option<real>)
    requires ApplyFields(m, body, parseNumber).Some?
    ensures var once := ApplyFields(m, body, parseNumber).value;
            ApplyFields(once, body, parseNumber) == Some(once)
  {
    var once := ApplyFields(m, body, parseNumber).value;
    ApplyFieldsSucceeds(m, body, parseNumber);
    ApplyFieldsSucceeds(once, body, parseNumber);
    ApplyFieldsIsOverwrite(m, body, parseNumber);
    ApplyFieldsIsOverwrite(once, body, parseNumber);
    var twice := Overwrite(once, body, parseNumber);
    assert forall i :: 0 <= i < |body| ==> Accepted(body[i]);
    if Lookup(body, "height").Some? {
      assert Lookup(body, "height").value != Text("N/A");
    }
    if Lookup(body, "weight").Some? {
      assert Lookup(body, "weight").value != Text("N/A");
    }
    assert twice.texts == once.texts;
  }

  /** Keys that are not member paths change nothing. */
  lemma {:induction false} UpdateIgnoresUnknownKeys(m: Member, body: Body, parseNumber: string -> Option<real>)
    requires forall i :: 0 <= i < |body| ==> body[i].key !in StringPaths && body[i].key !in {"height", "weight", "position"}
    ensures ApplyFields(m, body, parseNumber) == Some(m)
  {
    if body != [] {
      var init := body[..|body| - 1];
      assert forall i :: 0 <= i < |init| ==> init[i] == body[i];
      UpdateIgnoresUnknownKeys(m, init, parseNumber);
    }
  }

  /** updateMember: 404 for a missing group, 404 for a missing member, 400 when
      the save is rejected; otherwise the member is overwritten in place, its
      photo set from the uploaded file if any, and the answer is 200. */
  function UpdateMemberSpec(s: State, groupId: ArtistId, memberId: MemberId, body: Body, file: Option<string>,
                            parseNumber: string -> Option<real>): (r: MemberOutcome)
    requires DistinctKeys(body)
    ensures r.status in {200, 400, 404}
    ensures r.status == 404 <==> ArtistRef(Group, groupId) !in s.artists
                                 || FindMember(s.artists[ArtistRef(Group, groupId)].members, memberId) == -1
    ensures r.status == 400 <==> !(r.status == 404) && exists i :: 0 <= i < |body| && !Accepted(body[i])
    ensures r.status != 200 ==> r.state == s
  {
    var g := ArtistRef(Group, groupId);
    if g !in s.artists then MemberOutcome(404, GroupNotFound, s)
    else
      var group := s.artists[g];
      var i := FindMember(group.members, memberId);
      if i == -1 then MemberOutcome(404, MemberNotFound, s)
      else
        ApplyFieldsSucceeds(group.members[i], body, parseNumber);
        match ApplyFields(group.members[i], body, parseNumber)
        case None => MemberOutcome(400, ValidationFailed, s)
        case Some(m) =>
          MemberOutcome(200, "", s.(artists := s.artists[g := group.(members := group.members[i := WithPhoto(m, file)])]))
  }

  /** A successful update rewrites the one member with that id, by the
      overwrite, and changes no other member and no other document. */
  lemma UpdateMemberEffects(s: State, groupId: ArtistId, memberId: MemberId, body: Body, file: Option<string>,
                            parseNumber: string -> Option<real>)
    requires DistinctKeys(body)
    requires UpdateMemberSpec(s, groupId, memberId, body, file, parseNumber).status == 200
    ensures var t := UpdateMemberSpec(s, groupId, memberId, body, file, parseNumber).state;
            var g := ArtistRef(Group, groupId);
            var i := FindMember(s.artists[g].members, memberId);
            && t.comments == s.comments && t.users == s.users && t.nextId == s.nextId
            && t.artists.Keys == s.artists.Keys
            && (forall a :: a in s.artists && a != g ==> t.artists[a] == s.artists[a])
            && t.artists[g].comments == s.artists[g].comments
            && |t.artists[g].members| == |s.artists[g].members|
            && (forall k :: 0 <= k < |s.artists[g].members| && k != i ==> t.artists[g].members[k] == s.artists[g].members[k])
            && var m := Overwrite(s.artists[g].members[i], body, parseNumber);
               t.artists[g].members[i] == WithPhoto(m, file)
  {
    var g := ArtistRef(Group, groupId);
    var i := FindMember(s.artists[g].members, memberId);
    ApplyFieldsIsOverwrite(s.artists[g].members[i], body, parseNumber);
  }

  /** `if (req.file) member.photo = req.file.path`. */
  function WithPhoto(m: Member, file: Option<string>): (r: Member)
    ensures file.Some? ==> "photo" in r.texts && r.texts["photo"] == file.value
    ensures file.None? ==> r == m
    ensures r.id == m.id && r.height == m.height && r.weight == m.weight && r.position == m.position
  {
    if file.Some? then m.(texts := m.texts["photo" := file.value]) else m
  }

  lemma PhotoStable(a: map<string, string>, t: map<string, string>, p: string)
    ensures ((a + t)["photo" := p] + t)["photo" := p] == (a + t)["photo" := p]
  {
  }

  /** The member as stored after an update is a fixed point of the same update. */
  lemma StoredTwice(m: Member, body: Body, file: Option<string>, parseNumber: string -> Option<real>)
    requires ApplyFields(m, body, parseNumber).Some?
    ensures var stored := WithPhoto(ApplyFields(m, body, parseNumber).value, file);
            && ApplyFields(stored, body, parseNumber).Some?
            && WithPhoto(ApplyFields(stored, body, parseNumber).value, file) == stored
  {
    var once := ApplyFields(m, body, parseNumber).value;
    var stored := WithPhoto(once, file);
    ApplyFieldsSucceeds(m, body, parseNumber);
    ApplyFieldsIsOverwrite(m, body, parseNumber);
    ApplyFieldsSucceeds(stored, body, parseNumber);
    ApplyFieldsIsOverwrite(stored, body, parseNumber);
    assert forall k :: 0 <= k < |body| ==> Accepted(body[k]);
    if Lookup(body, "height").Some? {
      assert Lookup(body, "height").value != Text("N/A");
    }
    if Lookup(body, "weight").Some? {
      assert Lookup(body, "weight").value != Text("N/A");
    }
    var again := Overwrite(stored, body, parseNumber);
    if file.Some? {
      PhotoStable(m.texts, TextsOf(body), file.value);
      assert WithPhoto(again, file).texts == stored.texts;
    } else {
      assert again.texts == stored.texts;
    }
  }

  /** Repeating a successful update changes nothing more. */
  lemma UpdateMemberTwice(s: State, groupId: ArtistId, memberId: MemberId, body: Body, file: Option<string>,
                          parseNumber: string -> Option<real>)
    requires DistinctKeys(body)
    requires UpdateMemberSpec(s, groupId, memberId, body, file, parseNumber).status == 200
    ensures var t := UpdateMemberSpec(s, groupId, memberId, body, file, parseNumber).state;
            UpdateMemberSpec(t, groupId, memberId, body, file, parseNumber) == MemberOutcome(200, "", t)
  {
    var g := ArtistRef(Group, groupId);
    var members := s.artists[g].members;
    var i := FindMember(members, memberId);
    var stored := WithPhoto(ApplyFields(members[i], body, parseNumber).value, file);
    var t := UpdateMemberSpec(s, groupId, memberId, body, file, parseNumber).state;
    assert t.artists[g].members == members[i := stored];
    assert stored.id == memberId by {
      ApplyFieldsIsOverwrite(members[i], body, parseNumber);
    }
    FindMemberReplace(members, memberId, stored);
    StoredTwice(members[i], body, file, parseNumber);
    assert t.artists[g].members[i := stored] == t.artists[g].members;
  }

  /** An empty `name` is rejected and nothing is stored. */
  lemma UpdateRejectsEmptyName(s: State, groupId: ArtistId, memberId: MemberId, body: Body, file: Option<string>,
                               parseNumber: string -> Option<real>)
    requires DistinctKeys(body) && Field("name", Text("")) in body
    requires ArtistRef(Group, groupId) in s.artists && FindMember(s.artists[ArtistRef(Group, groupId)].members, memberId) != -1
    ensures UpdateMemberSpec(s, groupId, memberId, body, file, parseNumber) == MemberOutcome(400, ValidationFailed, s)
  {
    var i :| 0 <= i < |body| && body[i] == Field("name", Text(""));
    assert !Accepted(body[i]);
  }

  lemma UpdateMemberKeepsConsistent(s: State, groupId: ArtistId, memberId: MemberId, body: Body, file: Option<string>,
                                    parseNumber: string -> Option<real>)
    requires DistinctKeys(body) && Consistent(s)
    ensures Consistent(UpdateMemberSpec(s, groupId, memberId, body, file, parseNumber).state)
  {
    var t := UpdateMemberSpec(s, groupId, memberId, body, file, parseNumber).state;
    forall c | c in t.comments
      ensures ReplyLinked(t, c)
    {
      assert ReplyLinked(s, c);
    }
    if t != s {
      var g := ArtistRef(Group, groupId);
      var members := s.artists[g].members;
      var i := FindMember(members, memberId);
      UpdateMemberEffects(s, groupId, memberId, body, file, parseNumber);
      assert t.artists[g].members[i].id == members[i].id;
      assert MembersBelow(members, s.nextId);
      assert MembersBelow(t.artists[g].members, t.nextId);
    }
  }

  // ------------------------------------------------------------------ handlers

  /** The `for` loop of `addMemberToGroup` over the required fields: the first
      one whose body value is falsy, if any. */
  method CheckRequiredFields(body: Body) returns (missing: Option<string>)
    ensures missing == FirstMissing(body, RequiredFields)
  {
    var i := 0;
    while i < |RequiredFields|
      invariant 0 <= i <= |RequiredFields|
      invariant FirstMissing(body, RequiredFields) == FirstMissing(body, RequiredFields[i..])
    {
      var field := RequiredFields[i];
      assert RequiredFields[i..][1..] == RequiredFields[i + 1..];
      if Falsy(Lookup(body, field)) {
        return Some(field);
      }
      i := i + 1;
    }
    return None;
  }

  /** `addMemberToGroup`: the required fields are checked in order, then the
      new member is pushed onto `group.members` and the group saved. */
  method AddMemberToGroup(db: Database, groupId: ArtistId, body: Body, file: Option<string>, parseNumber: string -> Option<real>)
    returns (status: nat, message: string)
    requires db.Valid()
    modifies db
    ensures db.Valid()
    ensures MemberOutcome(status, message, db.Snapshot()) == AddMemberSpec(old(db.Snapshot()), groupId, body, file, parseNumber)
  {
    ghost var s := db.Snapshot();
    var g := ArtistRef(Group, groupId);
    if g !in db.artists {
      return 404, GroupNotFound;
    }
    var missing := CheckRequiredFields(body);
    if missing.Some? {
      return 400, MissingMessage(missing.value);
    }
    var newMember := BuildMember(body, file, db.nextId, parseNumber);
    status, message := PushNewMember(db, g, newMember);
    AddMemberKeepsConsistent(s, groupId, body, file, parseNumber);
  }

  /** `group.members.push(newMember)` and `group.save()`, or the 400 answer
      when the document fails a cast. */
  method PushNewMember(db: Database, g: ArtistRef, built: Option<Member>) returns (status: nat, message: string)
    requires g in db.artists
    modifies db
    ensures MemberOutcome(status, message, db.Snapshot()) == PushMember(old(db.Snapshot()), g, built)
  {
    if built.None? {
      return 400, AddFailed;
    }
    var group := db.artists[g];
    db.artists := db.artists[g := group.(members := group.members + [built.value])];
    db.nextId := db.nextId + 1;
    status, message := 201, "";
  }

  /** `updateMember`: find the member, assign every body entry to it, set the
      photo from the upload, save. */
  method UpdateMember(db: Database, groupId: ArtistId, memberId: MemberId, body: Body, file: Option<string>,
                      parseNumber: string -> Option<real>)
    returns (status: nat, message: string)
    requires DistinctKeys(body)
    requires db.Valid()
    modifies db
    ensures db.Valid()
    ensures MemberOutcome(status, message, db.Snapshot()) == UpdateMemberSpec(old(db.Snapshot()), groupId, memberId, body, file, parseNumber)
  {
    ghost var s := db.Snapshot();
    UpdateMemberKeepsConsistent(s, groupId, memberId, body, file, parseNumber);
    var g := ArtistRef(Group, groupId);
    if g !in db.artists {
      return 404, GroupNotFound;
    }
    var group := db.artists[g];
    var index := FindMember(group.members, memberId);
    if index == -1 {
      return 404, MemberNotFound;
    }
    var member := group.members[index];
    var rejected := false;
    var i := 0;
    while i < |body|
      invariant 0 <= i <= |body|
      invariant rejected <==> ApplyFields(group.members[index], body[..i], parseNumber).None?
      invariant !rejected ==> ApplyFields(group.members[index], body[..i], parseNumber) == Some(member)
    {
      assert body[..i + 1][..i] == body[..i];
      var next := UpdateField(member, body[i], parseNumber);
      if next.None? {
        rejected := true;
      } else {
        member := next.value;
      }
      i := i + 1;
    }
    assert body[..i] == body;
    member := WithPhoto(member, file);
    if rejected {
      return 400, ValidationFailed;
    }
    db.artists := db.artists[g := group.(members := group.members[index := member])];
    status, message := 200, "";
  }
}
