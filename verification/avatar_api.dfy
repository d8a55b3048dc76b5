/** `PUT /api/avatar` (store the signed-in user's avatar settings) and
    `GET /api/avatar` (read them back, with defaults for unset columns). */
module AvatarApi {
  import opened Wrappers
  import opened Js
  import opened AvatarTypes
  import Avatar
  import opened Store

  /** The fields read from the JSON body; `None` is an absent field. */
  datatype AvatarBody = AvatarBody(bodyColor: Option<string>, skinColor: Option<string>, style: Option<string>,
                                   accessories: Option<seq<string>>)

  const MissingFields := "Missing required fields"
  const UserNotFound := "User not found"

  /** The column defaults `GET` substitutes. */
  const DefaultBodyColor := "#3498db"
  const DefaultStyle := "default"

  /** `value || fallback` on a nullable string column. */
  function OrDefault(value: Option<string>, fallback: string): (r: string)
    ensures Truthy(value) ==> r == value.value
    ensures !Truthy(value) ==> r == fallback
  {
    if value.Some? && value.value != "" then value.value else fallback
  }

  function FindUser(users: seq<User>, id: string): (r: Option<nat>)
    ensures r.Some? ==> r.value < |users| && users[r.value].id == id
    ensures r.Some? ==> forall j :: 0 <= j < r.value ==> users[j].id != id
    ensures r.None? <==> forall u :: u in users ==> u.id != id
  {
    FindFirst(users, (u: User) => u.id == id)
  }

  /** `PUT`. */
  function Put(db: Db, session: Option<SessionUser>, body: AvatarBody): (r: (Db, Reply<Customization>))
    ensures r.1.Failure? ==> r.0 == db
    ensures session.None? ==> r.1 == Failure(Unauthorized)
    ensures session.Some? && !(Truthy(body.bodyColor) && Truthy(body.skinColor) && Truthy(body.style)) ==>
              r.1 == Failure(BadRequest(MissingFields))
    ensures r.1.Success? ==>
              && session.Some?
              && r.1 == Success(200, Customization(body.bodyColor.value, body.skinColor.value, body.style.value,
                                                   body.accessories.GetOr([])))
              && r.0.offices == db.offices && r.0.memberships == db.memberships
              && r.0.invitations == db.invitations
              && |r.0.users| == |db.users|
              && exists k :: 0 <= k < |db.users| && db.users[k].id == session.value.id &&
                   r.0.users == db.users[k := db.users[k].(
                     avatarBodyColor := body.bodyColor, avatarSkinColor := body.skinColor,
                     avatarStyle := body.style, avatarAccessories := Some(body.accessories.GetOr([])))]
  {
    if session.None? then (db, Failure(Unauthorized))
    else if !Truthy(body.bodyColor) || !Truthy(body.skinColor) || !Truthy(body.style) then
      (db, Failure(BadRequest(MissingFields)))
    else match FindUser(db.users, session.value.id)
      case None => (db, Failure(NotFound(UserNotFound)))
      case Some(k) =>
        var accessories := body.accessories.GetOr([]);
        var user := db.users[k].(avatarBodyColor := body.bodyColor, avatarSkinColor := body.skinColor,
                                 avatarStyle := body.style, avatarAccessories := Some(accessories));
        (db.(users := db.users[k := user]),
         Success(200, Customization(body.bodyColor.value, body.skinColor.value, body.style.value, accessories)))
  }

  /** `GET`. */
  function Get(db: Db, session: Option<SessionUser>): (r: Reply<Customization>)
    ensures session.None? ==> r == Failure(Unauthorized)
    ensures session.Some? ==> (r == Failure(NotFound(UserNotFound)) <==>
                                 forall u :: u in db.users ==> u.id != session.value.id)
    ensures r.Success? ==> r.status == 200 && r.body.bodyColor != "" && r.body.skinColor != "" && r.body.style != ""
  {
    if session.None? then Failure(Unauthorized)
    else match FindUser(db.users, session.value.id)
      case None => Failure(NotFound(UserNotFound))
      case Some(k) =>
        var u := db.users[k];
        Success(200, Customization(OrDefault(u.avatarBodyColor, DefaultBodyColor),
                                   OrDefault(u.avatarSkinColor, DefaultSkinColor),
                                   OrDefault(u.avatarStyle, DefaultStyle),
                                   u.avatarAccessories.GetOr([])))
  }

  /** A user who never saved settings reads back the look an avatar without a
      customization gets: the first palette colour (that of the empty id),
      the default skin, the default style and no accessories. */
  lemma UnsetColumnsReadAsDefaults(db: Db, session: SessionUser, k: nat)
    requires k < |db.users| && db.users[k].id == session.id
    requires forall j :: 0 <= j < k ==> db.users[j].id != session.id
    requires var u := db.users[k];
             !Truthy(u.avatarBodyColor) && !Truthy(u.avatarSkinColor) && !Truthy(u.avatarStyle) &&
             u.avatarAccessories.None?
    ensures Get(db, Some(session)) ==
              Success(200, Customization(Avatar.Palette[0], DefaultSkinColor, Default.Name(), []))
    ensures Avatar.Palette[0] == Avatar.ColorFromId("")
  {
    Avatar.EmptyIdColor();
  }

  /** What a successful `PUT` stores, `GET` returns unchanged. */
  lemma PutThenGetRoundTrip(db: Db, session: SessionUser, body: AvatarBody)
    requires Put(db, Some(session), body).1.Success?
    ensures var (db', reply) := Put(db, Some(session), body);
            Get(db', Some(session)) == reply
  {
    var (db', reply) := Put(db, Some(session), body);
    var k := FindUser(db.users, session.id).value;
    var f := FindUser(db'.users, session.id);
    assert db'.users[k].id == session.id;
    assert f.Some? && f.value <= k;
    assert forall j :: 0 <= j < k ==> db'.users[j] == db.users[j];
  }

  /** `PUT` does not check the style against the four known ones: any
      nonempty string is stored. */
  lemma AnyStyleIsStored(db: Db, session: SessionUser, body: AvatarBody)
    requires Truthy(body.bodyColor) && Truthy(body.skinColor) && Truthy(body.style)
    requires exists u :: u in db.users && u.id == session.id
    ensures Put(db, Some(session), body).1.Success?
    ensures Put(db, Some(session), body).1.body.style == body.style.value
  {
  }

  /** Saving avatar settings keeps the database consistent. */
  lemma PutKeepsConsistent(db: Db, session: Option<SessionUser>, body: AvatarBody)
    requires Consistent(db)
    ensures Consistent(Put(db, session, body).0)
  {
    var db' := Put(db, session, body).0;
    if db' != db {
      forall i, j | 0 <= i < j < |db'.users|
        ensures db'.users[i].email.None? || db'.users[i].email != db'.users[j].email
      {
        assert db'.users[i].email == db.users[i].email && db'.users[j].email == db.users[j].email;
      }
    }
  }
}
