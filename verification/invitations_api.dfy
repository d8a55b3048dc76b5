/** `POST /api/invitations` (an owner or admin invites an address to an
    office) and `GET /api/invitations` (the signed-in user's pending
    invitations, expiring stale ones on the way). */
module InvitationsApi {
  import opened Wrappers
  import opened Js
  import opened Store
  import opened Email
  import opened Hex

  /** The fields read from the JSON body; `None` is an absent field. */
  datatype InviteBody = InviteBody(email: Option<string>, officeId: Option<string>, role: Option<string>)

  /** What the route takes from outside the database: the generated row id,
      the random token bytes, the clock, and the expiry it computes (the same
      time of day a calendar week later). */
  datatype Fresh = Fresh(id: string, tokenBytes: Bytes32, now: int, expiresAt: int)

  const MissingFields := "Email, officeId, and role are required"
  const InvalidEmail := "Invalid email address"
  const AccessDenied := "Access denied"
  const NotAnInviter := "Only owners and admins can send invitations"
  const BadRole := "Can only invite as admin or member"
  const AlreadyMember := "User is already a member of this office"
  const AlreadyInvited := "An invitation has already been sent to this email"

  /** `userRepo.findOne({ where: { email } })` followed by the membership
      lookup for that user. */
  predicate InviteeIsMember(db: Db, email: string, officeId: string) {
    match FindFirst(db.users, (u: User) => u.email == Some(email))
    case None => false
    case Some(i) => IsMember(db, db.users[i].id, officeId)
  }

  predicate HasPendingInvitation(invs: seq<Invitation>, email: string, officeId: string) {
    exists inv :: inv in invs && inv.email == email && inv.officeId == officeId && inv.status == Pending
  }

  /** Saving a row whose primary key or token is already taken throws. */
  predicate Collides(invs: seq<Invitation>, inv: Invitation) {
    exists x :: x in invs && (x.id == inv.id || x.token == inv.token)
  }

  /** The row the route creates. */
  function NewInvitation(session: SessionUser, email: string, officeId: string, role: Role, gen: Fresh)
    : Invitation
  {
    Invitation(gen.id, email, officeId, session.id, role, Token(gen.tokenBytes), Pending,
               gen.expiresAt, gen.now)
  }

  /** `POST`: the checks in the route's order, the first failing one giving
      the reply, then one new pending row. */
  function Post(db: Db, session: Option<SessionUser>, body: InviteBody, gen: Fresh)
    : (r: (Db, Reply<Invitation>))
    ensures r.1.Failure? ==> r.0 == db
    ensures r.1.Success? ==>
              && r.1.status == 201
              && r.0 == db.(invitations := db.invitations + [r.1.body])
              && session.Some? && r.1.body.inviterId == session.value.id
              && Some(r.1.body.email) == body.email && Some(r.1.body.officeId) == body.officeId
              && Some(r.1.body.role.Name()) == body.role && r.1.body.role != Owner
              && r.1.body.status == Pending && r.1.body.expiresAt == gen.expiresAt
              && |r.1.body.token| == 64 && Decode(r.1.body.token) == Some(gen.tokenBytes)
    ensures r.1.Status() in {201, 400, 401, 403, 500}
  {
    if session.None? then (db, Failure(Unauthorized))
    else if !Truthy(body.email) || !Truthy(body.officeId) || !Truthy(body.role) then
      (db, Failure(BadRequest(MissingFields)))
    else
      var email := body.email.value;
      var officeId := body.officeId.value;
      if !MatchesPattern(email) then (db, Failure(BadRequest(InvalidEmail)))
      else match FindMembership(db, session.value.id, officeId)
        case None => (db, Failure(Forbidden(AccessDenied)))
        case Some(m) =>
          var role := ParseRole(body.role.value);
          if m.role != Owner && m.role != Admin then (db, Failure(Forbidden(NotAnInviter)))
          else if role != Some(Admin) && role != Some(Member) then (db, Failure(BadRequest(BadRole)))
          else if InviteeIsMember(db, email, officeId) then (db, Failure(BadRequest(AlreadyMember)))
          else if HasPendingInvitation(db.invitations, email, officeId) then
            (db, Failure(BadRequest(AlreadyInvited)))
          else
            var inv := NewInvitation(session.value, email, officeId, role.value, gen);
            if Collides(db.invitations, inv) then (db, Failure(InternalError))
            else (db.(invitations := db.invitations + [inv]), Success(201, inv))
  }

  // ---------------------------------------------------------------------------
  // POST: what a caller can rely on

  /** Who may invite whom, stated over the whole database rather than over the
      first rows the lookups find. */
  predicate MayInvite(db: Db, session: Option<SessionUser>, body: InviteBody) {
    && session.Some?
    && Truthy(body.email) && Truthy(body.officeId)
    && (body.role == Some(Admin.Name()) || body.role == Some(Member.Name()))
    && WellFormed(body.email.value)
    && (exists m :: m in db.memberships && m.userId == session.value.id &&
                    m.officeId == body.officeId.value && (m.role == Owner || m.role == Admin))
    && (forall u :: u in db.users && u.email == body.email ==> !IsMember(db, u.id, body.officeId.value))
    && !HasPendingInvitation(db.invitations, body.email.value, body.officeId.value)
  }

  lemma FirstMembershipIsTheMembership(db: Db, userId: string, officeId: string, m: Membership)
    requires MembershipsUnique(db.memberships)
    requires m in db.memberships && m.userId == userId && m.officeId == officeId
    ensures FindMembership(db, userId, officeId) == Some(m)
  {
    var i :| 0 <= i < |db.memberships| && db.memberships[i] == m;
    var f := FindFirst(db.memberships, (x: Membership) => x.userId == userId && x.officeId == officeId);
    assert f.Some? && f.value <= i;
  }

  lemma FirstUserIsTheUser(db: Db, email: string, officeId: string)
    requires UserEmailsUnique(db.users)
    ensures InviteeIsMember(db, email, officeId) <==>
              exists u :: u in db.users && u.email == Some(email) && IsMember(db, u.id, officeId)
  {
    var f := FindFirst(db.users, (u: User) => u.email == Some(email));
    if u :| u in db.users && u.email == Some(email) && IsMember(db, u.id, officeId) {
      var i :| 0 <= i < |db.users| && db.users[i] == u;
      assert f.Some? && f.value <= i;
    }
  }

  /** `Post` when every body field is present, condition by condition. */
  lemma PostPastTheFieldCheck(db: Db, session: Option<SessionUser>, body: InviteBody, gen: Fresh)
    requires session.Some? && Truthy(body.email) && Truthy(body.officeId) && Truthy(body.role)
    ensures var fm := FindMembership(db, session.value.id, body.officeId.value);
            var role := ParseRole(body.role.value);
            Post(db, session, body, gen).1.Success? <==>
              && MatchesPattern(body.email.value)
              && fm.Some? && (fm.value.role == Owner || fm.value.role == Admin)
              && (role == Some(Admin) || role == Some(Member))
              && !InviteeIsMember(db, body.email.value, body.officeId.value)
              && !HasPendingInvitation(db.invitations, body.email.value, body.officeId.value)
              && !Collides(db.invitations, NewInvitation(session.value, body.email.value, body.officeId.value,
                                                        role.value, gen))
  {
  }

  /** In a consistent database an invitation is stored exactly when the
      inviter may invite and the generated id and token are unused. */
  lemma PostSucceedsIff(db: Db, session: Option<SessionUser>, body: InviteBody, gen: Fresh)
    requires Consistent(db)
    ensures Post(db, session, body, gen).1.Success? <==>
              && MayInvite(db, session, body)
              && !Collides(db.invitations, NewInvitation(session.value, body.email.value, body.officeId.value,
                                                        ParseRole(body.role.value).value, gen))
  {
    if session.Some? && Truthy(body.email) && Truthy(body.officeId) && Truthy(body.role) {
      var email := body.email.value;
      var officeId := body.officeId.value;
      var uid := session.value.id;
      PostPastTheFieldCheck(db, session, body, gen);
      PatternIffWellFormed(email);
      FirstUserIsTheUser(db, email, officeId);
      var fm := FindMembership(db, uid, officeId);
      var inviter := exists m :: m in db.memberships && m.userId == uid && m.officeId == officeId &&
                                 (m.role == Owner || m.role == Admin);
      assert inviter <==> fm.Some? && (fm.value.role == Owner || fm.value.role == Admin) by {
        if m :| m in db.memberships && m.userId == uid && m.officeId == officeId && (m.role == Owner || m.role == Admin) {
          FirstMembershipIsTheMembership(db, uid, officeId, m);
        }
      }
      var role := ParseRole(body.role.value);
      assert (role == Some(Admin) || role == Some(Member)) <==>
             (body.role == Some(Admin.Name()) || body.role == Some(Member.Name()));
    }
  }

  /** The owner role is never granted by invitation. */
  lemma OwnerIsNeverInvited(db: Db, session: Option<SessionUser>, body: InviteBody, gen: Fresh)
    requires body.role == Some(Owner.Name())
    ensures Post(db, session, body, gen).1.Failure?
  {
  }

  /** The reply to each failing check, in the order the route makes them:
      a check is only reached when every earlier one passed. The last two
      turn away an address that already belongs to the office and one that
      already has a pending invitation to it. */
  lemma PostChecksInOrder(db: Db, session: Option<SessionUser>, body: InviteBody, gen: Fresh)
    requires Consistent(db)
    ensures var reply := Post(db, session, body, gen).1;
            && (session.None? ==> reply == Failure(Unauthorized))
            && (session.Some? && !(Truthy(body.email) && Truthy(body.officeId) && Truthy(body.role)) ==>
                  reply == Failure(BadRequest(MissingFields)))
            && (session.Some? && Truthy(body.email) && Truthy(body.officeId) && Truthy(body.role) ==>
                  var email, officeId := body.email.value, body.officeId.value;
                  && (!WellFormed(email) ==> reply == Failure(BadRequest(InvalidEmail)))
                  && (WellFormed(email) && !IsMember(db, session.value.id, officeId) ==>
                        reply == Failure(Forbidden(AccessDenied)))
                  && (forall m :: m in db.memberships && m.userId == session.value.id &&
                                  m.officeId == officeId && WellFormed(email) ==>
                        && (m.role == Member ==> reply == Failure(Forbidden(NotAnInviter)))
                        && (m.role != Member && ParseRole(body.role.value) !in {Some(Admin), Some(Member)} ==>
                              reply == Failure(BadRequest(BadRole)))
                        && (m.role != Member && ParseRole(body.role.value) in {Some(Admin), Some(Member)} ==>
                              && ((exists u :: u in db.users && u.email == Some(email) && IsMember(db, u.id, officeId)) ==>
                                    reply == Failure(BadRequest(AlreadyMember)))
                              && ((forall u :: u in db.users && u.email == Some(email) ==> !IsMember(db, u.id, officeId)) &&
                                  HasPendingInvitation(db.invitations, email, officeId) ==>
                                    reply == Failure(BadRequest(AlreadyInvited))))))
  {
    if session.Some? && Truthy(body.email) && Truthy(body.officeId) && Truthy(body.role) {
      PatternIffWellFormed(body.email.value);
      FirstUserIsTheUser(db, body.email.value, body.officeId.value);
      forall m | m in db.memberships && m.userId == session.value.id && m.officeId == body.officeId.value {
        FirstMembershipIsTheMembership(db, session.value.id, body.officeId.value, m);
      }
    }
  }

  /** `POST` keeps the database consistent: its pending-invitation check is
      what keeps one pending invitation per address and office. */
  lemma PostKeepsConsistent(db: Db, session: Option<SessionUser>, body: InviteBody, gen: Fresh)
    requires Consistent(db)
    ensures Consistent(Post(db, session, body, gen).0)
  {
    var (db', reply) := Post(db, session, body, gen);
    if reply.Success? {
      var inv := reply.body;
      var invs := db'.invitations;
      assert invs[|invs| - 1] == inv;
      forall i | 0 <= i < |invs| - 1
        ensures invs[i].token != inv.token
        ensures invs[i].status != Pending || invs[i].email != inv.email || invs[i].officeId != inv.officeId
      {
        assert invs[i] in db.invitations;
      }
    }
  }

  // ---------------------------------------------------------------------------
  // GET

  /** `invitation.expiresAt < now`: an invitation expiring exactly now is
      still valid. */
  predicate Stale(inv: Invitation, now: int) {
    inv.expiresAt < now && inv.status == Pending
  }

  function ExpireIfStale(inv: Invitation, now: int): (r: Invitation)
    ensures r == (if Stale(inv, now) then inv.(status := Expired) else inv)
  {
    if inv.expiresAt < now && inv.status == Pending then inv.(status := Expired) else inv
  }

  /** The `for` loop over the loaded rows. */
  function ExpireEach(rows: seq<Invitation>, now: int): (r: seq<Invitation>)
    ensures |r| == |rows|
    ensures forall k :: 0 <= k < |r| ==> r[k] == ExpireIfStale(rows[k], now)
  {
    if rows == [] then [] else [ExpireIfStale(rows[0], now)] + ExpireEach(rows[1..], now)
  }

  /** The table after the loop's saves: exactly the loaded rows that were
      stale, which are the user's stale pending ones, are now expired. */
  function SaveExpired(invs: seq<Invitation>, email: string, now: int): (r: seq<Invitation>)
    ensures |r| == |invs|
    ensures forall k :: 0 <= k < |r| ==>
              r[k] == if invs[k].email == email then ExpireIfStale(invs[k], now) else invs[k]
  {
    if invs == [] then []
    else [if invs[0].email == email then ExpireIfStale(invs[0], now) else invs[0]]
         + SaveExpired(invs[1..], email, now)
  }

  predicate PendingFor(inv: Invitation, email: string) {
    inv.email == email && inv.status == Pending
  }

  /** The query: the address's pending rows, newest first. */
  function PendingRows(invs: seq<Invitation>, email: string): seq<Invitation> {
    SortDesc(Filter(invs, (i: Invitation) => PendingFor(i, email)), (i: Invitation) => i.createdAt)
  }

  /** `GET`. Each listed row is the stored row; the office and inviter names
      the route joins in are not modelled. */
  function Get(db: Db, session: Option<SessionUser>, now: int): (r: (Db, Reply<seq<Invitation>>))
    ensures session.None? || !Truthy(session.value.email) ==> r == (db, Failure(Unauthorized))
    ensures r.1.Success? ==> r.1.status == 200
    ensures r.0.users == db.users && r.0.offices == db.offices && r.0.memberships == db.memberships
  {
    if session.None? || !Truthy(session.value.email) then (db, Failure(Unauthorized))
    else
      var email := session.value.email.value;
      var checked := ExpireEach(PendingRows(db.invitations, email), now);
      (db.(invitations := SaveExpired(db.invitations, email, now)),
       Success(200, Filter(checked, (i: Invitation) => i.status == Pending)))
  }

  lemma {:induction false} ExpireThenKeepPending(rows: seq<Invitation>, now: int)
    requires forall k :: 0 <= k < |rows| ==> rows[k].status == Pending
    ensures Filter(ExpireEach(rows, now), (i: Invitation) => i.status == Pending)
            == Filter(rows, (i: Invitation) => !(i.expiresAt < now))
  {
    if rows != [] {
      ExpireThenKeepPending(rows[1..], now);
      assert ExpireEach(rows, now)[1..] == ExpireEach(rows[1..], now);
    }
  }

  /** What `GET` lists: the query rows that have not expired. */
  lemma GetBodyIsUnexpiredQueryRows(db: Db, session: Option<SessionUser>, now: int)
    requires session.Some? && Truthy(session.value.email)
    ensures Get(db, session, now).1
            == Success(200, Filter(PendingRows(db.invitations, session.value.email.value),
                                   (i: Invitation) => !(i.expiresAt < now)))
  {
    var rows := PendingRows(db.invitations, session.value.email.value);
    assert forall k :: 0 <= k < |rows| ==> rows[k].status == Pending by {
      QueryRowsAreTheSelection(db.invitations, (i: Invitation) => PendingFor(i, session.value.email.value),
                               (i: Invitation) => i.createdAt);
      forall k | 0 <= k < |rows| ensures rows[k].status == Pending {
        assert rows[k] in rows;
      }
    }
    ExpireThenKeepPending(rows, now);
  }

  /** The listed invitations are exactly the address's pending rows that
      have not expired (one expiring at this very moment included), each as
      often as it is stored, newest first. */
  lemma GetListsUnexpiredPending(db: Db, session: Option<SessionUser>, now: int)
    requires session.Some? && Truthy(session.value.email)
    ensures var reply := Get(db, session, now).1;
            var email := session.value.email.value;
            && reply.Success?
            && SortedDesc(reply.body, (i: Invitation) => i.createdAt)
            && (forall x :: x in reply.body <==>
                  x in db.invitations && PendingFor(x, email) && x.expiresAt >= now)
            && (forall x :: multiset(reply.body)[x] ==
                  if PendingFor(x, email) && x.expiresAt >= now then multiset(db.invitations)[x] else 0)
  {
    var email := session.value.email.value;
    var q := (i: Invitation) => !(i.expiresAt < now);
    var key := (i: Invitation) => i.createdAt;
    var rows := PendingRows(db.invitations, email);
    QueryRowsAreTheSelection(db.invitations, (i: Invitation) => PendingFor(i, email), key);
    GetBodyIsUnexpiredQueryRows(db, session, now);
    FilterSorted(rows, q, key);
    FilterMultiset(rows, q);
  }

  /** The stored table changes exactly in the user's stale pending rows,
      which become expired; every other row, of this or any other address,
      is left as it was. */
  lemma GetExpiresOnlyStaleRowsOfTheUser(db: Db, session: Option<SessionUser>, now: int)
    requires session.Some? && Truthy(session.value.email)
    ensures var after := Get(db, session, now).0.invitations;
            && |after| == |db.invitations|
            && forall k :: 0 <= k < |after| ==>
                 if db.invitations[k].email == session.value.email.value && Stale(db.invitations[k], now)
                 then after[k] == db.invitations[k].(status := Expired)
                 else after[k] == db.invitations[k]
  {
  }

  /** A second `GET` at the same time changes nothing more in the table. */
  lemma GetTwiceSavesNothingMore(db: Db, session: Option<SessionUser>, now: int)
    ensures var once := Get(db, session, now).0;
            Get(once, session, now).0 == once
  {
    if session.Some? && Truthy(session.value.email) {
      var once := Get(db, session, now).0;
      var twice := Get(once, session, now).0;
      assert twice.invitations == once.invitations;
    }
  }

  /** `GET` keeps the database consistent. */
  lemma GetKeepsConsistent(db: Db, session: Option<SessionUser>, now: int)
    requires Consistent(db)
    ensures Consistent(Get(db, session, now).0)
  {
    if session.Some? && Truthy(session.value.email) {
      GetExpiresOnlyStaleRowsOfTheUser(db, session, now);
    }
  }
}
