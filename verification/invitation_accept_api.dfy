/** `POST /api/invitations/accept`: the signed-in user redeems an invitation
    token. A pending invitation either expires or is accepted; nothing else
    moves its status. */
module InvitationAcceptApi {
  import opened Wrappers
  import opened Js
  import opened Store

  /** The office part of the success reply. */
  datatype JoinedOffice = JoinedOffice(id: string, name: string, description: Option<string>, role: Role)

  const TokenRequired := "Token is required"
  const InvalidToken := "Invalid invitation token"
  const WrongAddress := "This invitation is not for your email address"
  const HasExpired := "Invitation has expired"
  const AlreadyMember := "You are already a member of this office"

  function NotPendingMessage(status: InvitationStatus): string {
    "Invitation has already been " + status.Name()
  }

  /** `invitationRepo.findOne({ where: { token } })`. */
  function FindByToken(invs: seq<Invitation>, token: string): (r: Option<nat>)
    ensures r.Some? ==> r.value < |invs| && invs[r.value].token == token
    ensures r.Some? ==> forall j :: 0 <= j < r.value ==> invs[j].token != token
    ensures r.None? <==> forall inv :: inv in invs ==> inv.token != token
  {
    FindFirst(invs, (inv: Invitation) => inv.token == token)
  }

  function SetStatus(db: Db, k: nat, status: InvitationStatus): (r: Db)
    requires k < |db.invitations|
  {
    db.(invitations := db.invitations[k := db.invitations[k].(status := status)])
  }

  /** `POST`. `membershipId` is the id the database generates for a new
      membership row; `now` is the clock. */
  function Accept(db: Db, session: Option<SessionUser>, token: Option<string>, now: int, membershipId: string)
    : (r: (Db, Reply<JoinedOffice>))
    ensures r.0.users == db.users && r.0.offices == db.offices
    ensures r.1.Success? ==> r.1.status == 200
  {
    if session.None? || !Truthy(session.value.email) then (db, Failure(Unauthorized))
    else if !Truthy(token) then (db, Failure(BadRequest(TokenRequired)))
    else match FindByToken(db.invitations, token.value)
      case None => (db, Failure(NotFound(InvalidToken)))
      case Some(k) =>
        var inv := db.invitations[k];
        var user := session.value;
        if Some(inv.email) != user.email then (db, Failure(Forbidden(WrongAddress)))
        else if inv.status != Pending then (db, Failure(BadRequest(NotPendingMessage(inv.status))))
        else if inv.expiresAt < now then (SetStatus(db, k, Expired), Failure(BadRequest(HasExpired)))
        else if FindMembership(db, user.id, inv.officeId).Some? then
          (SetStatus(db, k, Accepted), Failure(BadRequest(AlreadyMember)))
        else if exists m :: m in db.memberships && m.id == membershipId then
          (db, Failure(InternalError))      // primary-key clash on save
        else
          var joined := db.(memberships := db.memberships + [Membership(membershipId, user.id, inv.officeId, inv.role, now)]);
          var db' := SetStatus(joined, k, Accepted);
          match FindOffice(db, inv.officeId)
          case None => (db', Failure(InternalError))   // `invitation.office` is null
          case Some(o) => (db', Success(200, JoinedOffice(o.id, o.name, o.description, inv.role)))
  }

  // ---------------------------------------------------------------------------
  // Properties

  /** How one invitation row may change: not at all, or from pending to
      expired or accepted. */
  predicate StatusStep(before: Invitation, after: Invitation) {
    after == before ||
    (before.status == Pending && (after == before.(status := Expired) || after == before.(status := Accepted)))
  }

  /** `after` differs from `before` at most in the status of rows carrying
      `token`, each moved by a `StatusStep`, and never to declined. */
  predicate OnlyStatusOf(before: seq<Invitation>, after: seq<Invitation>, token: string) {
    && |after| == |before|
    && (forall k :: 0 <= k < |after| ==> StatusStep(before[k], after[k]))
    && (forall k :: 0 <= k < |after| && after[k] != before[k] ==> before[k].token == token)
    && (forall k :: 0 <= k < |after| ==> after[k].status != Declined || before[k].status == Declined)
  }

  lemma SetPendingStatus(invs: seq<Invitation>, k: nat, status: InvitationStatus)
    requires k < |invs| && invs[k].status == Pending && (status == Expired || status == Accepted)
    ensures OnlyStatusOf(invs, invs[k := invs[k].(status := status)], invs[k].token)
  {
  }

  /** No call ever declines an invitation or touches any other column or row
      than the status of the one the token names. */
  lemma StatusOnlyLeavesPending(db: Db, session: Option<SessionUser>, token: Option<string>, now: int,
                                membershipId: string)
    ensures var after := Accept(db, session, token, now, membershipId).0.invitations;
            && |after| == |db.invitations|
            && (forall k :: 0 <= k < |after| ==> StatusStep(db.invitations[k], after[k]))
            && (forall k :: 0 <= k < |after| && after[k] != db.invitations[k] ==>
                  token.Some? && db.invitations[k].token == token.value)
            && (forall k :: 0 <= k < |after| ==> after[k].status != Declined || db.invitations[k].status == Declined)
  {
    var after := Accept(db, session, token, now, membershipId).0.invitations;
    if after != db.invitations {
      var k := FindByToken(db.invitations, token.value).value;
      var inv := db.invitations[k];
      if inv.expiresAt < now {
        SetPendingStatus(db.invitations, k, Expired);
        assert after == db.invitations[k := inv.(status := Expired)];
      } else {
        SetPendingStatus(db.invitations, k, Accepted);
        assert after == db.invitations[k := inv.(status := Accepted)];
      }
      assert OnlyStatusOf(db.invitations, after, token.value);
    }
  }

  /** The checks before the expiry test, in the route's order, store
      nothing. */
  lemma EarlyFailuresChangeNothing(db: Db, session: Option<SessionUser>, token: Option<string>, now: int,
                                   membershipId: string)
    requires TokensUnique(db.invitations)
    ensures var (db', reply) := Accept(db, session, token, now, membershipId);
            && (session.None? || !Truthy(session.value.email) ==> db' == db && reply == Failure(Unauthorized))
            && (session.Some? && Truthy(session.value.email) ==>
                  && (!Truthy(token) ==> db' == db && reply == Failure(BadRequest(TokenRequired)))
                  && (Truthy(token) && (forall inv :: inv in db.invitations ==> inv.token != token.value) ==>
                        db' == db && reply == Failure(NotFound(InvalidToken)))
                  && (forall inv :: inv in db.invitations && Truthy(token) && inv.token == token.value ==>
                        && (Some(inv.email) != session.value.email ==>
                              db' == db && reply == Failure(Forbidden(WrongAddress)))
                        && (Some(inv.email) == session.value.email && inv.status != Pending ==>
                              db' == db && reply == Failure(BadRequest(NotPendingMessage(inv.status))))))
  {
    if session.Some? && Truthy(session.value.email) && Truthy(token) {
      forall inv | inv in db.invitations && inv.token == token.value
        ensures FindByToken(db.invitations, token.value).Some?
        ensures db.invitations[FindByToken(db.invitations, token.value).value] == inv
      {
        var i :| 0 <= i < |db.invitations| && db.invitations[i] == inv;
        var f := FindByToken(db.invitations, token.value);
        assert f.Some? && f.value <= i;
      }
    }
  }

  /** The redeemer's own, pending invitation at index `k`. */
  predicate Redeemable(db: Db, session: SessionUser, token: string, k: nat) {
    && FindByToken(db.invitations, token) == Some(k)
    && token != ""
    && Truthy(session.email)
    && Some(db.invitations[k].email) == session.email
    && db.invitations[k].status == Pending
  }

  /** A redeemable invitation past its expiry becomes expired and no
      membership is created. */
  lemma ExpiredInvitationIsMarked(db: Db, session: SessionUser, token: string, now: int, membershipId: string,
                                  k: nat)
    requires Redeemable(db, session, token, k) && db.invitations[k].expiresAt < now
    ensures var (db', reply) := Accept(db, Some(session), Some(token), now, membershipId);
            && reply == Failure(BadRequest(HasExpired))
            && db'.invitations[k].status == Expired
            && db'.memberships == db.memberships
  {
  }

  /** Redeeming an invitation to an office the user is already in marks it
      accepted without adding a second membership. */
  lemma MemberRedeemingIsMarkedAccepted(db: Db, session: SessionUser, token: string, now: int,
                                        membershipId: string, k: nat)
    requires Redeemable(db, session, token, k) && db.invitations[k].expiresAt >= now
    requires IsMember(db, session.id, db.invitations[k].officeId)
    ensures var (db', reply) := Accept(db, Some(session), Some(token), now, membershipId);
            && reply == Failure(BadRequest(AlreadyMember))
            && db'.invitations[k].status == Accepted
            && db'.memberships == db.memberships
  {
  }

  /** Otherwise exactly one membership is added, for the user, the
      invitation's office and the invitation's role, and the invitation is
      accepted. */
  lemma RedeemingAddsOneMembership(db: Db, session: SessionUser, token: string, now: int,
                                   membershipId: string, k: nat)
    requires Redeemable(db, session, token, k) && db.invitations[k].expiresAt >= now
    requires !IsMember(db, session.id, db.invitations[k].officeId)
    requires forall m :: m in db.memberships ==> m.id != membershipId
    ensures var (db', reply) := Accept(db, Some(session), Some(token), now, membershipId);
            var inv := db.invitations[k];
            && db'.memberships == db.memberships + [Membership(membershipId, session.id, inv.officeId, inv.role, now)]
            && db'.invitations == db.invitations[k := inv.(status := Accepted)]
            && (InvitationOfficesExist(db) ==>
                  reply.Success? && reply.body.id == inv.officeId && reply.body.role == inv.role)
  {
    assert db.invitations[k] in db.invitations;
  }

  /** A token that has been redeemed, successfully or by a member, cannot be
      redeemed again. */
  lemma SecondAcceptFails(db: Db, session: SessionUser, token: string, now: int, later: int,
                          membershipId: string, otherId: string)
    requires Truthy(session.email) && token != ""
    requires var reply := Accept(db, Some(session), Some(token), now, membershipId).1;
             reply.Success? || reply == Failure(BadRequest(AlreadyMember))
    ensures var db' := Accept(db, Some(session), Some(token), now, membershipId).0;
            Accept(db', Some(session), Some(token), later, otherId)
              == (db', Failure(BadRequest(NotPendingMessage(Accepted))))
  {
    var k := FindByToken(db.invitations, token).value;
    var db' := Accept(db, Some(session), Some(token), now, membershipId).0;
    assert db'.invitations == db.invitations[k := db.invitations[k].(status := Accepted)];
    var f := FindByToken(db'.invitations, token);
    assert db'.invitations[k].token == token;
    assert f.Some? && f.value <= k;
  }

  /** Status-only changes from pending keep the invitation constraints. */
  lemma StatusStepsKeepInvitationConstraints(db: Db, db': Db)
    requires Consistent(db) && db'.offices == db.offices
    requires |db'.invitations| == |db.invitations|
    requires forall k :: 0 <= k < |db.invitations| ==> StatusStep(db.invitations[k], db'.invitations[k])
    ensures TokensUnique(db'.invitations) && OnePendingPerAddress(db'.invitations)
    ensures InvitationOfficesExist(db')
  {
    forall i, j | 0 <= i < j < |db'.invitations|
      ensures db'.invitations[i].token != db'.invitations[j].token
    {
      assert db'.invitations[i].token == db.invitations[i].token;
      assert db'.invitations[j].token == db.invitations[j].token;
    }
    forall i, j | 0 <= i < j < |db'.invitations| && db'.invitations[i].status == Pending &&
                  db'.invitations[j].status == Pending
      ensures db'.invitations[i].email != db'.invitations[j].email ||
              db'.invitations[i].officeId != db'.invitations[j].officeId
    {
      assert db'.invitations[i] == db.invitations[i];
      assert db'.invitations[j] == db.invitations[j];
    }
    forall inv | inv in db'.invitations ensures exists o :: o in db'.offices && o.id == inv.officeId {
      var k :| 0 <= k < |db'.invitations| && db'.invitations[k] == inv;
      assert db.invitations[k] in db.invitations && db.invitations[k].officeId == inv.officeId;
    }
  }

  /** Adding a membership for a pair not yet present, in an existing office,
      keeps the membership constraints. */
  lemma AddingNewMembershipKeepsConstraints(db: Db, db': Db, m: Membership)
    requires OfficesExist(db) && MembershipsUnique(db.memberships)
    requires db'.memberships == db.memberships + [m] && db'.offices == db.offices
    requires !IsMember(db, m.userId, m.officeId)
    requires exists o :: o in db.offices && o.id == m.officeId
    ensures OfficesExist(db') && MembershipsUnique(db'.memberships)
  {
    forall i, j | 0 <= i < j < |db'.memberships|
      ensures db'.memberships[i].userId != db'.memberships[j].userId ||
              db'.memberships[i].officeId != db'.memberships[j].officeId
    {
      if j == |db'.memberships| - 1 {
        assert db'.memberships[i] in db.memberships;
      }
    }
  }

  /** The only membership `Accept` ever adds is one the database lacks, for
      the office of the invitation the token names. */
  lemma AcceptAddsOnlyNewMemberships(db: Db, session: Option<SessionUser>, token: Option<string>, now: int,
                                     membershipId: string)
    ensures var db' := Accept(db, session, token, now, membershipId).0;
            || db'.memberships == db.memberships
            || exists m :: && db'.memberships == db.memberships + [m]
                           && !IsMember(db, m.userId, m.officeId)
                           && exists inv :: inv in db.invitations && inv.officeId == m.officeId
  {
    var db' := Accept(db, session, token, now, membershipId).0;
    if db'.memberships != db.memberships {
      var k := FindByToken(db.invitations, token.value).value;
      var inv := db.invitations[k];
      var m := Membership(membershipId, session.value.id, inv.officeId, inv.role, now);
      assert db'.memberships == db.memberships + [m];
      assert inv in db.invitations;
    }
  }

  /** Accepting keeps the database consistent: the membership check is what
      keeps a user in an office at most once. */
  lemma AcceptKeepsConsistent(db: Db, session: Option<SessionUser>, token: Option<string>, now: int,
                              membershipId: string)
    requires Consistent(db)
    ensures Consistent(Accept(db, session, token, now, membershipId).0)
  {
    var db' := Accept(db, session, token, now, membershipId).0;
    StatusOnlyLeavesPending(db, session, token, now, membershipId);
    StatusStepsKeepInvitationConstraints(db, db');
    AcceptAddsOnlyNewMemberships(db, session, token, now, membershipId);
    if db'.memberships != db.memberships {
      var m :| && db'.memberships == db.memberships + [m]
               && !IsMember(db, m.userId, m.officeId)
               && exists inv :: inv in db.invitations && inv.officeId == m.officeId;
      AddingNewMembershipKeepsConstraints(db, db', m);
    }
  }
}
