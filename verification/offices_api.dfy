/** `POST /api/offices` (create an office, its creator becoming the owner)
    and `GET /api/offices` (the offices the signed-in user belongs to). */
module OfficesApi {
  import opened Wrappers
  import opened Js
  import opened Store

  datatype OfficeBody = OfficeBody(name: Option<string>, description: Option<string>)

  /** One office as both handlers reply with it. */
  datatype OfficeEntry = OfficeEntry(id: string, name: string, description: Option<string>, role: Role,
                                     createdAt: int)

  const NameRequired := "Office name is required"

  /** `!name || name.trim() === ''`. */
  predicate BlankName(name: Option<string>) {
    !Truthy(name) || Trim(name.value) == ""
  }

  lemma BlankNameIffAllWhitespace(name: Option<string>)
    ensures BlankName(name) <==> name.None? || AllWhitespace(name.value)
  {
    if name.Some? {
      TrimEmptyIffAllWhitespace(name.value);
    }
  }

  /** `description?.trim() || null`. */
  function CleanDescription(description: Option<string>): (r: Option<string>)
    ensures r.Some? ==> r.value != "" && description.Some? && r.value == Trim(description.value)
    ensures r.None? <==> description.None? || AllWhitespace(description.value)
  {
    match description
    case None => None
    case Some(d) =>
      TrimEmptyIffAllWhitespace(d);
      if Trim(d) == "" then None else Some(Trim(d))
  }

  /** `POST`. `officeId` and `membershipId` are the ids the database
      generates for the two new rows; `now` is the clock. */
  function Post(db: Db, session: Option<SessionUser>, body: OfficeBody, officeId: string, membershipId: string,
                now: int)
    : (r: (Db, Reply<OfficeEntry>))
    ensures session.None? ==> r == (db, Failure(Unauthorized))
    ensures session.Some? ==> (BlankName(body.name) <==> r == (db, Failure(BadRequest(NameRequired))))
    ensures r.0.users == db.users && r.0.invitations == db.invitations
    ensures r.1.Success? ==>
              && r.1.status == 201
              && r.1.body == OfficeEntry(officeId, Trim(body.name.value), CleanDescription(body.description),
                                         Owner, now)
              && r.0.offices == db.offices + [Office(officeId, r.1.body.name, r.1.body.description, now)]
              && r.0.memberships == db.memberships + [Membership(membershipId, session.value.id, officeId, Owner, now)]
  {
    if session.None? then (db, Failure(Unauthorized))
    else if BlankName(body.name) then (db, Failure(BadRequest(NameRequired)))
    else
      var office := Office(officeId, Trim(body.name.value), CleanDescription(body.description), now);
      if exists o :: o in db.offices && o.id == officeId then (db, Failure(InternalError))
      else
        var withOffice := db.(offices := db.offices + [office]);
        if exists m :: m in db.memberships && m.id == membershipId then
          (withOffice, Failure(InternalError))     // the office is saved, the membership is not
        else
          (withOffice.(memberships := db.memberships + [Membership(membershipId, session.value.id, officeId, Owner, now)]),
           Success(201, OfficeEntry(office.id, office.name, office.description, Owner, office.createdAt)))
  }

  /** The stored name has no whitespace at either end and is never empty. */
  lemma StoredNameIsTrimmed(db: Db, session: Option<SessionUser>, body: OfficeBody, officeId: string,
                            membershipId: string, now: int)
    ensures var r := Post(db, session, body, officeId, membershipId, now);
            r.1.Success? ==>
              var name := r.1.body.name;
              && name != "" && !IsWhitespace(name[0]) && !IsWhitespace(name[|name| - 1])
              && !AllWhitespace(body.name.value)
  {
    if body.name.Some? {
      TrimEmptyIffAllWhitespace(body.name.value);
    }
  }

  /** Adding an office breaks no constraint: every foreign key still finds
      its office. */
  lemma AddingOfficeKeepsConsistent(db: Db, office: Office)
    requires Consistent(db)
    ensures Consistent(db.(offices := db.offices + [office]))
  {
    var db' := db.(offices := db.offices + [office]);
    forall o | o in db.offices ensures o in db'.offices { }
  }

  /** Adding a membership of an existing office nobody belongs to yet breaks
      no constraint. */
  lemma AddingFirstMembershipKeepsConsistent(db: Db, m: Membership)
    requires Consistent(db)
    requires exists o :: o in db.offices && o.id == m.officeId
    requires forall m' :: m' in db.memberships ==> m'.officeId != m.officeId
    ensures Consistent(db.(memberships := db.memberships + [m]))
  {
    var ms := db.memberships + [m];
    forall i, j | 0 <= i < j < |ms| ensures ms[i].userId != ms[j].userId || ms[i].officeId != ms[j].officeId {
      if j == |ms| - 1 {
        assert ms[i] in db.memberships;
      } else {
        assert ms[i] == db.memberships[i] && ms[j] == db.memberships[j];
      }
    }
  }

  /** Creating an office keeps the database consistent: the new office's id
      is new, so no one is a member of it yet. */
  lemma PostKeepsConsistent(db: Db, session: Option<SessionUser>, body: OfficeBody, officeId: string,
                            membershipId: string, now: int)
    requires Consistent(db)
    ensures Consistent(Post(db, session, body, officeId, membershipId, now).0)
  {
    var db' := Post(db, session, body, officeId, membershipId, now).0;
    if session.None? || BlankName(body.name) || exists o :: o in db.offices && o.id == officeId {
      assert db' == db;
    } else {
      var office := Office(officeId, Trim(body.name.value), CleanDescription(body.description), now);
      var withOffice := db.(offices := db.offices + [office]);
      AddingOfficeKeepsConsistent(db, office);
      if exists m :: m in db.memberships && m.id == membershipId {
        assert db' == withOffice;
      } else {
        var m := Membership(membershipId, session.value.id, officeId, Owner, now);
        assert office in withOffice.offices;
        AddingFirstMembershipKeepsConsistent(withOffice, m);
        assert db' == withOffice.(memberships := withOffice.memberships + [m]);
      }
    }
  }

  // ---------------------------------------------------------------------------
  // GET

  /** The query: the user's memberships, newest first. */
  function MembershipRows(db: Db, userId: string): seq<Membership> {
    SortDesc(Filter(db.memberships, (m: Membership) => m.userId == userId), (m: Membership) => m.createdAt)
  }

  /** The `map` over the rows; a membership whose office is missing makes
      `ou.office.id` throw. */
  function Entries(db: Db, rows: seq<Membership>): (r: Option<seq<OfficeEntry>>)
    ensures r.Some? ==> |r.value| == |rows|
    ensures r.Some? ==> forall k :: 0 <= k < |rows| ==>
              r.value[k].id == rows[k].officeId && r.value[k].role == rows[k].role &&
              FindOffice(db, rows[k].officeId).Some? &&
              r.value[k].name == FindOffice(db, rows[k].officeId).value.name
    ensures r.None? <==> exists k :: 0 <= k < |rows| && FindOffice(db, rows[k].officeId).None?
  {
    if rows == [] then Some([])
    else
      match (FindOffice(db, rows[0].officeId), Entries(db, rows[1..]))
      case (Some(o), Some(rest)) =>
        Some([OfficeEntry(o.id, o.name, o.description, rows[0].role, o.createdAt)] + rest)
      case _ => None
  }

  function Get(db: Db, session: Option<SessionUser>): (r: Reply<seq<OfficeEntry>>)
    ensures session.None? ==> r == Failure(Unauthorized)
    ensures r.Success? ==> r.status == 200
  {
    if session.None? then Failure(Unauthorized)
    else match Entries(db, MembershipRows(db, session.value.id))
      case None => Failure(InternalError)
      case Some(list) => Success(200, list)
  }

  /** In a consistent database `GET` lists one entry per membership of the
      user, with the membership's role and office, newest membership first;
      every membership of the user is listed. */
  lemma GetListsEveryMembership(db: Db, session: SessionUser)
    requires OfficesExist(db)
    ensures var r := Get(db, Some(session));
            var rows := MembershipRows(db, session.id);
            && r.Success?
            && |r.body| == |rows|
            && SortedDesc(rows, (m: Membership) => m.createdAt)
            && (forall k :: 0 <= k < |rows| ==> r.body[k].id == rows[k].officeId && r.body[k].role == rows[k].role)
            && (forall m :: m in rows <==> m in db.memberships && m.userId == session.id)
  {
    var rows := MembershipRows(db, session.id);
    QueryRowsAreTheSelection(db.memberships, (m: Membership) => m.userId == session.id,
                             (m: Membership) => m.createdAt);
    forall k | 0 <= k < |rows| ensures FindOffice(db, rows[k].officeId).Some? {
      assert rows[k] in rows;
      assert rows[k] in db.memberships;
    }
    assert Entries(db, rows).Some?;
  }
}
