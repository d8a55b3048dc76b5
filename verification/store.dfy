/** The database rows the API routes read and write (lib/entities), the
    repository queries they issue, and the HTTP replies they give. Tables are
    sequences in insertion order; timestamps are integers (milliseconds). */
module Store {
  import opened Wrappers

  // ---------------------------------------------------------------------------
  // Enumerations

  /** `OfficeRole`. */
  datatype Role = Owner | Admin | Member {
    function Name(): string {
      match this
      case Owner => "owner"
      case Admin => "admin"
      case Member => "member"
    }
  }

  /** The role a request body names, if it names one. */
  function ParseRole(s: string): (r: Option<Role>)
    ensures r.Some? ==> r.value.Name() == s
    ensures r.None? ==> s != Owner.Name() && s != Admin.Name() && s != Member.Name()
  {
    if s == "owner" then Some(Owner)
    else if s == "admin" then Some(Admin)
    else if s == "member" then Some(Member)
    else None
  }

  lemma RoleNamesDistinct(a: Role, b: Role)
    ensures a.Name() == b.Name() <==> a == b
    ensures ParseRole(a.Name()) == Some(a)
  {
  }

  /** `InvitationStatus`. */
  datatype InvitationStatus = Pending | Accepted | Declined | Expired {
    function Name(): string {
      match this
      case Pending => "pending"
      case Accepted => "accepted"
      case Declined => "declined"
      case Expired => "expired"
    }
  }

  lemma StatusNamesDistinct(a: InvitationStatus, b: InvitationStatus)
    ensures a.Name() == b.Name() <==> a == b
  {
  }

  // ---------------------------------------------------------------------------
  // Rows

  datatype Invitation = Invitation(
    id: string,
    email: string,
    officeId: string,
    inviterId: string,
    role: Role,
    token: string,
    status: InvitationStatus,
    expiresAt: int,
    createdAt: int)

  /** An `office_users` row. */
  datatype Membership = Membership(id: string, userId: string, officeId: string, role: Role, createdAt: int)

  datatype Office = Office(id: string, name: string, description: Option<string>, createdAt: int)

  /** A `users` row; `None` is SQL `NULL`. */
  datatype User = User(
    id: string,
    name: Option<string>,
    email: Option<string>,
    avatarBodyColor: Option<string>,
    avatarSkinColor: Option<string>,
    avatarStyle: Option<string>,
    avatarAccessories: Option<seq<string>>)

  datatype Db = Db(users: seq<User>, offices: seq<Office>, memberships: seq<Membership>,
                   invitations: seq<Invitation>)

  /** The signed-in user of `getServerSession`; a request without a session,
      or whose session has no user, is `None`. */
  datatype SessionUser = SessionUser(id: string, email: Option<string>)

  // ---------------------------------------------------------------------------
  // Replies

  datatype ApiError =
    | Unauthorized
    | BadRequest(message: string)
    | Forbidden(message: string)
    | NotFound(message: string)
    | InternalError   // a thrown exception, caught by the route's `catch`
  {
    function Status(): int {
      match this
      case Unauthorized => 401
      case BadRequest(_) => 400
      case Forbidden(_) => 403
      case NotFound(_) => 404
      case InternalError => 500
    }
  }

  datatype Reply<T> = Success(status: int, body: T) | Failure(error: ApiError) {
    function Status(): int {
      if Success? then status else error.Status()
    }
  }

  // ---------------------------------------------------------------------------
  // Queries

  /** The rows a `where` clause selects, in table order. */
  function Filter<T(!new)>(s: seq<T>, p: T -> bool): (r: seq<T>)
    ensures |r| <= |s|
    ensures forall x :: x in r <==> x in s && p(x)
    ensures forall k :: 0 <= k < |r| ==> p(r[k])
  {
    if s == [] then []
    else if p(s[0]) then [s[0]] + Filter(s[1..], p)
    else Filter(s[1..], p)
  }

  /** Filtering keeps every selected row with its multiplicity. */
  lemma {:induction false} FilterMultiset<T(!new)>(s: seq<T>, p: T -> bool)
    ensures forall x :: multiset(Filter(s, p))[x] == (if p(x) then multiset(s)[x] else 0)
  {
    if s != [] {
      FilterMultiset(s[1..], p);
      assert s == [s[0]] + s[1..];
    }
  }

  lemma {:induction false} FilterOfFilter<T(!new)>(s: seq<T>, p: T -> bool, q: T -> bool)
    ensures Filter(Filter(s, p), q) == Filter(s, x => p(x) && q(x))
  {
    if s != [] {
      FilterOfFilter(s[1..], p, q);
      if p(s[0]) {
        assert ([s[0]] + Filter(s[1..], p))[1..] == Filter(s[1..], p);
      }
    }
  }

  /** `order: { createdAt: 'DESC' }`. */
  predicate SortedDesc<T(!new)>(s: seq<T>, key: T -> int) {
    forall i, j :: 0 <= i < j < |s| ==> key(s[i]) >= key(s[j])
  }

  /** Places `x` before the first row whose key is not larger. */
  function InsertDesc<T(!new)>(x: T, s: seq<T>, key: T -> int): (r: seq<T>)
    ensures multiset(r) == multiset{x} + multiset(s)
    ensures forall y :: y in r ==> y == x || y in s
    ensures |r| == |s| + 1
  {
    if s == [] || key(x) >= key(s[0]) then [x] + s
    else
      var rest := InsertDesc(x, s[1..], key);
      assert s == [s[0]] + s[1..];
      [s[0]] + rest
  }

  lemma {:induction false} InsertDescSorted<T(!new)>(x: T, s: seq<T>, key: T -> int)
    requires SortedDesc(s, key)
    ensures SortedDesc(InsertDesc(x, s, key), key)
  {
    if s != [] && key(x) < key(s[0]) {
      var rest := InsertDesc(x, s[1..], key);
      InsertDescSorted(x, s[1..], key);
      assert forall y :: y in s[1..] ==> key(s[0]) >= key(y);
      assert forall k :: 0 <= k < |rest| ==> key(s[0]) >= key(rest[k]);
    }
  }

  /** The rows of a query in the order the database returns them: newest
      first. Rows with equal timestamps keep table order. */
  function SortDesc<T(!new)>(s: seq<T>, key: T -> int): (r: seq<T>)
    ensures SortedDesc(r, key)
    ensures multiset(r) == multiset(s)
    ensures |r| == |s|
  {
    if s == [] then [] else
      assert s == [s[0]] + s[1..];
      InsertDescSorted(s[0], SortDesc(s[1..], key), key);
      InsertDesc(s[0], SortDesc(s[1..], key), key)
  }

  /** Filtering a sorted sequence keeps it sorted. */
  lemma {:induction false} FilterSorted<T(!new)>(s: seq<T>, p: T -> bool, key: T -> int)
    requires SortedDesc(s, key)
    ensures SortedDesc(Filter(s, p), key)
  {
    if s != [] {
      FilterSorted(s[1..], p, key);
      var rest := Filter(s[1..], p);
      assert forall y :: y in s[1..] ==> key(s[0]) >= key(y);
      assert forall k :: 0 <= k < |rest| ==> key(s[0]) >= key(rest[k]);
    }
  }

  /** A query's result has exactly the selected rows, each as often as in
      the table, newest first. */
  lemma QueryRowsAreTheSelection<T(!new)>(s: seq<T>, p: T -> bool, key: T -> int)
    ensures var rows := SortDesc(Filter(s, p), key);
            && SortedDesc(rows, key)
            && (forall x :: multiset(rows)[x] == (if p(x) then multiset(s)[x] else 0))
            && (forall x :: x in rows <==> x in s && p(x))
  {
    FilterMultiset(s, p);
    var rows := SortDesc(Filter(s, p), key);
    forall x ensures x in rows <==> x in s && p(x) {
      assert x in rows <==> x in multiset(rows);
      assert x in Filter(s, p) <==> x in multiset(Filter(s, p));
    }
  }

  /** `findOne`: the index of the first row the `where` clause selects. */
  function FindFirst<T(!new)>(s: seq<T>, p: T -> bool): (r: Option<nat>)
    ensures r.Some? ==> r.value < |s| && p(s[r.value]) && forall k :: 0 <= k < r.value ==> !p(s[k])
    ensures r.None? <==> forall k :: 0 <= k < |s| ==> !p(s[k])
  {
    if s == [] then None
    else if p(s[0]) then Some(0)
    else
      match FindFirst(s[1..], p)
      case None => None
      case Some(i) => Some(i + 1)
  }

  predicate IsMember(db: Db, userId: string, officeId: string) {
    exists m :: m in db.memberships && m.userId == userId && m.officeId == officeId
  }

  /** `officeUserRepo.findOne({ where: { userId, officeId } })`. */
  function FindMembership(db: Db, userId: string, officeId: string): (r: Option<Membership>)
    ensures r.Some? ==> r.value in db.memberships && r.value.userId == userId && r.value.officeId == officeId
    ensures r.None? <==> !IsMember(db, userId, officeId)
  {
    match FindFirst(db.memberships, (m: Membership) => m.userId == userId && m.officeId == officeId)
    case None => None
    case Some(i) => Some(db.memberships[i])
  }

  function FindOffice(db: Db, id: string): (r: Option<Office>)
    ensures r.Some? ==> r.value in db.offices && r.value.id == id
    ensures r.None? <==> forall o :: o in db.offices ==> o.id != id
  {
    match FindFirst(db.offices, (o: Office) => o.id == id)
    case None => None
    case Some(i) => Some(db.offices[i])
  }

  // ---------------------------------------------------------------------------
  // Database constraints

  /** Every membership points at an existing office (a foreign key). */
  predicate OfficesExist(db: Db) {
    forall m :: m in db.memberships ==> exists o :: o in db.offices && o.id == m.officeId
  }

  /** Every invitation points at an existing office (a foreign key). */
  predicate InvitationOfficesExist(db: Db) {
    forall inv :: inv in db.invitations ==> exists o :: o in db.offices && o.id == inv.officeId
  }

  /** A user is in an office at most once. */
  predicate MembershipsUnique(ms: seq<Membership>) {
    forall i, j :: 0 <= i < j < |ms| ==> ms[i].userId != ms[j].userId || ms[i].officeId != ms[j].officeId
  }

  /** At most one invitation per address and office is pending. */
  predicate OnePendingPerAddress(invs: seq<Invitation>) {
    forall i, j :: 0 <= i < j < |invs| ==>
      invs[i].status != Pending || invs[j].status != Pending ||
      invs[i].email != invs[j].email || invs[i].officeId != invs[j].officeId
  }

  /** `token` is a unique column. */
  predicate TokensUnique(invs: seq<Invitation>) {
    forall i, j :: 0 <= i < j < |invs| ==> invs[i].token != invs[j].token
  }

  /** `email` is a unique column of `users`. */
  predicate UserEmailsUnique(users: seq<User>) {
    forall i, j :: 0 <= i < j < |users| ==> users[i].email.None? || users[i].email != users[j].email
  }

  /** What the schema and the routes together keep true. */
  predicate Consistent(db: Db) {
    && OfficesExist(db)
    && InvitationOfficesExist(db)
    && MembershipsUnique(db.memberships)
    && OnePendingPerAddress(db.invitations)
    && TokensUnique(db.invitations)
    && UserEmailsUnique(db.users)
  }

  lemma EmptyDbConsistent()
    ensures Consistent(Db([], [], [], []))
  {
  }
}
