/** The records of the authentication service and its two repositories,
    UserRepository and VerificationCodeRepository, as in-memory tables. A table
    is a sequence of rows in insertion order with an auto-increment counter; the
    database behind both may be unreachable, in which case every call that
    touches it throws the repository's wrapped error. */
module Accounts {
  import opened Wrappers

  /** The three values of `USER_STATUS`. */
  datatype Status = Confirmed | Unconfirmed | PasswordResetRequired

  /** A bcrypt digest. Its content is not exposed: the model only relies on
      `Hash` being injective, so that `bcrypt.compare(p, Hash(q))` holds exactly
      when `p == q`. */
  datatype Digest = Digest(string)

  /** `bcrypt.hash(plain, 10)`. */
  function Hash(plain: string): Digest {
    Digest(plain)
  }

  /** `bcrypt.compare(plain, digest)`. */
  predicate Matches(plain: string, digest: Digest) {
    digest == Hash(plain)
  }

  /** Two passwords have the same digest only when they are the same password. */
  lemma HashInjective(p: string, q: string)
    ensures Hash(p) == Hash(q) <==> p == q
  {
  }

  /** A password matches the digest of another exactly when the two are equal. */
  lemma MatchesOnlyItsOwn(p: string, q: string)
    ensures Matches(p, Hash(q)) <==> p == q
  {
    HashInjective(p, q);
  }

  /** A row of the user table. `status` is absent on rows written without one. */
  datatype User = User(
    id: nat,
    firstName: string,
    lastName: string,
    grandLineId: string,
    password: Digest,
    status: Option<Status>)

  /** UserDto: what the service hands to the repository. */
  datatype UserDto = UserDto(
    id: Option<nat>,
    firstName: string,
    lastName: string,
    grandLineId: string,
    password: Digest,
    status: Option<Status>)

  /** A row of the verification-code table; `expAt` is a timestamp in milliseconds. */
  datatype VerificationCode = VerificationCode(id: nat, userId: nat, email: string, code: string, expAt: int)

  /** VerificationCodeDto; an absent `userId` is JavaScript's `undefined`. */
  datatype VerificationCodeDto = VerificationCodeDto(userId: Option<nat>, email: string, code: string, expAt: int)

  /** What a repository call gives back: a value, or the `Error` it throws. */
  datatype Outcome<+T> = Done(value: T) | Fault(reason: string)

  /** Index of the first row satisfying `p`, or `|rows|` when there is none. */
  function FirstIndex<T>(rows: seq<T>, p: T -> bool): (k: nat)
    ensures k <= |rows|
    ensures forall j :: 0 <= j < k ==> !p(rows[j])
    ensures k < |rows| ==> p(rows[k])
  {
    if rows == [] then 0 else if p(rows[0]) then 0 else 1 + FirstIndex(rows[1..], p)
  }

  /** A `findOne`/`findByPk` lookup: the first row satisfying `p`, or `null`. */
  function FindFirst<T>(rows: seq<T>, p: T -> bool): (r: Option<T>)
    ensures r.None? <==> forall k :: 0 <= k < |rows| ==> !p(rows[k])
    ensures r.Some? ==> exists k ::
      && 0 <= k < |rows| && rows[k] == r.value && p(rows[k])
      && forall j :: 0 <= j < k ==> !p(rows[j])
  {
    var k := FirstIndex(rows, p);
    if k < |rows| then Some(rows[k]) else None
  }

  /** The table after `existingUser.update({password})` on the row with `id`:
      that row's password is `h`, and nothing else changes. */
  function WithPassword(rows: seq<User>, id: nat, h: Digest): (r: seq<User>)
    ensures |r| == |rows|
    ensures forall k :: 0 <= k < |rows| ==>
      && r[k].id == rows[k].id && r[k].grandLineId == rows[k].grandLineId
      && r[k].firstName == rows[k].firstName && r[k].lastName == rows[k].lastName
      && r[k].status == rows[k].status
      && r[k].password == (if rows[k].id == id then h else rows[k].password)
  {
    seq(|rows|, k requires 0 <= k < |rows| =>
      if rows[k].id == id then rows[k].(password := h) else rows[k])
  }

  /** The table after setting the status of the row with `id`: that row's status
      is `s`, and nothing else changes. */
  function WithStatus(rows: seq<User>, id: nat, s: Status): (r: seq<User>)
    ensures |r| == |rows|
    ensures forall k :: 0 <= k < |rows| ==>
      && r[k].id == rows[k].id && r[k].grandLineId == rows[k].grandLineId
      && r[k].firstName == rows[k].firstName && r[k].lastName == rows[k].lastName
      && r[k].password == rows[k].password
      && r[k].status == (if rows[k].id == id then Some(s) else rows[k].status)
  {
    seq(|rows|, k requires 0 <= k < |rows| =>
      if rows[k].id == id then rows[k].(status := Some(s)) else rows[k])
  }

  /** Setting a status twice is setting it once: a repeated confirmation leaves
      the table as the first one did. */
  lemma WithStatusIdempotent(rows: seq<User>, id: nat, s: Status)
    ensures WithStatus(WithStatus(rows, id, s), id, s) == WithStatus(rows, id, s)
  {
    var once := WithStatus(rows, id, s);
    var twice := WithStatus(once, id, s);
    forall k | 0 <= k < |rows| ensures twice[k] == once[k] {
      assert twice[k].status == once[k].status;
    }
  }

  /** Setting the status of an id no row has changes nothing. */
  lemma WithStatusAbsent(rows: seq<User>, id: nat, s: Status)
    requires forall k :: 0 <= k < |rows| ==> rows[k].id != id
    ensures WithStatus(rows, id, s) == rows
  {
    var r := WithStatus(rows, id, s);
    forall k | 0 <= k < |rows| ensures r[k] == rows[k] {
      assert r[k].status == rows[k].status;
    }
  }

  /** Row `k` is the first row of `rows` with that login id. */
  ghost predicate FirstWithLogin(rows: seq<User>, login: string, k: nat) {
    k < |rows| && rows[k].grandLineId == login && forall j :: 0 <= j < k ==> rows[j].grandLineId != login
  }

  /** Row ids are positive, below the counter, and distinct. */
  ghost predicate IdsValid(ids: seq<nat>, nextId: nat) {
    && nextId >= 1
    && (forall k :: 0 <= k < |ids| ==> 1 <= ids[k] < nextId)
    && (forall j, k :: 0 <= j < k < |ids| ==> ids[j] != ids[k])
  }

  /** The ids of a table's rows, in order. */
  function Ids<T>(rows: seq<T>, id: T -> nat): (ids: seq<nat>)
    ensures |ids| == |rows| && forall k :: 0 <= k < |rows| ==> ids[k] == id(rows[k])
  {
    seq(|rows|, k requires 0 <= k < |rows| => id(rows[k]))
  }

  /** UserRepository over the `users` table. */
  class UserRepository {
    var rows: seq<User>
    var nextId: nat
    /** Whether the database answers; when it does not, every call throws. */
    const online: bool

    ghost predicate Valid()
      reads this
    {
      IdsValid(Ids(rows, (u: User) => u.id), nextId)
    }

    constructor (online: bool)
      ensures Valid() && rows == [] && nextId == 1 && this.online == online
    {
      rows := [];
      nextId := 1;
      this.online := online;
    }

    /** `findById(id)`: the row with that id, or `null`. */
    function FindById(id: nat): (r: Outcome<Option<User>>)
      reads this
      ensures r.Fault? <==> !online
      ensures r.Done? ==> (r.value.None? <==> forall k :: 0 <= k < |rows| ==> rows[k].id != id)
      ensures r.Done? && r.value.Some? ==> r.value.value in rows && r.value.value.id == id
    {
      if !online then Fault("Error while searching for user by ID")
      else Done(FindFirst(rows, (u: User) => u.id == id))
    }

    /** `findByGrandLineId(login)`: the first row with that login id, or `null`. */
    function FindByGrandLineId(login: string): (r: Outcome<Option<User>>)
      reads this
      ensures r.Fault? <==> !online
      ensures r.Done? ==> (r.value.None? <==> forall k :: 0 <= k < |rows| ==> rows[k].grandLineId != login)
      ensures r.Done? && r.value.Some? ==> r.value.value in rows && r.value.value.grandLineId == login
      ensures r.Done? && r.value.Some? ==> exists k: nat :: FirstWithLogin(rows, login, k) && rows[k] == r.value.value
    {
      if !online then Fault("Error while searching for user by Grand Line ID")
      else Done(FindFirst(rows, (u: User) => u.grandLineId == login))
    }

    /** `create(userDto)`: appends one row with a fresh id and the DTO's names,
        login id, password and status, and returns it. */
    method Create(dto: UserDto) returns (r: Outcome<User>)
      requires Valid()
      modifies this
      ensures Valid()
      ensures !online ==> r.Fault? && rows == old(rows) && nextId == old(nextId)
      ensures online ==>
        && r == Done(User(old(nextId), dto.firstName, dto.lastName, dto.grandLineId, dto.password, dto.status))
        && rows == old(rows) + [r.value]
        && nextId == old(nextId) + 1
    {
      if !online {
        return Fault("Error while creating the user");
      }
      var user := User(nextId, dto.firstName, dto.lastName, dto.grandLineId, dto.password, dto.status);
      rows := rows + [user];
      nextId := nextId + 1;
      r := Done(user);
    }

    /** `updatePassword(userDto)`: `null` for a DTO without a (truthy) id; a
        thrown error when the store is down or no row has that id; otherwise the
        password of that one row becomes the DTO's, and the updated row is returned. */
    method UpdatePassword(dto: UserDto) returns (r: Outcome<Option<User>>)
      requires Valid()
      modifies this
      ensures Valid() && nextId == old(nextId)
      ensures (dto.id.None? || dto.id.value == 0) ==> r == Done(None) && rows == old(rows)
      ensures dto.id.Some? && dto.id.value != 0 ==>
        var id := dto.id.value;
        if !online || (forall k :: 0 <= k < |old(rows)| ==> old(rows)[k].id != id) then
          r.Fault? && rows == old(rows)
        else
          && rows == WithPassword(old(rows), id, dto.password)
          && r.Done? && r.value.Some? && r.value.value in rows
          && r.value.value.id == id && r.value.value.password == dto.password
    {
      if dto.id.None? || dto.id.value == 0 {
        return Done(None);
      }
      var id := dto.id.value;
      var existing := FindById(id);
      match existing {
        case Fault(why) =>
          r := Fault("Error while updating the user: " + why);
        case Done(None) =>
          r := Fault("Error while updating the user: User does not exist.");
        case Done(Some(user)) =>
          ghost var k :| 0 <= k < |rows| && rows[k] == user;
          rows := WithPassword(rows, id, dto.password);
          assert Ids(rows, (u: User) => u.id) == Ids(old(rows), (u: User) => u.id);
          assert rows[k] == user.(password := dto.password);
          r := Done(Some(user.(password := dto.password)));
      }
    }

    /** `updateStatus(id, status)`, which the service calls but this repository
        does not define: sets the status of the row with that id, answers that
        row, or `null` when there is none. */
    method UpdateStatus(id: nat, status: Status) returns (r: Outcome<Option<User>>)
      requires Valid()
      modifies this
      ensures Valid() && nextId == old(nextId)
      ensures !online ==> r.Fault? && rows == old(rows)
      ensures online && (forall k :: 0 <= k < |old(rows)| ==> old(rows)[k].id != id) ==>
        r == Done(None) && rows == old(rows)
      ensures online && (exists k :: 0 <= k < |old(rows)| && old(rows)[k].id == id) ==>
        && rows == WithStatus(old(rows), id, status)
        && r.Done? && r.value.Some? && r.value.value in rows
        && r.value.value.id == id && r.value.value.status == Some(status)
    {
      var existing := FindById(id);
      match existing {
        case Fault(why) =>
          r := Fault(why);
        case Done(None) =>
          r := Done(None);
        case Done(Some(user)) =>
          ghost var k :| 0 <= k < |rows| && rows[k] == user;
          rows := WithStatus(rows, id, status);
          assert Ids(rows, (u: User) => u.id) == Ids(old(rows), (u: User) => u.id);
          assert rows[k] == user.(status := Some(status));
          r := Done(Some(user.(status := Some(status))));
      }
    }
  }

  /** VerificationCodeRepository over the `verification_codes` table. */
  class VerificationCodeRepository {
    var rows: seq<VerificationCode>
    var nextId: nat
    /** Whether the database answers; when it does not, every call throws. */
    const online: bool

    ghost predicate Valid()
      reads this
    {
      IdsValid(Ids(rows, (c: VerificationCode) => c.id), nextId)
    }

    constructor (online: bool)
      ensures Valid() && rows == [] && nextId == 1 && this.online == online
    {
      rows := [];
      nextId := 1;
      this.online := online;
    }

    /** `findById(id)`: the row with that id, or `null`. */
    function FindById(id: nat): (r: Outcome<Option<VerificationCode>>)
      reads this
      ensures r.Fault? <==> !online
      ensures r.Done? ==> (r.value.None? <==> forall k :: 0 <= k < |rows| ==> rows[k].id != id)
      ensures r.Done? && r.value.Some? ==> r.value.value in rows && r.value.value.id == id
    {
      if !online then Fault("Error while searching for verification code by ID")
      else Done(FindFirst(rows, (c: VerificationCode) => c.id == id))
    }

    /** `findByCode(email, code)`, which the service calls but this repository
        does not define: the first row for that address and code, or `null`.
        The expiry is not consulted. */
    function FindByCode(email: string, code: string): (r: Outcome<Option<VerificationCode>>)
      reads this
      ensures r.Fault? <==> !online
      ensures r.Done? ==> (r.value.None? <==> forall k :: 0 <= k < |rows| ==> !(rows[k].email == email && rows[k].code == code))
      ensures r.Done? && r.value.Some? ==> r.value.value in rows && r.value.value.email == email && r.value.value.code == code
    {
      if !online then Fault("Error while searching for verification code")
      else Done(FindFirst(rows, (c: VerificationCode) => c.email == email && c.code == code))
    }

    /** `findByUserId(userId)`, which the service calls but this repository does
        not define: the first row of that account, expired or not, or `null`. */
    function FindByUserId(userId: nat): (r: Outcome<Option<VerificationCode>>)
      reads this
      ensures r.Fault? <==> !online
      ensures r.Done? ==> (r.value.None? <==> forall k :: 0 <= k < |rows| ==> rows[k].userId != userId)
      ensures r.Done? && r.value.Some? ==> r.value.value in rows && r.value.value.userId == userId
    {
      if !online then Fault("Error while searching for verification code by user")
      else Done(FindFirst(rows, (c: VerificationCode) => c.userId == userId))
    }

    /** `findByGrandLineId`: not implemented, it always throws. */
    function FindByGrandLineId(grandLineId: string): (r: Outcome<Option<VerificationCode>>)
      ensures r == Fault("Method not implemented " + grandLineId + ".")
    {
      Fault("Method not implemented " + grandLineId + ".")
    }

    /** `create(dto)`: refuses a DTO without a user id; otherwise appends one row
        with a fresh id and the DTO's user id, address, code and expiry, and
        returns it. */
    method Create(dto: VerificationCodeDto) returns (r: Outcome<VerificationCode>)
      requires Valid()
      modifies this
      ensures Valid()
      ensures (dto.userId.None? || !online) ==> r.Fault? && rows == old(rows) && nextId == old(nextId)
      ensures dto.userId.Some? && online ==>
        && r == Done(VerificationCode(old(nextId), dto.userId.value, dto.email, dto.code, dto.expAt))
        && rows == old(rows) + [r.value]
        && nextId == old(nextId) + 1
    {
      if dto.userId.None? {
        return Fault("Erreur lors de la création du code de vérification : Error: L'ID est requis pour créer un code de vérification.");
      }
      if !online {
        return Fault("Erreur lors de la création du code de vérification");
      }
      var row := VerificationCode(nextId, dto.userId.value, dto.email, dto.code, dto.expAt);
      rows := rows + [row];
      nextId := nextId + 1;
      r := Done(row);
    }
  }
}
