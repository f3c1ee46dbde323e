/** UserService of the authentication service: registration, authentication,
    password reset, code confirmation and code resend over the user and
    verification-code repositories. Each operation answers an `HttpResponse`
    `{message, status}`; an error that is not one of the service's own
    exceptions is rethrown, which the model writes `Thrown`.

    The clock, the random code, the random indices of the temporary password and
    the outcome of sending an e-mail are parameters. */
module IdentityService {
  import opened Wrappers
  import opened Text
  import opened Accounts
  import opened AuthPathValidator

  /** The expiry of a verification code after its creation: ten minutes, in ms. */
  const TEN_MINUTES: int := 600000

  /** The length of verification codes and of temporary passwords. */
  const CODE_LENGTH: nat := 12

  /** The shortest password (after trimming) that is accepted. */
  const MIN_PASSWORD: nat := 8

  /** A signed session token for an account; the signature is not modelled. */
  datatype Token = Token(userId: nat)

  /** The `message` of an `HttpResponse`. */
  datatype Message =
    | Plain(text: string)
    | SessionToken(token: Token)
    | MailInfo(info: string)  // the transport's answer to `sendMail`

  /** An `HttpResponse`, or an error rethrown past the service. */
  datatype Reply = Reply(message: Message, status: int) | Thrown(reason: string)

  /** The outcome of handing an e-mail to the transport. */
  datatype Dispatch = Accepted(response: string) | Rejected

  /** AuthenticationException and RegistratorException: a message and a status. */
  datatype ServiceException = ServiceException(message: string, status: int)

  /** `handleError(error)`: the exception's message, with its status or 500
      when the status is 0. */
  function HandleError(e: ServiceException): (r: Reply)
    ensures r.Reply? && r.message == Plain(e.message)
    ensures r.status != 0 && (e.status != 0 ==> r.status == e.status)
    ensures e.status == 0 ==> r.status == 500
  {
    Reply(Plain(e.message), if e.status == 0 then 500 else e.status)
  }

  /** `password.trim().length < 8`, the length counted in UTF-16 code units. */
  predicate ShortPassword(password: string) {
    Utf16Length(Trim(password)) < MIN_PASSWORD
  }

  /** One character of `[A-Za-zÀ-ÖØ-öø-ÿ-' ]`: ASCII letters, the Latin-1 letters
      except × and ÷, the hyphen, the apostrophe and the space. */
  predicate IsNameChar(c: char)
    ensures IsNameChar(c) ==> c <= '\U{00FF}' && c != '\U{00D7}' && c != '\U{00F7}'
  {
    || ('A' <= c <= 'Z') || ('a' <= c <= 'z')
    || ('\U{00C0}' <= c <= '\U{00D6}') || ('\U{00D8}' <= c <= '\U{00F6}') || ('\U{00F8}' <= c <= '\U{00FF}')
    || c == '-' || c == '\'' || c == ' '
  }

  /** `/^[A-Za-zÀ-ÖØ-öø-ÿ-' ]+$/.test(name.trim())`. */
  predicate ValidName(name: string) {
    var t := Trim(name);
    |t| > 0 && forall k :: 0 <= k < |t| ==> IsNameChar(t[k])
  }

  /** A valid name is made of name characters and white space only, and holds
      at least one name character that is not white space. */
  lemma ValidNameChars(name: string)
    requires ValidName(name)
    ensures forall k :: 0 <= k < |name| ==> IsNameChar(name[k]) || IsJsSpace(name[k])
    ensures exists k :: 0 <= k < |name| && IsNameChar(name[k]) && !IsJsSpace(name[k])
  {
    var t := Trim(name);
    var a, b :| && 0 <= a <= b <= |name| && t == name[a..b]
                && (forall k :: 0 <= k < a ==> IsJsSpace(name[k]))
                && (forall k :: b <= k < |name| ==> IsJsSpace(name[k]));
    forall k | a <= k < b
      ensures IsNameChar(name[k])
    {
      assert name[k] == t[k - a];
    }
    assert name[a] == t[0];
  }

  /** The characters of `randomstring.generate`: ASCII letters and digits. */
  predicate IsAlphanumeric(c: char) {
    ('A' <= c <= 'Z') || ('a' <= c <= 'z') || ('0' <= c <= '9')
  }

  /** No two accounts share a login id. */
  ghost predicate UniqueLogins(users: seq<User>) {
    forall j, k :: 0 <= j < k < |users| ==> users[j].grandLineId != users[k].grandLineId
  }

  /** Every code belongs to an existing account and is addressed to its login id. */
  ghost predicate CodesOwned(users: seq<User>, codes: seq<VerificationCode>) {
    forall c :: 0 <= c < |codes| ==> Owned(users, codes[c])
  }

  /** Some account has the code's user id and the code's address as login id. */
  ghost predicate Owned(users: seq<User>, code: VerificationCode) {
    exists u :: 0 <= u < |users| && users[u].id == code.userId && users[u].grandLineId == code.email
  }

  /** At most one code per account. */
  ghost predicate OneCodePerAccount(codes: seq<VerificationCode>) {
    forall j, k :: 0 <= j < k < |codes| ==> codes[j].userId != codes[k].userId
  }

  ghost predicate Consistent(users: seq<User>, codes: seq<VerificationCode>) {
    UniqueLogins(users) && CodesOwned(users, codes) && OneCodePerAccount(codes)
  }

  /** The contents of both tables. */
  datatype Tables = Tables(users: seq<User>, userNext: nat, codes: seq<VerificationCode>, codeNext: nat)

  /** Rewriting one account's password or status keeps the tables consistent. */
  lemma {:induction false} ConsistentAfterRewrite(users: seq<User>, users': seq<User>, codes: seq<VerificationCode>)
    requires Consistent(users, codes)
    requires |users'| == |users|
    requires forall k :: 0 <= k < |users| ==> users'[k].id == users[k].id && users'[k].grandLineId == users[k].grandLineId
    ensures Consistent(users', codes)
  {
    forall c | 0 <= c < |codes|
      ensures Owned(users', codes[c])
    {
      assert Owned(users, codes[c]);
      var u :| 0 <= u < |users| && users[u].id == codes[c].userId && users[u].grandLineId == codes[c].email;
      assert 0 <= u < |users'| && users'[u].id == codes[c].userId && users'[u].grandLineId == codes[c].email;
    }
    assert CodesOwned(users', codes);
    assert UniqueLogins(users') by {
      forall j, k | 0 <= j < k < |users'| ensures users'[j].grandLineId != users'[k].grandLineId {
        assert users'[j].grandLineId == users[j].grandLineId;
        assert users'[k].grandLineId == users[k].grandLineId;
      }
    }
  }

  /** Registering an account whose login id is new, with its one code, keeps the
      tables consistent. */
  lemma {:induction false} ConsistentAfterRegistration(users: seq<User>, codes: seq<VerificationCode>, u: User, c: VerificationCode)
    requires Consistent(users, codes)
    requires forall k :: 0 <= k < |users| ==> users[k].grandLineId != u.grandLineId && users[k].id != u.id
    requires c.userId == u.id && c.email == u.grandLineId
    ensures Consistent(users + [u], codes)
    ensures Consistent(users + [u], codes + [c])
  {
    var us := users + [u];
    forall i | 0 <= i < |codes|
      ensures Owned(us, codes[i])
    {
      assert Owned(users, codes[i]);
      var v :| 0 <= v < |users| && users[v].id == codes[i].userId && users[v].grandLineId == codes[i].email;
      assert us[v] == users[v];
    }
    var cs := codes + [c];
    forall i | 0 <= i < |cs|
      ensures Owned(us, cs[i])
    {
      if i == |codes| {
        assert us[|users|] == u;
      } else {
        assert cs[i] == codes[i];
      }
    }
    forall i | 0 <= i < |codes|
      ensures codes[i].userId != c.userId
    {
      assert Owned(users, codes[i]);
      var v :| 0 <= v < |users| && users[v].id == codes[i].userId && users[v].grandLineId == codes[i].email;
    }
  }

  /** Row `k` is the only row of `users` holding that login id. */
  ghost predicate SoleHolder(users: seq<User>, login: string, k: nat) {
    k < |users| && users[k].grandLineId == login
    && forall j :: 0 <= j < |users| && users[j].grandLineId == login ==> j == k
  }

  /** With unique login ids, a row holding a login id is its only holder, and
      stays so in a table with the same login ids row by row. */
  lemma {:induction false} SoleHolderKept(users: seq<User>, users': seq<User>, login: string, k: nat)
    requires UniqueLogins(users) && k < |users| && users[k].grandLineId == login
    requires |users'| == |users| && forall i :: 0 <= i < |users| ==> users'[i].grandLineId == users[i].grandLineId
    ensures SoleHolder(users, login, k) && SoleHolder(users', login, k)
  {
    forall j | 0 <= j < |users'| && users'[j].grandLineId == login
      ensures j == k
    {
      assert users[j].grandLineId == login;
    }
  }

  class UserService {
    const userRepository: UserRepository
    const verificationCodeRepository: VerificationCodeRepository

    /** What the repositories themselves keep: fresh, distinct row ids. */
    ghost predicate Valid()
      reads this, userRepository, verificationCodeRepository
    {
      userRepository.Valid() && verificationCodeRepository.Valid()
    }

    /** The cross-table invariant of the service's own operations. Nothing in the
        database enforces it (the controller's `registrator` writes the same
        user table without a uniqueness check), so each operation promises only
        to keep it when it held before. */
    ghost predicate Coherent()
      reads this, userRepository, verificationCodeRepository
    {
      Consistent(userRepository.rows, verificationCodeRepository.rows)
    }

    ghost function State(): Tables
      reads this, userRepository, verificationCodeRepository
    {
      Tables(userRepository.rows, userRepository.nextId, verificationCodeRepository.rows, verificationCodeRepository.nextId)
    }

    constructor (users: UserRepository, codes: VerificationCodeRepository)
      requires users.Valid() && codes.Valid()
      ensures Valid() && userRepository == users && verificationCodeRepository == codes
    {
      userRepository := users;
      verificationCodeRepository := codes;
    }

    /** `authenticateUser(grandLineId, password)`. The account's status is not
        consulted: any stored account whose password matches gets a token. */
    method AuthenticateUser(grandLineId: string, password: string) returns (reply: Reply)
      ensures grandLineId == "" || password == "" || ShortPassword(password) ==>
        reply == Reply(Plain("Invalid data"), 400)
      ensures !(grandLineId == "" || password == "" || ShortPassword(password)) && !CheckEmail(grandLineId) ==>
        reply == Reply(Plain("Invalid grandLine Id."), 400)
      ensures reply.Reply? && reply.status == 400 <==>
        grandLineId == "" || password == "" || ShortPassword(password) || !CheckEmail(grandLineId)
      ensures
        var wellFormed := grandLineId != "" && password != "" && !ShortPassword(password) && CheckEmail(grandLineId);
        var found := userRepository.FindByGrandLineId(grandLineId);
        && (reply.Thrown? <==> wellFormed && !userRepository.online)
        && (reply == Reply(Plain("Authentication failed."), 401) <==>
              wellFormed && found.Done? && (found.value.None? || !Matches(password, found.value.value.password)))
        && (reply.Reply? && reply.status == 200 <==>
              wellFormed && found.Done? && found.value.Some? && Matches(password, found.value.value.password))
        && (reply.Reply? && reply.status == 200 ==> reply.message == SessionToken(Token(found.value.value.id)))
    {
      if grandLineId == "" || password == "" || Utf16Length(Trim(password)) < MIN_PASSWORD {
        return HandleError(ServiceException("Invalid data", 400));
      }
      if !CheckEmail(grandLineId) {
        return HandleError(ServiceException("Invalid grandLine Id.", 400));
      }
      var storedUser := userRepository.FindByGrandLineId(grandLineId);
      match storedUser {
        case Fault(why) =>
          reply := Thrown(why);
        case Done(None) =>
          reply := HandleError(ServiceException("Authentication failed.", 401));
        case Done(Some(user)) =>
          if !Matches(password, user.password) {
            reply := HandleError(ServiceException("Authentication failed.", 401));
          } else {
            reply := Reply(SessionToken(Token(user.id)), 200);
          }
      }
    }

    /** `registratorUser(firstname, lastname, grandLineId, password)`. All input
        checks come before any store call; a known login id creates nothing; on
        success one account (UNCONFIRMED, hashed password) and one code for it
        (the given 12-character `code`, expiring ten minutes after `now`) are
        added, and they stay even when the e-mail cannot be sent. */
    method RegistratorUser(firstname: string, lastname: string, grandLineId: string, password: string,
                           now: int, code: string, mail: Dispatch) returns (reply: Reply)
      requires Valid()
      requires |code| == CODE_LENGTH && forall k :: 0 <= k < |code| ==> IsAlphanumeric(code[k])
      modifies userRepository, verificationCodeRepository
      ensures Valid()
      ensures old(Coherent()) ==> Coherent()
      ensures firstname == "" || lastname == "" || grandLineId == "" || password == "" || ShortPassword(password) ==>
        reply == Reply(Plain("Invalid input data."), 400) && State() == old(State())
      ensures
        var present := firstname != "" && lastname != "" && grandLineId != "" && password != "" && !ShortPassword(password);
        && (present && !CheckEmail(grandLineId) ==>
              reply == Reply(Plain("Invalid grandLine Id."), 400) && State() == old(State()))
        && (present && CheckEmail(grandLineId) && !(ValidName(firstname) && ValidName(lastname)) ==>
              reply == Reply(Plain("Invalid name"), 400) && State() == old(State()))
      ensures
        var wellFormed := firstname != "" && lastname != "" && grandLineId != "" && password != ""
          && !ShortPassword(password) && CheckEmail(grandLineId) && ValidName(firstname) && ValidName(lastname);
        var taken := exists k :: 0 <= k < |old(userRepository.rows)| && old(userRepository.rows)[k].grandLineId == grandLineId;
        var id := old(userRepository.nextId);
        var user := User(id, firstname, lastname, grandLineId, Hash(password), Some(Unconfirmed));
        var row := VerificationCode(old(verificationCodeRepository.nextId), id, grandLineId, code, now + TEN_MINUTES);
        && (wellFormed && !userRepository.online ==> reply.Thrown? && State() == old(State()))
        && (wellFormed && userRepository.online && taken ==>
              reply == Reply(Plain("grandLine Id already exists."), 400) && State() == old(State()))
        && (wellFormed && userRepository.online && !taken && !verificationCodeRepository.online ==>
              reply.Thrown? && State() == old(State()).(users := old(userRepository.rows) + [user], userNext := id + 1))
        && (wellFormed && userRepository.online && !taken && verificationCodeRepository.online ==>
              && State() == Tables(old(userRepository.rows) + [user], id + 1,
                                   old(verificationCodeRepository.rows) + [row], old(verificationCodeRepository.nextId) + 1)
              && reply == (if mail.Accepted? then Reply(Plain(mail.response), 201)
                           else Reply(Plain("email no sended"), 500)))
    {
      if firstname == "" || lastname == "" || grandLineId == "" || password == ""
         || Utf16Length(Trim(password)) < MIN_PASSWORD {
        return HandleError(ServiceException("Invalid input data.", 400));
      }
      if !CheckEmail(grandLineId) {
        return HandleError(ServiceException("Invalid grandLine Id.", 400));
      }
      var names := [firstname, lastname];
      for i := 0 to |names|
        invariant forall k :: 0 <= k < i ==> ValidName(names[k])
      {
        if !ValidName(names[i]) {
          return HandleError(ServiceException("Invalid name", 400));
        }
      }
      assert ValidName(names[0]) && ValidName(names[1]);
      reply := Enroll(firstname, lastname, grandLineId, password, now, code, mail);
    }

    /** The store calls of `registratorUser`, once its input checks have passed:
        the uniqueness lookup, the account, its code, and the e-mail. */
    method Enroll(firstname: string, lastname: string, grandLineId: string, password: string,
                  now: int, code: string, mail: Dispatch) returns (reply: Reply)
      requires Valid()
      modifies userRepository, verificationCodeRepository
      ensures Valid()
      ensures old(Coherent()) ==> Coherent()
      ensures
        var taken := exists k :: 0 <= k < |old(userRepository.rows)| && old(userRepository.rows)[k].grandLineId == grandLineId;
        var id := old(userRepository.nextId);
        var user := User(id, firstname, lastname, grandLineId, Hash(password), Some(Unconfirmed));
        var row := VerificationCode(old(verificationCodeRepository.nextId), id, grandLineId, code, now + TEN_MINUTES);
        && (!userRepository.online ==> reply.Thrown? && State() == old(State()))
        && (userRepository.online && taken ==>
              reply == Reply(Plain("grandLine Id already exists."), 400) && State() == old(State()))
        && (userRepository.online && !taken && !verificationCodeRepository.online ==>
              reply.Thrown? && State() == old(State()).(users := old(userRepository.rows) + [user], userNext := id + 1))
        && (userRepository.online && !taken && verificationCodeRepository.online ==>
              && State() == Tables(old(userRepository.rows) + [user], id + 1,
                                   old(verificationCodeRepository.rows) + [row], old(verificationCodeRepository.nextId) + 1)
              && reply == (if mail.Accepted? then Reply(Plain(mail.response), 201)
                           else Reply(Plain("email no sended"), 500)))
    {
      var hashedPassword := Hash(password);
      var userDto := UserDto(None, firstname, lastname, grandLineId, hashedPassword, Some(Unconfirmed));
      var isUnique := userRepository.FindByGrandLineId(userDto.grandLineId);
      if isUnique.Fault? {
        return Thrown(isUnique.reason);
      }
      if isUnique.value.Some? {
        return HandleError(ServiceException("grandLine Id already exists.", 400));
      }
      var result := userRepository.Create(userDto);
      var user := result.value;
      // Ids start at 1, so the source's `if (result.dataValues.id)` always holds.
      ghost var codesBefore := verificationCodeRepository.rows;
      var verifyCode := verificationCodeRepository.Create(
        VerificationCodeDto(Some(user.id), user.grandLineId, code, now + TEN_MINUTES));
      if verifyCode.Fault? {
        if old(Coherent()) {
          ConsistentAfterRegistration(old(userRepository.rows), codesBefore, user,
            VerificationCode(0, user.id, user.grandLineId, code, now + TEN_MINUTES));
        }
        return Thrown(verifyCode.reason);
      }
      if old(Coherent()) {
        ConsistentAfterRegistration(old(userRepository.rows), codesBefore, user, verifyCode.value);
      }
      match mail {
        case Rejected =>
          reply := HandleError(ServiceException("email no sended", 500));
        case Accepted(response) =>
          reply := Reply(Plain(response), 201);
      }
    }

    /** `passwordReset(grandLineId)`. The temporary password is
        `randomPassword(12)` drawn with the indices `draws`; only the stored
        password of the account changes (its status is not written). */
    method PasswordReset(grandLineId: string, draws: seq<nat>, mail: Dispatch) returns (reply: Reply)
      requires Valid()
      requires |draws| == CODE_LENGTH && forall i :: 0 <= i < |draws| ==> draws[i] < |Charset|
      modifies userRepository
      ensures Valid()
      ensures old(Coherent()) ==> Coherent()
      ensures grandLineId == "" ==> reply == Reply(Plain("Invalid data."), 400) && State() == old(State())
      ensures grandLineId != "" && !CheckEmail(grandLineId) ==>
        reply == Reply(Plain("Invalid grandLine Id."), 400) && State() == old(State())
      ensures
        var wellFormed := grandLineId != "" && CheckEmail(grandLineId);
        var found := old(userRepository.FindByGrandLineId(grandLineId));
        && (wellFormed && found.Fault? ==> reply.Thrown? && State() == old(State()))
        && (wellFormed && found == Done(None) ==>
              reply == Reply(Plain("Account is not exist."), 404) && State() == old(State()))
        && (wellFormed && found.Done? && found.value.Some? ==>
              && State() == old(State()).(users :=
                   WithPassword(old(userRepository.rows), found.value.value.id, Hash(Drawn(draws))))
              && reply == (if mail.Accepted? then Reply(MailInfo(mail.response), 200)
                           else Thrown("e-mail not sent")))
    {
      if grandLineId == "" {
        return HandleError(ServiceException("Invalid data.", 400));
      }
      if !CheckEmail(grandLineId) {
        return HandleError(ServiceException("Invalid grandLine Id.", 400));
      }
      var user := userRepository.FindByGrandLineId(grandLineId);
      if user.Fault? {
        return Thrown(user.reason);
      }
      if user.value.None? {
        return HandleError(ServiceException("Account is not exist.", 404));
      }
      var stored := user.value.value;
      var restCode := RandomPassword(CODE_LENGTH, draws);
      var hashedPassword := Hash(restCode);
      var userDto := UserDto(Some(stored.id), stored.firstName, stored.lastName, grandLineId,
                             hashedPassword, Some(PasswordResetRequired));
      ghost var before := userRepository.rows;
      var resultPasswordUpdate := userRepository.UpdatePassword(userDto);
      if old(Coherent()) {
        ConsistentAfterRewrite(before, userRepository.rows, verificationCodeRepository.rows);
      }
      match resultPasswordUpdate {
        case Fault(why) =>
          reply := Thrown(why);
        case Done(None) =>
          reply := HandleError(ServiceException("Password update failed.", 404));
        case Done(Some(_)) =>
          match mail {
            case Rejected =>
              reply := Thrown("e-mail not sent");
            case Accepted(info) =>
              reply := Reply(MailInfo(info), 200);
          }
      }
    }

    /** `codeValidator(grandLineId, code)`. A code row for that address and code
        confirms its account; the expiry is not consulted. A row whose user id
        is 0 (falsy) skips the update and is still answered 200. */
    method CodeValidator(grandLineId: string, code: string) returns (reply: Reply)
      requires Valid()
      modifies userRepository
      ensures Valid()
      ensures old(Coherent()) ==> Coherent()
      ensures verificationCodeRepository.rows == old(verificationCodeRepository.rows)
      ensures grandLineId == "" || code == "" || Utf16Length(Trim(code)) != CODE_LENGTH ==>
        reply == Reply(Plain("Invalid input data."), 400) && State() == old(State())
      ensures !(grandLineId == "" || code == "" || Utf16Length(Trim(code)) != CODE_LENGTH) && !CheckEmail(grandLineId) ==>
        reply == Reply(Plain("Invalid grandLine Id."), 400) && State() == old(State())
      ensures
        var wellFormed := grandLineId != "" && code != "" && Utf16Length(Trim(code)) == CODE_LENGTH && CheckEmail(grandLineId);
        var found := old(verificationCodeRepository.FindByCode(grandLineId, code));
        && (wellFormed && found.Fault? ==> reply.Thrown? && State() == old(State()))
        && (wellFormed && found == Done(None) ==>
              reply == Reply(Plain("Verification code not found."), 400) && State() == old(State()))
        && (wellFormed && found.Done? && found.value.Some? ==>
              if userRepository.online || found.value.value.userId == 0 then
                && State() == old(State()).(users := WithStatus(old(userRepository.rows), found.value.value.userId, Confirmed))
                && reply == Reply(Plain("Code confirmed successfully."), 200)
              else reply.Thrown? && State() == old(State()))
    {
      if grandLineId == "" || code == "" || Utf16Length(Trim(code)) != CODE_LENGTH {
        return HandleError(ServiceException("Invalid input data.", 400));
      }
      if !CheckEmail(grandLineId) {
        return HandleError(ServiceException("Invalid grandLine Id.", 400));
      }
      var verificationCode := verificationCodeRepository.FindByCode(grandLineId, code);
      if verificationCode.Fault? {
        return Thrown(verificationCode.reason);
      }
      if verificationCode.value.None? {
        return HandleError(ServiceException("Verification code not found.", 400));
      }
      var row := verificationCode.value.value;
      if row.userId != 0 {
        ghost var before := userRepository.rows;
        var updated := userRepository.UpdateStatus(row.userId, Confirmed);
        if old(Coherent()) {
          ConsistentAfterRewrite(before, userRepository.rows, verificationCodeRepository.rows);
        }
        if updated.Fault? {
          return Thrown(updated.reason);
        }
        if updated.value.None? {
          WithStatusAbsent(before, row.userId, Confirmed);
        }
      } else {
        WithStatusAbsent(userRepository.rows, 0, Confirmed);
      }
      assert userRepository.rows == WithStatus(old(userRepository.rows), row.userId, Confirmed);
      reply := Reply(Plain("Code confirmed successfully."), 200);
    }

    /** Confirming the same code twice: the second confirmation answers as the
        first did and leaves the tables as the first left them. */
    method ConfirmTwice(grandLineId: string, code: string) returns (first: Reply, second: Reply)
      requires Valid()
      modifies userRepository
      ensures Valid()
      ensures old(Coherent()) ==> Coherent()
      ensures
        var found := old(verificationCodeRepository.FindByCode(grandLineId, code));
        first == Reply(Plain("Code confirmed successfully."), 200) ==>
          && found.Done? && found.value.Some?
          && second == first
          && State() == old(State()).(users := WithStatus(old(userRepository.rows), found.value.value.userId, Confirmed))
    {
      first := CodeValidator(grandLineId, code);
      second := CodeValidator(grandLineId, code);
      if first == Reply(Plain("Code confirmed successfully."), 200) {
        var id := old(verificationCodeRepository.FindByCode(grandLineId, code)).value.value.userId;
        WithStatusIdempotent(old(userRepository.rows), id, Confirmed);
      }
    }

    /** Signing in with the password of the only account holding the login id
        gives that account's token, whatever its status. With a single holder
        the answer does not depend on which row the lookup picks. */
    method SignInSoleHolder(grandLineId: string, password: string, ghost k: nat) returns (signedIn: Reply)
      ensures
        && grandLineId != "" && password != "" && !ShortPassword(password) && CheckEmail(grandLineId)
        && userRepository.online
        && SoleHolder(userRepository.rows, grandLineId, k) && userRepository.rows[k].password == Hash(password)
        ==> signedIn == Reply(SessionToken(Token(userRepository.rows[k].id)), 200)
    {
      signedIn := AuthenticateUser(grandLineId, password);
      if && grandLineId != "" && password != "" && !ShortPassword(password) && CheckEmail(grandLineId)
         && userRepository.online && SoleHolder(userRepository.rows, grandLineId, k)
      {
        var found := userRepository.FindByGrandLineId(grandLineId).value.value;
        ghost var j :| 0 <= j < |userRepository.rows| && userRepository.rows[j] == found;
        assert j == k;
      }
    }

    /** A registration that answers 201 lets the new account sign in at once
        with the same login id and password, before any confirmation. */
    method RegisterThenSignIn(firstname: string, lastname: string, grandLineId: string, password: string,
                              now: int, code: string, mail: Dispatch) returns (registered: Reply, signedIn: Reply)
      requires Valid()
      requires |code| == CODE_LENGTH && forall k :: 0 <= k < |code| ==> IsAlphanumeric(code[k])
      modifies userRepository, verificationCodeRepository
      ensures Valid()
      ensures old(Coherent()) ==> Coherent()
      ensures registered.Reply? && registered.status == 201 ==>
        signedIn == Reply(SessionToken(Token(old(userRepository.nextId))), 200)
    {
      registered := RegistratorUser(firstname, lastname, grandLineId, password, now, code, mail);
      // The login id was free, so the new last row is the only one holding it.
      ghost var k := |old(userRepository.rows)|;
      if registered.Reply? && registered.status == 201 {
        assert forall j :: 0 <= j < k ==> userRepository.rows[j] == old(userRepository.rows)[j];
        assert SoleHolder(userRepository.rows, grandLineId, k);
      }
      signedIn := SignInSoleHolder(grandLineId, password, k);
    }

    /** After a reset that answers 200, the temporary password signs the
        account in, provided one account alone holds the login id: with
        several holders the lookup may pick another row after the reset. */
    method ResetThenSignIn(grandLineId: string, draws: seq<nat>, mail: Dispatch) returns (reset: Reply, signedIn: Reply)
      requires Valid()
      requires |draws| == CODE_LENGTH && forall i :: 0 <= i < |draws| ==> draws[i] < |Charset|
      modifies userRepository
      ensures Valid()
      ensures old(Coherent()) ==> Coherent()
      ensures reset.Reply? && reset.status == 200 ==>
        var found := old(userRepository.FindByGrandLineId(grandLineId));
        && found.Done? && found.value.Some?
        && (old(UniqueLogins(userRepository.rows)) ==>
              signedIn == Reply(SessionToken(Token(found.value.value.id)), 200))
    {
      reset := PasswordReset(grandLineId, draws, mail);
      DrawnIsPlain(draws);
      // The reset keeps every login id in place, so with unique login ids the
      // row the lookup found before it is still the only one holding it.
      ghost var k: nat := 0;
      if reset.Reply? && reset.status == 200 {
        var before := old(userRepository.FindByGrandLineId(grandLineId)).value.value;
        k :| 0 <= k < |old(userRepository.rows)| && old(userRepository.rows)[k] == before;
        if old(UniqueLogins(userRepository.rows)) {
          SoleHolderKept(old(userRepository.rows), userRepository.rows, grandLineId, k);
        }
      }
      signedIn := SignInSoleHolder(grandLineId, Drawn(draws), k);
    }

    /** `resendCode(grandLineId)`. No branch writes either table (the method
        modifies nothing); an expired code makes it throw, and an account with
        no code gets an empty 200 answer. */
    method ResendCode(grandLineId: string, now: int) returns (reply: Reply)
      ensures grandLineId == "" ==> reply == Reply(Plain("Invalid input data."), 400)
      ensures grandLineId != "" && !CheckEmail(grandLineId) ==> reply == Reply(Plain("Invalid grandLine Id."), 400)
      ensures
        var wellFormed := grandLineId != "" && CheckEmail(grandLineId);
        var found := userRepository.FindByGrandLineId(grandLineId);
        && (wellFormed && found.Fault? ==> reply.Thrown?)
        && (wellFormed && found == Done(None) ==> reply == Reply(Plain("User not found."), 404))
        && (wellFormed && found.Done? && found.value.Some? ==>
              var user := found.value.value;
              var existing := verificationCodeRepository.FindByUserId(user.id);
              if user.status == Some(Confirmed) then
                reply == Reply(Plain("User is already confirmed."), 400)
              else if existing.Fault? then
                reply.Thrown?
              else if existing.value.None? then
                reply == Reply(Plain(""), 200)
              else if existing.value.value.expAt >= now then
                reply == Reply(Plain("A confirmation code has already been sent."), 400)
              else
                reply == Thrown(""))
    {
      if grandLineId == "" {
        return HandleError(ServiceException("Invalid input data.", 400));
      }
      if !CheckEmail(grandLineId) {
        return HandleError(ServiceException("Invalid grandLine Id.", 400));
      }
      var user := userRepository.FindByGrandLineId(grandLineId);
      if user.Fault? {
        return Thrown(user.reason);
      }
      if user.value.None? {
        return HandleError(ServiceException("User not found.", 404));
      }
      var stored := user.value.value;
      if stored.status == Some(Confirmed) {
        return HandleError(ServiceException("User is already confirmed.", 400));
      }
      var existingCode := verificationCodeRepository.FindByUserId(stored.id);
      if existingCode.Fault? {
        return Thrown(existingCode.reason);
      }
      if existingCode.value.Some? {
        if existingCode.value.value.expAt >= now {
          return HandleError(ServiceException("A confirmation code has already been sent.", 400));
        } else {
          return Thrown("");
        }
      }
      reply := Reply(Plain(""), 200);
    }
  }
}
