/** The older HTTP handlers of the authentication service, `authenticator` and
    `registrator`: each reads the request body, grows a local list of error
    texts, consults or writes the user table, and answers one status with one
    JSON body. A request field is `None` when the body lacks it. */
module AuthenticationHandlers {
  import opened Wrappers
  import opened Text
  import opened Accounts
  import opened IdentityService

  /** The JSON bodies the handlers send. */
  datatype Body =
    | MessageText(text: string)         // { message: "..." }
    | MessageList(texts: seq<string>)   // { message: [...] }
    | ErrorText(error: string)          // { error: "..." }
    | ErrorList(errors: seq<string>)    // { error: [...] }
    | MessageToken(token: Token)        // { message: token }
    | MessageUser(user: User)           // { message: createdRecord }

  /** `response.status(status).json(body)`. */
  datatype HttpReply = HttpReply(status: int, body: Body)

  /** `!field` in JavaScript for a string field: absent or empty. */
  predicate Missing(field: Option<string>) {
    field.None? || field.value == ""
  }

  const AUTH_SERVER_ERROR: string := "Server error during authentication."
  const SIGNUP_SERVER_ERROR: string := "Erreur serveur lors de l'inscription."

  class AuthenticationController {
    const ROUTE: seq<string>
    const userRepository: UserRepository

    constructor (users: UserRepository)
      ensures ROUTE == ["@POST(/signin-grandline,authenticator)", "@POST(/portal.signup.grandline,registrator)"]
      ensures userRepository == users
    {
      ROUTE := ["@POST(/signin-grandline,authenticator)", "@POST(/portal.signup.grandline,registrator)"];
      userRepository := users;
    }

    /** `authenticator(request, response)`. A short password is refused before
        any lookup; an unreachable store answers 500. */
    method Authenticator(grandLineId: Option<string>, password: Option<string>) returns (reply: HttpReply)
      ensures Missing(grandLineId) || Missing(password) ==>
        reply == HttpReply(400, MessageText("Both grandLineId and password are required."))
      ensures !Missing(grandLineId) && !Missing(password) && ShortPassword(password.value) ==>
        reply == HttpReply(400, MessageList(["The password must be at least 8 characters long."]))
      ensures !Missing(grandLineId) && !Missing(password) && !ShortPassword(password.value) ==>
        var found := userRepository.FindByGrandLineId(grandLineId.value);
        && (found.Fault? ==> reply == HttpReply(500, MessageText(AUTH_SERVER_ERROR)))
        && (found == Done(None) ==> reply == HttpReply(401, MessageText("User not found.")))
        && (found.Done? && found.value.Some? ==>
              reply == if Matches(password.value, found.value.value.password)
                       then HttpReply(200, MessageToken(Token(found.value.value.id)))
                       else HttpReply(401, ErrorText("Incorrect password.")))
      ensures reply.status == 200 <==>
        && !Missing(grandLineId) && !Missing(password) && !ShortPassword(password.value)
        && var found := userRepository.FindByGrandLineId(grandLineId.value);
           found.Done? && found.value.Some? && Matches(password.value, found.value.value.password)
    {
      if Missing(grandLineId) || Missing(password) {
        return HttpReply(400, MessageText("Both grandLineId and password are required."));
      }
      var login, secret := grandLineId.value, password.value;
      var error: seq<string> := [];
      if Utf16Length(Trim(secret)) < MIN_PASSWORD {
        error := error + ["The password must be at least 8 characters long."];
        assert error == ["The password must be at least 8 characters long."];
      }
      if |error| > 0 {
        return HttpReply(400, MessageList(error));
      }
      var storedUser := userRepository.FindByGrandLineId(login);
      if storedUser.Fault? {
        return HttpReply(500, MessageText(AUTH_SERVER_ERROR));
      }
      if storedUser.value.None? {
        return HttpReply(401, MessageText("User not found."));
      }
      var user := storedUser.value.value;
      if !Matches(secret, user.password) {
        error := error + ["Incorrect password."];
      }
      if |error| > 0 {
        return HttpReply(401, ErrorText("Incorrect password."));
      }
      reply := HttpReply(200, MessageToken(Token(user.id)));
    }

    /** `registrator(request, response)`. Unlike the service's registration it
        checks neither the address nor the names nor the uniqueness of the login
        id, sets no status and creates no verification code. */
    method Registrator(lastname: Option<string>, firstname: Option<string>, grandLineId: Option<string>,
                       password: Option<string>) returns (reply: HttpReply)
      requires userRepository.Valid()
      modifies userRepository
      ensures userRepository.Valid()
      ensures Missing(lastname) || Missing(firstname) || Missing(grandLineId) || Missing(password) ==>
        reply == HttpReply(400, MessageText("All fields are required."))
        && userRepository.rows == old(userRepository.rows) && userRepository.nextId == old(userRepository.nextId)
      ensures
        var present := !Missing(lastname) && !Missing(firstname) && !Missing(grandLineId) && !Missing(password);
        && (present && ShortPassword(password.value) ==>
              reply == HttpReply(400, ErrorList(["The password must be at least 8 characters long"]))
              && userRepository.rows == old(userRepository.rows) && userRepository.nextId == old(userRepository.nextId))
        && (present && !ShortPassword(password.value) && !userRepository.online ==>
              reply == HttpReply(500, MessageText(SIGNUP_SERVER_ERROR))
              && userRepository.rows == old(userRepository.rows) && userRepository.nextId == old(userRepository.nextId))
        && (present && !ShortPassword(password.value) && userRepository.online ==>
              var created := User(old(userRepository.nextId), firstname.value, lastname.value, grandLineId.value,
                                  Hash(password.value), None);
              && userRepository.rows == old(userRepository.rows) + [created]
              && userRepository.nextId == old(userRepository.nextId) + 1
              && reply == HttpReply(201, MessageUser(created)))
    {
      if Missing(lastname) || Missing(firstname) || Missing(grandLineId) || Missing(password) {
        return HttpReply(400, MessageText("All fields are required."));
      }
      var error: seq<string> := [];
      if Utf16Length(Trim(password.value)) < MIN_PASSWORD {
        error := error + ["The password must be at least 8 characters long"];
        assert error == ["The password must be at least 8 characters long"];
      }
      if |error| > 0 {
        return HttpReply(400, ErrorList(error));
      }
      var hashedPassword := Hash(password.value);
      var user := UserDto(None, firstname.value, lastname.value, grandLineId.value, hashedPassword, None);
      var result := userRepository.Create(user);
      match result {
        case Fault(_) =>
          reply := HttpReply(500, MessageText(SIGNUP_SERVER_ERROR));
        case Done(created) =>
          reply := HttpReply(201, MessageUser(created));
      }
    }
  }
}
