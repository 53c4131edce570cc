/** The authentication engine as the object it is: two stores held in fields
    that `signUp`, `login` and `validateToken` update in place, and the password
    encoder and token codec it was constructed with. The current time is a
    parameter of the two operations that read the clock. */
module AuthService {
  import opened AuthTypes
  import AuthSpec

  class UserAuthenticationService {
    /** The user store, keyed by email. */
    var users: map<string, User>
    /** The session store, keyed by row id. */
    var sessions: map<nat, Session>
    /** The ids the two stores hand to the next row they insert. */
    var nextUserId: nat
    var nextSessionId: nat

    const encoder: PasswordEncoder
    const codec: TokenCodec

    /** The two stores as one value. */
    ghost function Stores(): AuthSpec.Store
      reads this
    {
      AuthSpec.Store(users, sessions, nextUserId, nextSessionId)
    }

    ghost predicate Valid()
      reads this
    {
      Stores().Valid()
    }

    /** The engine over existing stores, an encoder and a codec. */
    constructor (stores: AuthSpec.Store, encoder: PasswordEncoder, codec: TokenCodec)
      requires stores.Valid()
      ensures Valid()
      ensures Stores() == stores && this.encoder == encoder && this.codec == codec
    {
      users := stores.users;
      sessions := stores.sessions;
      nextUserId := stores.nextUserId;
      nextSessionId := stores.nextSessionId;
      this.encoder := encoder;
      this.codec := codec;
    }

    method SignUp(email: string, password: string) returns (r: Result<bool, AuthError>)
      requires Valid()
      modifies this
      ensures Valid()
      ensures AuthSpec.Step(Stores(), r) == AuthSpec.SignUp(old(Stores()), encoder, email, password)
    {
      if email in users {
        return Err(UserAlreadyExists);
      }
      var newUser := User(nextUserId, email, encoder.encode(password));
      users := users[email := newUser];
      nextUserId := nextUserId + 1;
      assert Stores() == AuthSpec.SignUp(old(Stores()), encoder, email, password).next;
      return Ok(true);
    }

    method Login(email: string, password: string, now: Long) returns (r: Result<string, AuthError>)
      requires Valid()
      modifies this
      ensures Valid()
      ensures AuthSpec.Step(Stores(), r) == AuthSpec.Login(old(Stores()), encoder, codec, email, password, now)
    {
      if email !in users {
        return Err(UserNotFound);
      }
      var foundUser := users[email];
      if !encoder.matches(password, foundUser.passwordHash) {
        return Err(WrongPassword);
      }
      var claims := LoginClaims(foundUser.id, now);
      var token := codec.sign(claims);
      sessions := sessions[nextSessionId := Session(token, foundUser.id, Active)];
      nextSessionId := nextSessionId + 1;
      return Ok(token);
    }

    method ValidateToken(userId: int, token: string, now: Long) returns (r: Result<bool, AuthError>)
      requires Valid()
      modifies this
      ensures Valid()
      ensures AuthSpec.Step(Stores(), r) == AuthSpec.ValidateToken(old(Stores()), codec, userId, token, now)
    {
      var found := AuthSpec.Matching(sessions, token, userId);
      if found == {} {
        return Ok(false);
      }
      if |found| > 1 {
        return Err(AmbiguousSession);
      }
      var k :| k in found;
      AuthSpec.OnlyMember(found, k);
      assert AuthSpec.FindsOnly(Stores(), token, userId, k);
      var parsed := codec.parse(token);
      if parsed.Err? {
        return Err(TokenRejected(parsed.error));
      }
      var expiry := parsed.value.exp;
      if now > expiry {
        sessions := sessions[k := sessions[k].(state := Expired)];
        return Ok(false);
      }
      return Ok(true);
    }
  }
}
