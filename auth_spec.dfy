/** The two stores of the authentication engine as one value, and the effect of
    each of its three operations on that value. Each operation returns the new
    stores together with its outcome. */
module AuthSpec {
  import opened AuthTypes

  /** The user store (keyed by email) and the session store (keyed by the
      row id the store generates), with the next id each store hands out. */
  datatype Store = Store(users: map<string, User>, sessions: map<nat, Session>, nextUserId: nat, nextSessionId: nat)
  {
    /** Some registered user has id `id`. */
    ghost predicate HasUser(id: int)
    {
      exists e :: e in users && users[e].id == id
    }

    /** Every user is filed under its own email and has its own id; every
        session row refers to a registered user; ids already handed out are
        below the next one. */
    ghost predicate Valid()
    {
      (forall e :: e in users ==> users[e].email == e && users[e].id < nextUserId)
      && (forall e1, e2 :: e1 in users && e2 in users && users[e1].id == users[e2].id ==> e1 == e2)
      && (forall k :: k in sessions ==> k < nextSessionId && HasUser(sessions[k].userId))
    }
  }

  /** The new stores and the outcome of one operation. */
  datatype Step<+T> = Step(next: Store, out: Result<T, AuthError>)

  /** `s'` is `s` with exactly one more user, filed under `email`, whose stored
      password is `hash` and whose id no user of `s` has; sessions and the next
      session id unchanged. */
  ghost predicate AddsUser(s: Store, s': Store, email: string, hash: string)
  {
    email in s'.users
    && s'.users.Keys == s.users.Keys + {email}
    && (forall e :: e in s.users ==> s'.users[e] == s.users[e])
    && s'.users[email].email == email
    && s'.users[email].passwordHash == hash
    && !s.HasUser(s'.users[email].id)
    && s'.sessions == s.sessions
    && s'.nextSessionId == s.nextSessionId
  }

  /** `s'` is `s` with exactly one more session, in row `k` which `s` does not
      use, for `token` and user `userId`, in state ACTIVE; every other row, the
      users and the next user id unchanged. */
  ghost predicate AddsSession(s: Store, s': Store, k: nat, token: string, userId: nat)
  {
    k !in s.sessions
    && s'.sessions.Keys == s.sessions.Keys + {k}
    && s'.sessions[k] == Session(token, userId, Active)
    && (forall j :: j in s.sessions ==> s'.sessions[j] == s.sessions[j])
    && s'.users == s.users
    && s'.nextUserId == s.nextUserId
  }

  /** Every session row of `s` is still in `s'` with the same token and user,
      and a row that was EXPIRED is still EXPIRED. */
  ghost predicate NeverReactivates(s: Store, s': Store)
  {
    s.sessions.Keys <= s'.sessions.Keys
    && forall k :: k in s.sessions ==>
         s'.sessions[k].token == s.sessions[k].token
         && s'.sessions[k].userId == s.sessions[k].userId
         && (s.sessions[k].state == Expired ==> s'.sessions[k].state == Expired)
  }

  /** signUp: an email already registered is refused and nothing changes;
      otherwise one user is added whose stored password is the encoding of the
      given one. */
  ghost function SignUp(s: Store, enc: PasswordEncoder, email: string, password: string): (r: Step<bool>)
    ensures s.Valid() ==> r.next.Valid()
    ensures email in s.users ==> r == Step(s, Err(UserAlreadyExists))
    ensures email !in s.users ==> r.out == Ok(true)
    ensures email !in s.users && s.Valid() ==> AddsUser(s, r.next, email, enc.encode(password))
  {
    if email in s.users then
      Step(s, Err(UserAlreadyExists))
    else
      var newUser := User(s.nextUserId, email, enc.encode(password));
      var s' := s.(users := s.users[email := newUser], nextUserId := s.nextUserId + 1);
      assert s.Valid() ==> s'.Valid() by {
        if s.Valid() {
          forall k | k in s'.sessions ensures s'.HasUser(s'.sessions[k].userId) {
            var e :| e in s.users && s.users[e].id == s.sessions[k].userId;
            assert s'.users[e] == s.users[e];
          }
        }
      }
      Step(s', Ok(true))
  }

  /** login: an unknown email and a wrong password are refused and nothing
      changes; otherwise the token signing LoginClaims for the user at `now` is
      returned and one ACTIVE session for it is added. */
  ghost function Login(s: Store, enc: PasswordEncoder, codec: TokenCodec, email: string, password: string, now: Long)
    : (r: Step<string>)
    ensures s.Valid() ==> r.next.Valid()
    ensures email !in s.users ==> r == Step(s, Err(UserNotFound))
    ensures email in s.users && !enc.matches(password, s.users[email].passwordHash) ==> r == Step(s, Err(WrongPassword))
    ensures r.out.Ok? <==> email in s.users && enc.matches(password, s.users[email].passwordHash)
    ensures r.out.Ok? ==> r.out.value == codec.sign(LoginClaims(s.users[email].id, now))
    ensures r.out.Ok? && s.Valid() ==> AddsSession(s, r.next, s.nextSessionId, r.out.value, s.users[email].id)
  {
    if email !in s.users then
      Step(s, Err(UserNotFound))
    else
      var foundUser := s.users[email];
      if !enc.matches(password, foundUser.passwordHash) then
        Step(s, Err(WrongPassword))
      else
        var token := codec.sign(LoginClaims(foundUser.id, now));
        var s' := s.(sessions := s.sessions[s.nextSessionId := Session(token, foundUser.id, Active)],
                     nextSessionId := s.nextSessionId + 1);
        assert s.Valid() ==> s'.HasUser(foundUser.id) by {
          if s.Valid() { assert s'.users[email].id == foundUser.id; }
        }
        Step(s', Ok(token))
  }

  /** The rows the session store finds for a token and a user id: both must match. */
  function Matching(sessions: map<nat, Session>, token: string, userId: int): set<nat>
  {
    set k | k in sessions && sessions[k].token == token && sessions[k].userId == userId
  }

  /** `Matching` finds exactly row `k`. */
  ghost predicate FindsOnly(s: Store, token: string, userId: int, k: nat)
  {
    Matching(s.sessions, token, userId) == {k}
  }

  /** `s` with row `k` set to EXPIRED. */
  ghost function Expire(s: Store, k: nat): Store
    requires k in s.sessions
  {
    s.(sessions := s.sessions[k := s.sessions[k].(state := Expired)])
  }

  /** validateToken: no matching session gives false and changes nothing; two
      or more are an error of the lookup; a token that does not parse is an
      error; a parsed "exp" before `now` marks the one matching session EXPIRED
      and gives false; otherwise true and nothing changes. The session's own
      state is not consulted. */
  ghost function ValidateToken(s: Store, codec: TokenCodec, userId: int, token: string, now: Long): (r: Step<bool>)
    ensures s.Valid() ==> r.next.Valid()
    ensures NeverReactivates(s, r.next)
    ensures r.out == Ok(true) ==> r.next == s
    ensures Matching(s.sessions, token, userId) == {} ==> r == Step(s, Ok(false))
    ensures |Matching(s.sessions, token, userId)| > 1 ==> r == Step(s, Err(AmbiguousSession))
    ensures forall k {:trigger FindsOnly(s, token, userId, k)} :: FindsOnly(s, token, userId, k) ==>
              k in s.sessions &&
              match codec.parse(token)
              case Err(e) => r == Step(s, Err(TokenRejected(e)))
              case Ok(c) =>
                (now > c.exp ==> r.out == Ok(false) && r.next == Expire(s, k))
                && (now <= c.exp ==> r == Step(s, Ok(true)))
  {
    var found := Matching(s.sessions, token, userId);
    if found == {} then
      Step(s, Ok(false))
    else if |found| > 1 then
      Step(s, Err(AmbiguousSession))
    else
      var k :| k in found;
      OnlyMember(found, k);
      match codec.parse(token)
      case Err(e) => Step(s, Err(TokenRejected(e)))
      case Ok(c) =>
        if now > c.exp then Step(Expire(s, k), Ok(false)) else Step(s, Ok(true))
  }

  /** A set of one element is that element alone. */
  lemma OnlyMember<T>(m: set<T>, x: T)
    requires |m| == 1 && x in m
    ensures m == {x}
  {
    var rest := m - {x};
    assert |rest| == 0;
  }
}
