/** What holds across several calls of the engine: repeated sign-up, the
    session lifecycle, login followed by validation, and the walk-through of a
    single user's first requests. */
module AuthProperties {
  import opened AuthTypes
  import opened AuthSpec

  /** Signing up an email a second time is refused, whatever the password. */
  lemma SecondSignUpFails(s: Store, enc: PasswordEncoder, email: string, p1: string, p2: string)
    ensures var r1 := SignUp(s, enc, email, p1);
            SignUp(r1.next, enc, email, p2) == Step(r1.next, Err(UserAlreadyExists))
  {
  }

  /** No operation removes a session, changes its token or user, or brings an
      EXPIRED session back to ACTIVE. */
  lemma NoOperationReactivates(s: Store, enc: PasswordEncoder, codec: TokenCodec, email: string, password: string,
                               userId: int, token: string, now: Long)
    requires s.Valid()
    ensures NeverReactivates(s, SignUp(s, enc, email, password).next)
    ensures NeverReactivates(s, Login(s, enc, codec, email, password, now).next)
    ensures NeverReactivates(s, ValidateToken(s, codec, userId, token, now).next)
  {
  }

  /** Changing the state of one session row does not change which rows the
      lookup by token and user finds. */
  lemma StateChangeKeepsMatching(sessions: map<nat, Session>, k: nat, st: SessionState, token: string, userId: int)
    requires k in sessions
    ensures Matching(sessions[k := sessions[k].(state := st)], token, userId) == Matching(sessions, token, userId)
  {
  }

  /** Validation repeated at the same time gives the same outcome and the same
      stores; once it has said anything other than true, it says the same at
      every later time and changes nothing more. In particular a session marked
      EXPIRED stays EXPIRED and the answer stays false. */
  lemma ValidateRepeats(s: Store, codec: TokenCodec, userId: int, token: string, t1: Long, t2: Long)
    ensures var r1 := ValidateToken(s, codec, userId, token, t1);
            ValidateToken(r1.next, codec, userId, token, t1) == r1
    ensures var r1 := ValidateToken(s, codec, userId, token, t1);
            t1 <= t2 && r1.out != Ok(true) ==> ValidateToken(r1.next, codec, userId, token, t2) == Step(r1.next, r1.out)
  {
    var found := Matching(s.sessions, token, userId);
    if found != {} && |found| <= 1 {
      var k :| k in found;
      OnlyMember(found, k);
      assert FindsOnly(s, token, userId, k);
      match codec.parse(token)
      case Err(_) =>
      case Ok(c) =>
        if t1 > c.exp {
          StateChangeKeepsMatching(s.sessions, k, Expired, token, userId);
          assert FindsOnly(Expire(s, k), token, userId, k);
          assert Expire(Expire(s, k), k) == Expire(s, k);
        }
    }
  }

  /** validateToken answers the same whatever state the matching session is
      in: only the token's own "exp" decides. */
  lemma StateNotConsulted(s: Store, codec: TokenCodec, userId: int, token: string, now: Long, k: nat, st: SessionState)
    requires k in s.sessions
    ensures var s2 := s.(sessions := s.sessions[k := s.sessions[k].(state := st)]);
            ValidateToken(s2, codec, userId, token, now).out == ValidateToken(s, codec, userId, token, now).out
  {
    var s2 := s.(sessions := s.sessions[k := s.sessions[k].(state := st)]);
    StateChangeKeepsMatching(s.sessions, k, st, token, userId);
    var found := Matching(s.sessions, token, userId);
    if found != {} && |found| <= 1 {
      var j :| j in found;
      OnlyMember(found, j);
      assert FindsOnly(s, token, userId, j);
      assert FindsOnly(s2, token, userId, j);
    }
  }

  /** A user who has just signed up owns no session, so no token is found for
      their id. */
  lemma SignedUpUserHasNoSessions(s: Store, enc: PasswordEncoder, email: string, password: string, token: string)
    requires s.Valid() && email !in s.users
    ensures var s1 := SignUp(s, enc, email, password).next;
            email in s1.users && Matching(s1.sessions, token, s1.users[email].id) == {}
  {
  }

  /** A login whose token has no session yet for that user is accepted by
      validateToken at any time up to its "exp", and after that is refused,
      with its session marked EXPIRED. */
  lemma LoginThenValidate(s: Store, enc: PasswordEncoder, codec: TokenCodec, email: string, password: string,
                          t1: Long, t2: Long)
    requires s.Valid() && ParsesWhatItSigns(codec)
    requires email in s.users && enc.matches(password, s.users[email].passwordHash)
    requires Matching(s.sessions, codec.sign(LoginClaims(s.users[email].id, t1)), s.users[email].id) == {}
    requires t1 <= LONG_MAX - EXPIRY_OFFSET
    ensures var r := Login(s, enc, codec, email, password, t1);
            r.out.Ok? && s.nextSessionId in r.next.sessions &&
            var v := ValidateToken(r.next, codec, s.users[email].id, r.out.value, t2);
            (t2 <= t1 + EXPIRY_OFFSET ==> v == Step(r.next, Ok(true)))
            && (t2 > t1 + EXPIRY_OFFSET ==>
                  v.out == Ok(false) && s.nextSessionId in v.next.sessions
                  && v.next.sessions[s.nextSessionId].state == Expired)
  {
    var id := s.users[email].id;
    var claims := LoginClaims(id, t1);
    var token := codec.sign(claims);
    var r := Login(s, enc, codec, email, password, t1);
    var k := s.nextSessionId;
    assert AddsSession(s, r.next, k, token, id);
    forall j | j in Matching(r.next.sessions, token, id) ensures j == k {
    }
    assert FindsOnly(r.next, token, id, k);
    assert codec.parse(token) == Ok(claims);
  }

  /** A fresh sign-up followed by a login with the same password yields a token
      that validates for the new user up to its "exp", given an encoder that
      accepts a password against its own encoding and a codec that parses what
      it signs. */
  lemma SignUpLoginValidate(s: Store, enc: PasswordEncoder, codec: TokenCodec, email: string, password: string,
                            t1: Long, t2: Long)
    requires s.Valid() && email !in s.users
    requires AcceptsOwnEncoding(enc) && ParsesWhatItSigns(codec)
    requires t1 <= LONG_MAX - EXPIRY_OFFSET && t2 <= t1 + EXPIRY_OFFSET
    ensures var a := SignUp(s, enc, email, password);
            var b := Login(a.next, enc, codec, email, password, t1);
            a.out == Ok(true) && email in a.next.users && b.out.Ok?
            && ValidateToken(b.next, codec, a.next.users[email].id, b.out.value, t2) == Step(b.next, Ok(true))
  {
    var s1 := SignUp(s, enc, email, password).next;
    assert enc.matches(password, enc.encode(password));
    SignedUpUserHasNoSessions(s, enc, email, password, codec.sign(LoginClaims(s1.users[email].id, t1)));
    LoginThenValidate(s1, enc, codec, email, password, t1, t2);
  }

  /** Two logins of the same user in the same millisecond sign the same claims
      and so return the same token. In a session store that puts no uniqueness
      constraint on the token, it then holds two rows for that token and user,
      and every later validation of it fails in the lookup. */
  lemma SameMillisecondLogins(s: Store, enc: PasswordEncoder, codec: TokenCodec, email: string, password: string,
                              now: Long, later: Long)
    requires s.Valid() && email in s.users && enc.matches(password, s.users[email].passwordHash)
    ensures var r1 := Login(s, enc, codec, email, password, now);
            var r2 := Login(r1.next, enc, codec, email, password, now);
            r1.out.Ok? && r2.out == r1.out
            && ValidateToken(r2.next, codec, s.users[email].id, r1.out.value, later) == Step(r2.next, Err(AmbiguousSession))
  {
    var id := s.users[email].id;
    var token := codec.sign(LoginClaims(id, now));
    var r1 := Login(s, enc, codec, email, password, now);
    var r2 := Login(r1.next, enc, codec, email, password, now);
    var k1, k2 := s.nextSessionId, r1.next.nextSessionId;
    assert AddsSession(s, r1.next, k1, token, id);
    assert AddsSession(r1.next, r2.next, k2, token, id);
    var found := Matching(r2.next.sessions, token, id);
    assert k1 in found && k2 in found && k1 != k2;
    var rest := found - {k1};
    assert k2 in rest && found == rest + {k1};
    assert |found| > 1;
  }

  /** The walk-through for one user: sign up, log in, validate, log in with a
      wrong password, sign up again. */
  lemma AliceScenario(s: Store, enc: PasswordEncoder, codec: TokenCodec, t1: Long, t2: Long)
    requires s.Valid() && "alice@example.com" !in s.users
    requires AcceptsOwnEncoding(enc) && ParsesWhatItSigns(codec)
    requires !enc.matches("wrongpass", enc.encode("secret123"))
    requires t1 <= LONG_MAX - EXPIRY_OFFSET && t2 <= t1 + EXPIRY_OFFSET
    ensures var a := SignUp(s, enc, "alice@example.com", "secret123");
            var b := Login(a.next, enc, codec, "alice@example.com", "secret123", t1);
            a.out == Ok(true) && "alice@example.com" in a.next.users && b.out.Ok?
            && var c := ValidateToken(b.next, codec, a.next.users["alice@example.com"].id, b.out.value, t2);
               var d := Login(c.next, enc, codec, "alice@example.com", "wrongpass", t2);
               var e := SignUp(d.next, enc, "alice@example.com", "secret123");
               c.out == Ok(true) && d.out == Err(WrongPassword) && e.out == Err(UserAlreadyExists)
  {
    SignUpLoginValidate(s, enc, codec, "alice@example.com", "secret123", t1, t2);
  }
}
