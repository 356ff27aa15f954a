/** Sign-up and credential check (src/app/actions/users.ts) over a user
    store keyed by e-mail.  `makeHash` is a parameter: any deterministic
    function into digests.  Whether the database call throws, and the id a
    new row receives, are parameters too. */
module Users {
  import opened Wrappers
  import opened Entities

  /** The `User` argument of both actions; its `hashedPassword` field holds
      the password as typed, which both actions hash first. */
  datatype UserInput = UserInput(
    name: Option<string>, email: string, hashedPassword: string, imageUrl: Option<string>)

  /** The store after a sign-up, and the boolean the action returns. */
  datatype SignUp = SignUp(users: UserStore, ok: bool)

  /** `signUpUser`: insert name, e-mail and the hash of the password.  The
      insert throws when the e-mail is taken (it is the unique key) or the
      database fails; the error is caught and reported as false. */
  function SignUpUser(users: UserStore, data: UserInput, makeHash: HashFn, newId: int, db: DbOutcome): (r: SignUp)
    ensures r.ok <==> data.email !in users && db.Completed?
    ensures !r.ok ==> r.users == users
    ensures r.ok ==>
              && data.email in r.users && r.users - {data.email} == users
              && r.users[data.email].id == newId
              && r.users[data.email].name == data.name
              && r.users[data.email].email == data.email
              && r.users[data.email].imageUrl == None
              && r.users[data.email].hashedPassword == makeHash(data.hashedPassword)
  {
    var hashed := makeHash(data.hashedPassword);
    if data.email in users || db.Threw? then SignUp(users, false)
    else
      var added := users[data.email := UserRecord(newId, data.name, data.email, None, hashed)];
      assert added - {data.email} == users;
      SignUp(added, true)
  }

  /** `getUser`: the stored record when the e-mail is known and the stored
      hash is the hash of the given password; null otherwise, and null when
      the lookup throws. */
  function GetUser(users: UserStore, data: UserInput, makeHash: HashFn, db: DbOutcome): (r: Option<UserRecord>)
    ensures r.Some? <==> db.Completed? && data.email in users
                         && users[data.email].hashedPassword == makeHash(data.hashedPassword)
    ensures r.Some? ==> r.value == users[data.email]
  {
    var hashed := makeHash(data.hashedPassword);
    if db.Threw? then None
    else
      match Get(users, data.email)
      case None => None
      case Some(user) =>
        assert user == users[data.email];
        if user.hashedPassword != hashed then None else Some(user)
  }

  /** Every stored password is a digest. */
  predicate OnlyDigests(users: UserStore) {
    forall e :: e in users ==> IsDigest(users[e].hashedPassword)
  }

  /** Sign-up keeps the store keyed by e-mail and holding only digests. */
  lemma SignUpPreservesInvariants(users: UserStore, data: UserInput, makeHash: HashFn, newId: int, db: DbOutcome)
    requires KeyedByEmail(users) && OnlyDigests(users)
    ensures var r := SignUpUser(users, data, makeHash, newId, db);
            KeyedByEmail(r.users) && OnlyDigests(r.users)
  {
    var r := SignUpUser(users, data, makeHash, newId, db);
    if r.ok {
      forall e | e in r.users
        ensures r.users[e].email == e && IsDigest(r.users[e].hashedPassword)
      {
        if e != data.email {
          assert e in r.users - {data.email};
        }
      }
    }
  }

  /** A password that is not itself a digest is never what gets stored. */
  lemma SignUpNeverStoresRaw(users: UserStore, data: UserInput, makeHash: HashFn, newId: int)
    requires !IsDigest(data.hashedPassword)
    requires data.email !in users
    ensures SignUpUser(users, data, makeHash, newId, Completed).users[data.email].hashedPassword != data.hashedPassword
  {
  }

  /** A second sign-up under a taken e-mail fails and changes nothing. */
  lemma SignUpTwiceFails(users: UserStore, first: UserInput, second: UserInput, makeHash: HashFn, id1: int, id2: int, db: DbOutcome)
    requires second.email == first.email
    ensures var once := SignUpUser(users, first, makeHash, id1, Completed);
            once.ok ==> SignUpUser(once.users, second, makeHash, id2, db) == SignUp(once.users, false)
  {
  }

  /** Signing up and then signing in with the same password returns the new
      record with that name and e-mail. */
  lemma SignUpThenGetUser(users: UserStore, data: UserInput, login: UserInput, makeHash: HashFn, newId: int)
    requires login.email == data.email && login.hashedPassword == data.hashedPassword
    ensures var r := SignUpUser(users, data, makeHash, newId, Completed);
            r.ok ==> GetUser(r.users, login, makeHash, Completed)
                     == Some(UserRecord(newId, data.name, data.email, None, makeHash(data.hashedPassword)))
  {
  }

  /** After a sign-up, a password with a different hash is refused. */
  lemma WrongPasswordRefused(users: UserStore, data: UserInput, login: UserInput, makeHash: HashFn, newId: int)
    requires login.email == data.email && data.email !in users
    requires makeHash(login.hashedPassword) != makeHash(data.hashedPassword)
    ensures GetUser(SignUpUser(users, data, makeHash, newId, Completed).users, login, makeHash, Completed) == None
  {
  }

  /** A record whose stored password is not a digest can never sign in. */
  lemma RawPasswordNeverMatches(users: UserStore, login: UserInput, makeHash: HashFn, db: DbOutcome)
    requires login.email in users && !IsDigest(users[login.email].hashedPassword)
    ensures GetUser(users, login, makeHash, db) == None
  {
    var d: string := makeHash(login.hashedPassword);
    assert IsDigest(d);
  }
}
