/**
  The decisions of the authentication controller: registration, login, and the check of an
  already-verified token. Accounts are records `{id, email, hash}` in a sequence; the password
  hash is produced outside this model (a salted bcrypt hash) and checked with a `matches`
  relation the caller supplies. A token is the abstract content of the signed JWT.
 */
module Auth {
  import opened Options
  import opened Tasks
  import opened Text

  type Hash = string

  datatype Account = Account(id: ObjectId, email: string, hash: Hash)
  type Accounts = seq<Account>

  /** The only account fields a response ever carries. */
  datatype UserView = UserView(id: ObjectId, email: string)

  /** The signed payload: the account id and the `iat`/`exp` claims, in seconds. */
  datatype Token = Token(subject: ObjectId, issuedAt: int, expiresAt: int)

  datatype Body =
    | Message(text: string)
    | Session(message: string, token: Token, user: UserView)
    | Verified(message: string, user: UserView)

  datatype Reply = Reply(status: int, body: Body)

  /** The account store after a registration attempt, and the response. */
  datatype Registration = Registration(accounts: Accounts, reply: Reply)

  /** `expiresIn: '7d'`, in seconds. */
  const TokenLifetime := 7 * 24 * 60 * 60
  const MinPasswordLength := 6

  const RequiredMessage := "Email and password are required"
  const ShortPasswordMessage := "Password must be at least 6 characters"
  const EmailExistsMessage := "User with this email already exists"
  const RegisteredMessage := "User registered successfully"
  const InvalidCredentialsMessage := "Invalid email or password"
  const LoginMessage := "Login successful"
  const UserNotFoundMessage := "User not found"
  const TokenValidMessage := "Token is valid"

  /** `generateToken`: binds exactly the given account id, valid for seven days from issue. */
  function GenerateToken(id: ObjectId, now: int): (t: Token)
    ensures t.subject == id && t.issuedAt == now
    ensures t.expiresAt - t.issuedAt == TokenLifetime
  {
    Token(id, now, now + TokenLifetime)
  }

  /** The store's invariant: the unique index on email, and unique ids. */
  ghost predicate WellFormed(accounts: Accounts) {
    forall i, j :: 0 <= i < j < |accounts| ==>
      accounts[i].email != accounts[j].email && accounts[i].id != accounts[j].id
  }

  ghost predicate EmailTaken(accounts: Accounts, email: string) {
    exists a :: a in accounts && a.email == email
  }

  /** JavaScript truthiness of a body field: present, and not the empty string. */
  predicate Truthy(f: Field<string>) {
    f.Present? && f.value != ""
  }

  function View(a: Account): UserView {
    UserView(a.id, a.email)
  }

  /** `User.findOne({ email })`: exact, case-sensitive match. */
  function FindByEmail(accounts: Accounts, email: string): (r: Option<Account>)
    ensures r.Some? ==> r.value in accounts && r.value.email == email
    ensures r.None? <==> !EmailTaken(accounts, email)
  {
    if |accounts| == 0 then None
    else if accounts[0].email == email then Some(accounts[0])
    else
      assert accounts == [accounts[0]] + accounts[1..];
      FindByEmail(accounts[1..], email)
  }

  /** `User.findById(id)`. */
  function FindById(accounts: Accounts, id: ObjectId): (r: Option<Account>)
    ensures r.Some? ==> r.value in accounts && r.value.id == id
    ensures r.None? <==> forall a :: a in accounts ==> a.id != id
  {
    if |accounts| == 0 then None
    else if accounts[0].id == id then Some(accounts[0])
    else
      assert accounts == [accounts[0]] + accounts[1..];
      FindById(accounts[1..], id)
  }

  /** `register`. Checked in order: both fields present, password at least six UTF-16 code
      units, email not yet registered; each failure is a 400 that stores nothing. Success
      stores exactly one account and answers 201 with a token for its id and its public view. */
  function Register(accounts: Accounts, email: Field<string>, password: Field<string>,
                    newId: ObjectId, hashed: Hash, now: int): (r: Registration)
    ensures r.reply.status == 201 <==>
      && Truthy(email) && Truthy(password)
      && Utf16Length(password.value) >= MinPasswordLength
      && !EmailTaken(accounts, email.value)
    ensures r.reply.status != 201 ==> r.reply.status == 400 && r.accounts == accounts
    ensures !Truthy(email) || !Truthy(password) ==> r.reply.body == Message(RequiredMessage)
    ensures Truthy(email) && Truthy(password) && Utf16Length(password.value) < MinPasswordLength ==>
      r.reply.body == Message(ShortPasswordMessage)
    ensures (Truthy(email) && Truthy(password) && Utf16Length(password.value) >= MinPasswordLength
             && EmailTaken(accounts, email.value)) ==> r.reply.body == Message(EmailExistsMessage)
    ensures r.reply.status == 201 ==>
      && r.accounts == accounts + [Account(newId, email.value, hashed)]
      && r.reply.body == Session(RegisteredMessage, GenerateToken(newId, now), UserView(newId, email.value))
  {
    if !Truthy(email) || !Truthy(password) then
      Registration(accounts, Reply(400, Message(RequiredMessage)))
    else if Utf16Length(password.value) < MinPasswordLength then
      Registration(accounts, Reply(400, Message(ShortPasswordMessage)))
    else if FindByEmail(accounts, email.value).Some? then
      Registration(accounts, Reply(400, Message(EmailExistsMessage)))
    else
      var user := Account(newId, email.value, hashed);
      Registration(accounts + [user], Reply(201, Session(RegisteredMessage, GenerateToken(newId, now), View(user))))
  }

  /** `login`. Missing fields are a 400; an unknown email and a wrong password get the one
      same 401; success returns a token for the matched account and its public view. The
      account store is not an output: login never changes it. */
  function Login(accounts: Accounts, email: Field<string>, password: Field<string>,
                 matches: (string, Hash) -> bool, now: int): (r: Reply)
    ensures !Truthy(email) || !Truthy(password) ==> r == Reply(400, Message(RequiredMessage))
    ensures r.status == 200 || r.status == 400 || r.status == 401
    ensures r.status == 401 ==> r.body == Message(InvalidCredentialsMessage)
    ensures r.status == 200 ==>
      && r.body.Session?
      && r.body == Session(LoginMessage, GenerateToken(r.body.user.id, now), r.body.user)
      && r.body.user.email == email.value
      && exists a :: a in accounts && View(a) == r.body.user && matches(password.value, a.hash)
  {
    if !Truthy(email) || !Truthy(password) then
      Reply(400, Message(RequiredMessage))
    else
      match FindByEmail(accounts, email.value)
      case None => Reply(401, Message(InvalidCredentialsMessage))
      case Some(user) =>
        if !matches(password.value, user.hash) then Reply(401, Message(InvalidCredentialsMessage))
        else Reply(200, Session(LoginMessage, GenerateToken(user.id, now), View(user)))
  }

  /** `verifyToken`, given the id the token resolved to: 401 when no account has it,
      otherwise the account's public view. */
  function VerifyToken(accounts: Accounts, id: ObjectId): (r: Reply)
    ensures r.status == 401 <==> forall a :: a in accounts ==> a.id != id
    ensures r.status == 401 ==> r.body == Message(UserNotFoundMessage)
    ensures r.status != 401 ==>
      && r.status == 200 && r.body.Verified? && r.body.message == TokenValidMessage
      && r.body.user.id == id && exists a :: a in accounts && View(a) == r.body.user
  {
    match FindById(accounts, id)
    case None => Reply(401, Message(UserNotFoundMessage))
    case Some(user) => Reply(200, Verified(TokenValidMessage, View(user)))
  }

  /** With emails unique, login succeeds exactly when some account has the email and its
      hash matches the password. */
  lemma LoginSucceedsIff(accounts: Accounts, email: Field<string>, password: Field<string>,
                         matches: (string, Hash) -> bool, now: int)
    requires WellFormed(accounts)
    ensures Login(accounts, email, password, matches, now).status == 200 <==>
      && Truthy(email) && Truthy(password)
      && exists a :: a in accounts && a.email == email.value && matches(password.value, a.hash)
  {
  }

  /** Enumeration resistance: an unknown email and a known email with a wrong password get
      identical responses. */
  lemma LoginFailureIsGeneric(accounts: Accounts, unknown: string, known: Account,
                              password1: string, password2: string,
                              matches: (string, Hash) -> bool, now: int)
    requires WellFormed(accounts)
    requires unknown != "" && password1 != "" && password2 != "" && known.email != ""
    requires !EmailTaken(accounts, unknown)
    requires known in accounts && !matches(password2, known.hash)
    ensures Login(accounts, Present(unknown), Present(password1), matches, now)
         == Login(accounts, Present(known.email), Present(password2), matches, now)
    ensures Login(accounts, Present(unknown), Present(password1), matches, now)
         == Reply(401, Message(InvalidCredentialsMessage))
  {
  }

  /** Registration keeps emails and ids unique, given a fresh id from the store. */
  lemma RegisterPreservesWellFormed(accounts: Accounts, email: Field<string>, password: Field<string>,
                                    newId: ObjectId, hashed: Hash, now: int)
    requires WellFormed(accounts)
    requires forall a :: a in accounts ==> a.id != newId
    ensures WellFormed(Register(accounts, email, password, newId, hashed, now).accounts)
  {
  }

  /** A second registration of the same email is refused and stores nothing. */
  lemma RegisterTwiceConflicts(accounts: Accounts, email: Field<string>, password1: Field<string>,
                               password2: Field<string>, id1: ObjectId, id2: ObjectId,
                               hash1: Hash, hash2: Hash, now1: int, now2: int)
    requires Register(accounts, email, password1, id1, hash1, now1).reply.status == 201
    requires Truthy(password2) && Utf16Length(password2.value) >= MinPasswordLength
    ensures var first := Register(accounts, email, password1, id1, hash1, now1).accounts;
      Register(first, email, password2, id2, hash2, now2) == Registration(first, Reply(400, Message(EmailExistsMessage)))
  {
  }

  /** Round trip: after registering, logging in with the same password succeeds with a token
      for the new id, and the new id's token checks out to the same public view. */
  lemma RegisterThenLogin(accounts: Accounts, email: Field<string>, password: Field<string>,
                          newId: ObjectId, hashed: Hash, matches: (string, Hash) -> bool,
                          now: int, later: int)
    requires forall a :: a in accounts ==> a.id != newId
    requires Register(accounts, email, password, newId, hashed, now).reply.status == 201
    requires matches(password.value, hashed)
    ensures var stored := Register(accounts, email, password, newId, hashed, now).accounts;
      && Login(stored, email, password, matches, later)
         == Reply(200, Session(LoginMessage, GenerateToken(newId, later), UserView(newId, email.value)))
      && VerifyToken(stored, newId) == Reply(200, Verified(TokenValidMessage, UserView(newId, email.value)))
  {
  }
}
