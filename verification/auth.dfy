/**
 * The authentication store as a state machine over the user list, the
 * company list and the signed-in user.
 */
module Auth {
  import opened Wrappers

  /** A stored user. `status` is absent on users created by signup. */
  datatype User = User(id: string, email: string, password: string, role: string, status: Option<string>, createdAt: int)

  /** A user record with the password field removed: what the session holds. */
  datatype SessionUser = SessionUser(id: string, email: string, role: string, status: Option<string>, createdAt: int)

  /**
   * A stored company: an open record of string fields (the registration
   * data, plus `id` and `status`) and its creation time.
   */
  datatype Company = Company(fields: map<string, string>, createdAt: int)

  datatype AuthState = AuthState(users: seq<User>, companies: seq<Company>, current: Option<SessionUser>)

  datatype AuthResult = Ok | Err(message: string)

  const InactiveMessage := "User account is inactive"
  const InvalidCredentialsMessage := "Invalid email or password"
  const EmailTakenMessage := "Email already exists"
  const CompanyTakenMessage := "Company with this email already exists."

  function WithoutPassword(u: User): (s: SessionUser)
    ensures s.id == u.id && s.email == u.email && s.role == u.role && s.status == u.status && s.createdAt == u.createdAt
  {
    SessionUser(u.id, u.email, u.role, u.status, u.createdAt)
  }

  /** The index of the first user with this email and password. */
  function FindUser(users: seq<User>, email: string, password: string): (found: Option<nat>)
    ensures found.Some? ==>
      && found.value < |users|
      && users[found.value].email == email && users[found.value].password == password
      && forall i :: 0 <= i < found.value ==> !(users[i].email == email && users[i].password == password)
    ensures found.None? ==> forall i :: 0 <= i < |users| ==> !(users[i].email == email && users[i].password == password)
  {
    if users == [] then None
    else if users[0].email == email && users[0].password == password then Some(0)
    else
      match FindUser(users[1..], email, password)
      case None => None
      case Some(k) => Some(k + 1)
  }

  /**
   * `login`: the first user matching email and password signs in unless
   * their status is "inactive". The company id is accepted and ignored.
   */
  function Login(st: AuthState, companyId: string, email: string, password: string): (result: (AuthState, AuthResult))
    ensures var (after, r) := result;
      && after.users == st.users && after.companies == st.companies
      && (r.Ok? <==> FindUser(st.users, email, password).Some?
                     && st.users[FindUser(st.users, email, password).value].status != Some("inactive"))
      && (r.Ok? ==> after.current == Some(WithoutPassword(st.users[FindUser(st.users, email, password).value])))
      && (r.Err? ==> after.current == st.current)
      && (FindUser(st.users, email, password).None? ==> r == Err(InvalidCredentialsMessage))
  {
    match FindUser(st.users, email, password)
    case None => (st, Err(InvalidCredentialsMessage))
    case Some(k) =>
      if st.users[k].status == Some("inactive") then (st, Err(InactiveMessage))
      else (st.(current := Some(WithoutPassword(st.users[k]))), Ok)
  }

  /** The login outcome stated over the user list alone: success exactly when an active matching user exists first. */
  lemma LoginOutcome(st: AuthState, companyId: string, email: string, password: string)
    ensures (Login(st, companyId, email, password).1 == Err(InvalidCredentialsMessage)) <==>
      forall i :: 0 <= i < |st.users| ==> !(st.users[i].email == email && st.users[i].password == password)
    ensures Login(st, companyId, email, password).1 == Err(InactiveMessage) <==>
      exists i :: 0 <= i < |st.users| && st.users[i].email == email && st.users[i].password == password
        && st.users[i].status == Some("inactive")
        && forall j :: 0 <= j < i ==> !(st.users[j].email == email && st.users[j].password == password)
  {
    var found := FindUser(st.users, email, password);
    if found.Some? {
      var k := found.value;
      forall i | 0 <= i < |st.users| && st.users[i].email == email && st.users[i].password == password
        && forall j :: 0 <= j < i ==> !(st.users[j].email == email && st.users[j].password == password)
        ensures i == k
      {
        if i < k { assert false; }
        if k < i { assert false; }
      }
    }
  }

  predicate EmailTaken(users: seq<User>, email: string) {
    exists i :: 0 <= i < |users| && users[i].email == email
  }

  predicate UniqueEmails(users: seq<User>) {
    forall i, j :: 0 <= i < j < |users| ==> users[i].email != users[j].email
  }

  /** `signup`: refuse a known email; otherwise append the user and sign them in without the password. */
  function Signup(st: AuthState, email: string, password: string, role: string, id: string, now: int): (result: (AuthState, AuthResult))
    ensures var (after, r) := result;
      && after.companies == st.companies
      && (EmailTaken(st.users, email) <==> r == Err(EmailTakenMessage))
      && (r.Err? ==> after == st)
      && (r.Ok? ==>
            && after.users == st.users + [User(id, email, password, role, None, now)]
            && after.current == Some(WithoutPassword(after.users[|st.users|])))
  {
    if EmailTaken(st.users, email) then (st, Err(EmailTakenMessage))
    else
      var u := User(id, email, password, role, None, now);
      (st.(users := st.users + [u], current := Some(WithoutPassword(u))), Ok)
  }

  /** Signup keeps every email unique. */
  lemma SignupKeepsEmailsUnique(st: AuthState, email: string, password: string, role: string, id: string, now: int)
    requires UniqueEmails(st.users)
    ensures UniqueEmails(Signup(st, email, password, role, id, now).0.users)
  {
  }

  /** The signed-in user after a successful signup or login is the stored record minus its password. */
  lemma SessionIsStoredUser(st: AuthState, email: string, password: string, role: string, id: string, now: int, companyId: string)
    ensures var (after, r) := Signup(st, email, password, role, id, now);
      r.Ok? ==> exists u :: u in after.users && u.email == email && after.current == Some(WithoutPassword(u))
    ensures var (after, r) := Login(st, companyId, email, password);
      r.Ok? ==> exists u :: (u in after.users && u.email == email && u.password == password
        && after.current == Some(WithoutPassword(u)))
  {
    var (a1, r1) := Signup(st, email, password, role, id, now);
    if r1.Ok? {
      assert a1.users[|st.users|] in a1.users;
    }
    var (a2, r2) := Login(st, companyId, email, password);
    if r2.Ok? {
      assert st.users[FindUser(st.users, email, password).value] in a2.users;
    }
  }

  function Field(fields: map<string, string>, key: string): Option<string> {
    if key in fields then Some(fields[key]) else None
  }

  /**
   * `{ id, ...companyData, status: 'active', created_at }`. The creation time
   * is the company's `createdAt`, so a `created_at` key in the data is
   * dropped here, as the later key overwrites it in the source.
   */
  function NewCompanyFields(data: map<string, string>, id: string): (fields: map<string, string>)
    ensures Field(fields, "status") == Some("active")
    ensures Field(fields, "email") == Field(data, "email")
    ensures "id" in fields && (fields["id"] == if "id" in data then data["id"] else id)
    ensures "created_at" !in fields
    ensures forall k :: k in data && k != "status" && k != "created_at" ==> k in fields && fields[k] == data[k]
    ensures forall k :: k in fields ==> k in data || k == "id" || k == "status"
  {
    ((map["id" := id] + data) - {"created_at"})["status" := "active"]
  }

  /**
   * `registerCompany`: refuse a company whose email equals a stored one
   * (two missing emails count as equal); otherwise append it as active.
   */
  function RegisterCompany(st: AuthState, data: map<string, string>, id: string, now: int): (result: (AuthState, AuthResult))
    ensures var (after, r) := result;
      && after.users == st.users && after.current == st.current
      && (r.Err? <==> exists i :: 0 <= i < |st.companies| && Field(st.companies[i].fields, "email") == Field(data, "email"))
      && (r.Err? ==> after == st && r.message == CompanyTakenMessage)
      && (r.Ok? ==>
            && |after.companies| == |st.companies| + 1
            && after.companies[..|st.companies|] == st.companies
            && Field(after.companies[|st.companies|].fields, "status") == Some("active")
            && Field(after.companies[|st.companies|].fields, "email") == Field(data, "email"))
  {
    if exists i :: 0 <= i < |st.companies| && Field(st.companies[i].fields, "email") == Field(data, "email") then
      (st, Err(CompanyTakenMessage))
    else
      (st.(companies := st.companies + [Company(NewCompanyFields(data, id), now)]), Ok)
  }

  /** No two stored companies share an email; at most one has none. */
  predicate UniqueCompanyEmails(companies: seq<Company>) {
    forall i, j :: 0 <= i < j < |companies| ==>
      Field(companies[i].fields, "email") != Field(companies[j].fields, "email")
  }

  /**
   * Registration keeps company emails unique, the counterpart of
   * SignupKeepsEmailsUnique; a company without an email is a duplicate of
   * another without one.
   */
  lemma RegisterKeepsEmailsUnique(st: AuthState, data: map<string, string>, id: string, now: int)
    requires UniqueCompanyEmails(st.companies)
    ensures UniqueCompanyEmails(RegisterCompany(st, data, id, now).0.companies)
  {
  }

  /** `logout`: nobody is signed in afterwards; the lists are kept. */
  function Logout(st: AuthState): (after: AuthState)
    ensures after.current.None? && after.users == st.users && after.companies == st.companies
  {
    st.(current := None)
  }
}
