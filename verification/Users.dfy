/** Users of many customers in one shared pool, managed through calls that may fail or lose their answers.

The service's calls do not interleave here. Lower-casing is that of ASCII letters.
 */
module Users {
  import opened Wrappers
  import Sequences
  import Strings
  import ProfileLists

  /** What becomes of a write: carried out, refused without effect, or carried out with its answer lost. */
  datatype Fate = Done | Refused | Lost

  datatype Reply = Fine | Exists | NotFound | BadPassword | Fault

  datatype Role = Admin | User

  datatype Account =
    Account(customer: Option<string>, groups: set<Role>, password: Option<string>, profile: Option<string>)

  type Pool = map<string, Account>

  datatype Principal = Principal(customer: string, mayManage: bool)

  datatype Error = Invalid | Denied | AlreadyExists | WeakPassword | Failure

  datatype Request = Request(email: string, role: Role, password: string)

  datatype CreateFates = CreateFates(create: Fate, group: Fate, password: Fate, discard: Fate)

  // ---- addresses and requests --------------------------------------------------------------------------

  function LowerChar(c: char): char { if 'A' <= c <= 'Z' then c - 'A' + 'a' else c }

  function Normalize(email: string): Result<string, Error> {
    if '@' !in email || Strings.Strip(email) == "" then Err(Invalid)
    else Ok(Sequences.Map(LowerChar, Strings.Strip(email)))
  }

  predicate Normal(email: string) { Normalize(email) == Ok(email) }

  lemma LowerTwice(s: string)
    ensures Sequences.Map(LowerChar, Sequences.Map(LowerChar, s)) == Sequences.Map(LowerChar, s)
  {
  }

  lemma LowerTrimmed(s: string)
    ensures Strings.Trimmed(s) ==> Strings.Trimmed(Sequences.Map(LowerChar, s))
  {
  }

  lemma LowerKeepsAt(s: string)
    requires '@' in s
    ensures '@' in Sequences.Map(LowerChar, s)
  {
    var i :| 0 <= i < |s| && s[i] == '@';
    assert Sequences.Map(LowerChar, s)[i] == '@';
  }

  /** A normalised address stays as it is, so creation and every later call agree on it. */
  lemma NormalizeOnce(email: string)
    requires Normalize(email).Ok?
    ensures Normal(Normalize(email).value)
  {
    var s := Strings.Strip(email);
    Strings.StripKeeps(email, '@');
    LowerTwice(s);
    LowerTrimmed(s);
    LowerKeepsAt(s);
  }

  /** What an address becomes: its middle, with every capital made small and nothing else changed. */
  lemma NormalizeExactly(email: string)
    ensures Normalize(email).Ok? <==> '@' in email && Strings.Strip(email) != ""
    ensures Normalize(email).Err? ==> Normalize(email).reason == Invalid
    ensures Normalize(email).Ok? ==>
              var s, r := Strings.Strip(email), Normalize(email).value;
              && |r| == |s|
              && forall i :: 0 <= i < |s| ==>
                   if 'A' <= s[i] <= 'Z' then r[i] as int == s[i] as int + 32 else r[i] == s[i]
  {
    LoweredIs(Strings.Strip(email));
  }

  lemma LoweredIs(s: string)
    ensures var r := Sequences.Map(LowerChar, s);
            && |r| == |s|
            && forall i :: 0 <= i < |s| ==>
                 if 'A' <= s[i] <= 'Z' then r[i] as int == s[i] as int + 32 else r[i] == s[i]
  {
  }

  predicate Has(s: string, inClass: char -> bool) { exists i :: 0 <= i < |s| && inClass(s[i]) }

  const SYMBOLS := "^$*.[]{}()?\"!@#%&/\\,><':;|_~`=+-"

  predicate PasswordOk(password: string) {
    |password| >= 8
    && Has(password, (c: char) => 'A' <= c <= 'Z') && Has(password, (c: char) => 'a' <= c <= 'z')
    && Has(password, (c: char) => '0' <= c <= '9') && Has(password, (c: char) => c in SYMBOLS)
  }

  predicate Upper(c: char) { c in "ABCDEFGHIJKLMNOPQRSTUVWXYZ" }

  predicate Lower(c: char) { c in "abcdefghijklmnopqrstuvwxyz" }

  predicate Digit(c: char) { c in "0123456789" }

  /** ASCII punctuation: what is printed, is not a space, and is neither letter nor digit. */
  predicate Symbol(c: char) {
    '!' <= c <= '/' || ':' <= c <= '@' || '[' <= c <= '`' || '{' <= c <= '~'
  }

  lemma UpperIs(c: char)
    ensures Upper(c) <==> 'A' <= c <= 'Z'
  {
    var letters := "ABCDEFGHIJKLMNOPQRSTUVWXYZ";
    if 'A' <= c <= 'Z' { assert letters[c as int - 65] == c; }
  }

  lemma LowerIs(c: char)
    ensures Lower(c) <==> 'a' <= c <= 'z'
  {
    var letters := "abcdefghijklmnopqrstuvwxyz";
    if 'a' <= c <= 'z' { assert letters[c as int - 97] == c; }
  }

  lemma DigitIs(c: char)
    ensures Digit(c) <==> '0' <= c <= '9'
  {
    var digits := "0123456789";
    if '0' <= c <= '9' { assert digits[c as int - 48] == c; }
  }

  /** The pool's symbols are the punctuation characters of ASCII. */
  lemma SymbolsExactly(c: char)
    ensures c in SYMBOLS <==> Symbol(c)
  {
  }

  /** A password is accepted when it is long enough and holds a character of each of the four classes. */
  lemma PasswordExactly(password: string)
    ensures PasswordOk(password) <==>
            && |password| > 7
            && (exists c :: c in password && Upper(c)) && (exists c :: c in password && Lower(c))
            && (exists c :: c in password && Digit(c)) && (exists c :: c in password && Symbol(c))
  {
    forall c ensures (Upper(c) <==> 'A' <= c <= 'Z') && (Lower(c) <==> 'a' <= c <= 'z') {
      UpperIs(c);
      LowerIs(c);
    }
    forall c ensures (Digit(c) <==> '0' <= c <= '9') && (Symbol(c) <==> c in SYMBOLS) {
      DigitIs(c);
      SymbolsExactly(c);
    }
    HasExactly(password, (c: char) => 'A' <= c <= 'Z');
    HasExactly(password, (c: char) => 'a' <= c <= 'z');
    HasExactly(password, (c: char) => '0' <= c <= '9');
    HasExactly(password, (c: char) => c in SYMBOLS);
  }

  lemma HasExactly(s: string, inClass: char -> bool)
    ensures Has(s, inClass) <==> exists c :: c in s && inClass(c)
  {
  }

  function RoleOf(role: string): Option<Role> {
    if role == "Admin" then Some(Admin) else if role == "User" then Some(User) else None
  }

  function MakeRequest(email: string, role: string, password: string): (r: Result<Request, Error>)
    ensures r.Ok? ==> Normal(r.value.email) && PasswordOk(r.value.password)
    ensures r.Ok? <==> Normalize(email).Ok? && RoleOf(role).Some? && PasswordOk(password)
    ensures r.Err? ==> r.reason == Invalid
    ensures r.Ok? ==>
              && Ok(r.value.email) == Normalize(email) && Some(r.value.role) == RoleOf(role)
              && r.value.password == password
  {
    var address := Normalize(email);
    if address.Err? || RoleOf(role).None? || !PasswordOk(password) then Err(Invalid)
    else
      NormalizeOnce(email);
      Ok(Request(address.value, RoleOf(role).value, password))
  }

  /** The two roles and nothing else. */
  lemma RolesExactly(role: string)
    ensures RoleOf(role) == Some(Admin) <==> role == "Admin"
    ensures RoleOf(role) == Some(User) <==> role == "User"
  {
    assert "Admin"[0] != "User"[0];
  }

  // ---- the pool ------------------------------------------------------------------------------------------

  class UserPool {
    var accounts: Pool
    const accepts: string -> bool

    constructor (accepts: string -> bool)
      ensures accounts == map[] && this.accepts == accepts
    {
      accounts, this.accepts := map[], accepts;
    }

    method AdminCreateUser(email: string, customer: string, fate: Fate) returns (reply: Reply)
      modifies this
      ensures accounts == if fate.Refused? || email in old(accounts) then old(accounts)
                          else old(accounts)[email := Bare(customer)]
      ensures reply == if !fate.Done? then Fault else if email in old(accounts) then Exists else Fine
    {
      reply := if !fate.Done? then Fault else if email in accounts then Exists else Fine;
      if !fate.Refused? && email !in accounts { accounts := accounts[email := Bare(customer)]; }
    }

    method AdminAddUserToGroup(email: string, role: Role, fate: Fate) returns (reply: Reply)
      modifies this
      ensures accounts == if fate.Refused? || email !in old(accounts) then old(accounts)
                          else var had := old(accounts)[email];
                               old(accounts)[email := had.(groups := had.groups + {role})]
      ensures reply == if !fate.Done? then Fault else if email !in old(accounts) then NotFound else Fine
    {
      reply := if !fate.Done? then Fault else if email !in accounts then NotFound else Fine;
      if !fate.Refused? && email in accounts {
        accounts := accounts[email := accounts[email].(groups := accounts[email].groups + {role})];
      }
    }

    method AdminSetUserPassword(email: string, password: string, fate: Fate) returns (reply: Reply)
      modifies this
      ensures accounts == if fate.Refused? || email !in old(accounts) || !accepts(password) then old(accounts)
                          else old(accounts)[email := old(accounts)[email].(password := Some(password))]
      ensures reply == if !fate.Done? then Fault else if email !in old(accounts) then NotFound
                       else if !accepts(password) then BadPassword else Fine
    {
      reply := if !fate.Done? then Fault else if email !in accounts then NotFound
               else if !accepts(password) then BadPassword else Fine;
      if !fate.Refused? && email in accounts && accepts(password) {
        accounts := accounts[email := accounts[email].(password := Some(password))];
      }
    }

    method AdminUpdateProfile(email: string, profile: string, fate: Fate) returns (reply: Reply)
      modifies this
      ensures accounts == if fate.Refused? || email !in old(accounts) then old(accounts)
                          else old(accounts)[email := old(accounts)[email].(profile := Some(profile))]
      ensures reply == if !fate.Done? then Fault else if email !in old(accounts) then NotFound else Fine
    {
      reply := if !fate.Done? then Fault else if email !in accounts then NotFound else Fine;
      if !fate.Refused? && email in accounts {
        accounts := accounts[email := accounts[email].(profile := Some(profile))];
      }
    }

    method AdminDeleteUser(email: string, fate: Fate) returns (reply: Reply)
      modifies this
      ensures accounts == if fate.Refused? then old(accounts) else old(accounts) - {email}
      ensures reply == if !fate.Done? then Fault else if email !in old(accounts) then NotFound else Fine
    {
      reply := if !fate.Done? then Fault else if email !in accounts then NotFound else Fine;
      if !fate.Refused? { accounts := accounts - {email}; }
    }

    method AdminGetUser(email: string, answered: bool) returns (reply: Reply, account: Option<Account>)
      ensures reply == if !answered then Fault else if email in accounts then Fine else NotFound
      ensures account == if reply.Fine? then Some(accounts[email]) else None
    {
      reply := if !answered then Fault else if email in accounts then Fine else NotFound;
      account := if reply.Fine? then Some(accounts[email]) else None;
    }
  }

  function Bare(customer: string): Account { Account(Some(customer), {}, None, None) }

  // ---- what the calls come to ----------------------------------------------------------------------------

  function Whole(p: Principal, q: Request): Account { Account(Some(p.customer), {q.role}, Some(q.password), None) }

  /** The account that is left when a later step failed and could not be compensated. */
  function Leftover(accepts: string -> bool, p: Principal, q: Request, f: CreateFates): Account {
    Account(Some(p.customer), if f.group.Refused? then {} else {q.role},
            if f.group.Done? && !f.password.Refused? && accepts(q.password) then Some(q.password) else None, None)
  }

  predicate Completes(accepts: string -> bool, q: Request, f: CreateFates) {
    f.create.Done? && f.group.Done? && f.password.Done? && accepts(q.password)
  }

  function PoolAfterCreate(pool: Pool, accepts: string -> bool, p: Principal, q: Request, f: CreateFates): Pool {
    if !p.mayManage || q.email in pool || f.create.Refused? then pool
    else if f.create.Lost? then pool[q.email := Bare(p.customer)]
    else if Completes(accepts, q, f) then pool[q.email := Whole(p, q)]
    else if f.discard.Refused? then pool[q.email := Leftover(accepts, p, q, f)]
    else pool
  }

  predicate Owns(pool: Pool, p: Principal, email: string) {
    p.mayManage && email in pool && pool[email].customer == Some(p.customer)
  }

  datatype AssignFates = AssignFates(ownerRead: bool, profileRead: bool, update: Fate)

  function ActionOf(action: string): Option<ProfileLists.Action> {
    if action == "add" then Some(ProfileLists.Add)
    else if action == "remove" then Some(ProfileLists.Remove)
    else if action == "set" then Some(ProfileLists.Replace)
    else None
  }

  /** The three words and nothing else. */
  lemma ActionsExactly(action: string)
    ensures ActionOf(action) == Some(ProfileLists.Add) <==> action == "add"
    ensures ActionOf(action) == Some(ProfileLists.Remove) <==> action == "remove"
    ensures ActionOf(action) == Some(ProfileLists.Replace) <==> action == "set"
  {
    assert |"add"| == |"set"| == 3 && "add"[0] != "set"[0] && |"remove"| == 6;
  }

  predicate ProfileIdOk(id: string) { Strings.Strip(id) != "" && ',' !in id }

  predicate AssignmentOk(email: string, id: string, action: string) {
    Normalize(email).Ok? && ProfileIdOk(id) && ActionOf(action).Some?
  }

  predicate AssignsTo(pool: Pool, p: Principal, email: string, id: string, action: string, f: AssignFates) {
    && AssignmentOk(email, id, action)
    && Owns(pool, p, Normalize(email).value) && f.ownerRead && f.profileRead
  }

  function PoolAfterAssign(pool: Pool, p: Principal, email: string, id: string, action: string, f: AssignFates): Pool {
    if !AssignsTo(pool, p, email, id, action, f) || f.update.Refused? then pool
    else
      var e := Normalize(email).value;
      pool[e := pool[e].(profile := Some(ProfileLists.Reassigned(ActionOf(action).value, pool[e].profile, id)))]
  }

  function PoolAfterDelete(pool: Pool, p: Principal, email: string, ownerRead: bool, delete: Fate): Pool {
    if '@' in email && Owns(pool, p, email) && ownerRead && !delete.Refused? then pool - {email} else pool
  }

  class UserManagementService {
    const pool: UserPool

    constructor (pool: UserPool)
      ensures this.pool == pool
    {
      this.pool := pool;
    }

    method CreateUser(p: Principal, q: Request, f: CreateFates) returns (r: Result<Request, Error>)
      modifies pool
      ensures pool.accounts == PoolAfterCreate(old(pool.accounts), pool.accepts, p, q, f)
      ensures r == Ok(q) <==> p.mayManage && q.email !in old(pool.accounts) && Completes(pool.accepts, q, f)
      ensures r.Ok? ==> r == Ok(q)
      ensures r == Err(Denied) <==> !p.mayManage
      ensures r == Err(AlreadyExists) <==> p.mayManage && f.create.Done? && q.email in old(pool.accounts)
      ensures r == Err(WeakPassword) <==>
              && p.mayManage && q.email !in old(pool.accounts)
              && f.create.Done? && f.group.Done? && f.password.Done? && !pool.accepts(q.password)
      ensures r.Err? ==> r.reason in {Denied, AlreadyExists, WeakPassword, Failure}
    {
      if !p.mayManage { return Err(Denied); }
      var reply := pool.AdminCreateUser(q.email, p.customer, f.create);
      if reply != Fine { return Err(if reply.Exists? then AlreadyExists else Failure); }
      assert {} + {q.role} == {q.role};
      reply := pool.AdminAddUserToGroup(q.email, q.role, f.group);
      if reply == Fine { reply := pool.AdminSetUserPassword(q.email, q.password, f.password); }
      if reply != Fine {
        assert pool.accounts == old(pool.accounts)[q.email := Leftover(pool.accepts, p, q, f)];
        DiscardHalfCreated(q.email, f.discard);
        assert !f.discard.Refused? ==> pool.accounts == old(pool.accounts);
        return Err(if reply.BadPassword? then WeakPassword else Failure);
      }
      r := Ok(q);
    }

    method DiscardHalfCreated(email: string, fate: Fate)
      modifies pool
      ensures pool.accounts == if fate.Refused? then old(pool.accounts) else old(pool.accounts) - {email}
    {
      var _ := pool.AdminDeleteUser(email, fate);
    }

    method RequireSameCustomer(p: Principal, email: string, answered: bool) returns (refusal: Option<Error>)
      ensures refusal.None? <==> answered && email in pool.accounts && pool.accounts[email].customer == Some(p.customer)
      ensures refusal == Some(Failure) <==> !answered
      ensures refusal.Some? ==> refusal.value in {Failure, Denied}
    {
      var reply, account := pool.AdminGetUser(email, answered);
      if reply == Fault { return Some(Failure); }
      if reply == NotFound { return Some(Denied); }
      refusal := if account.value.customer == Some(p.customer) then None else Some(Denied);
    }

    method AssignProfile(p: Principal, email: string, id: string, action: string, f: AssignFates)
      returns (r: Result<seq<string>, Error>)
      modifies pool
      ensures pool.accounts == PoolAfterAssign(old(pool.accounts), p, email, id, action, f)
      ensures r.Ok? <==> AssignsTo(old(pool.accounts), p, email, id, action, f) && f.update.Done?
      ensures r.Ok? ==> r.value == ProfileLists.Profiles(pool.accounts[Normalize(email).value].profile)
      ensures r == Err(Invalid) <==> p.mayManage && !AssignmentOk(email, id, action)
      ensures r == Err(Denied) <==>
              || !p.mayManage
              || (&& AssignmentOk(email, id, action) && f.ownerRead
                  && !Owns(old(pool.accounts), p, Normalize(email).value))
      ensures r.Err? ==> r.reason in {Denied, Invalid, Failure}
    {
      if !p.mayManage { return Err(Denied); }
      var normal := Normalize(email);
      if normal.Err? { return Err(Invalid); }
      if !ProfileIdOk(id) || ActionOf(action).None? { return Err(Invalid); }
      assert AssignmentOk(email, id, action);
      assert AssignsTo(pool.accounts, p, email, id, action, f) <==>
             Owns(pool.accounts, p, normal.value) && f.ownerRead && f.profileRead;
      r := Reassign(p, normal.value, ActionOf(action).value, id, f);
    }

    /** Read, apply and store, once the request itself is in order. */
    method Reassign(p: Principal, email: string, action: ProfileLists.Action, id: string, f: AssignFates)
      returns (r: Result<seq<string>, Error>)
      requires p.mayManage && ProfileIdOk(id)
      modifies pool
      ensures var may := Owns(old(pool.accounts), p, email) && f.ownerRead && f.profileRead;
              && (r.Ok? <==> may && f.update.Done?)
              && pool.accounts ==
                 if may && !f.update.Refused? then
                   old(pool.accounts)[email := old(pool.accounts)[email].(
                     profile := Some(ProfileLists.Reassigned(action, old(pool.accounts)[email].profile, id)))]
                 else old(pool.accounts)
      ensures r.Ok? ==> r.value == ProfileLists.Profiles(pool.accounts[email].profile)
      ensures r == Err(Denied) <==> f.ownerRead && !Owns(old(pool.accounts), p, email)
      ensures r.Err? ==> r.reason in {Denied, Failure}
    {
      var refusal := RequireSameCustomer(p, email, f.ownerRead);
      if refusal.Some? { return Err(refusal.value); }
      var reply, account := pool.AdminGetUser(email, f.profileRead);
      if reply != Fine { return Err(Failure); }
      var current := ProfileLists.SplitProfiles(account.value.profile);
      var profiles := ProfileLists.Apply(action, current, Strings.Strip(id));
      ProfileLists.AssignmentReadsBack(action, account.value.profile, id);
      reply := pool.AdminUpdateProfile(email, Strings.Join(profiles, ','), f.update);
      r := if reply == Fine then Ok(profiles) else Err(Failure);
    }

    method DeleteUser(p: Principal, email: string, ownerRead: bool, delete: Fate) returns (r: Result<string, Error>)
      modifies pool
      ensures pool.accounts == PoolAfterDelete(old(pool.accounts), p, email, ownerRead, delete)
      ensures r == Ok(email) <==> '@' in email && Owns(old(pool.accounts), p, email) && ownerRead && delete.Done?
      ensures r == Err(Denied) <==>
              !p.mayManage || ('@' in email && ownerRead && !Owns(old(pool.accounts), p, email))
      ensures r == Err(Invalid) <==> p.mayManage && '@' !in email
      ensures r.Ok? ==> r == Ok(email)
      ensures r.Err? ==> r.reason in {Denied, Invalid, Failure}
    {
      if !p.mayManage { return Err(Denied); }
      if '@' !in email { return Err(Invalid); }
      var refusal := RequireSameCustomer(p, email, ownerRead);
      if refusal.Some? { return Err(refusal.value); }
      var reply := pool.AdminDeleteUser(email, delete);
      r := if reply == Fine then Ok(email) else Err(Failure);
    }
  }

  // ---- all or nothing ------------------------------------------------------------------------------------

  /** A create leaves the pool as it was or with the complete account, except in exactly two ways: the
      first answer was lost, or a later step failed short of the password and the discard was refused. */
  lemma AllOrNothingExactly(pool: Pool, accepts: string -> bool, p: Principal, q: Request, f: CreateFates)
    ensures var after := PoolAfterCreate(pool, accepts, p, q, f);
            (after == pool || after == pool[q.email := Whole(p, q)]) <==>
            !p.mayManage || q.email in pool || f.create.Refused?
            || (f.create.Done?
                && (!f.discard.Refused? || (f.group.Done? && !f.password.Refused? && accepts(q.password))))
    ensures PoolAfterCreate(pool, accepts, p, q, f) - {q.email} == pool - {q.email}
  {
    var after, full := PoolAfterCreate(pool, accepts, p, q, f), pool[q.email := Whole(p, q)];
    if q.email !in pool && q.email in after {
      assert after[q.email] != Whole(p, q) ==> after[q.email] != full[q.email];
    }
  }

  // ---- any sequence of calls -----------------------------------------------------------------------------

  datatype Call =
    | Create(p: Principal, request: Request, fates: CreateFates)
    | Assign(p: Principal, email: string, id: string, action: string, assignFates: AssignFates)
    | Delete(p: Principal, email: string, ownerRead: bool, delete: Fate)

  function After(pool: Pool, accepts: string -> bool, c: Call): Pool {
    match c
    case Create(p, q, f) => PoolAfterCreate(pool, accepts, p, q, f)
    case Assign(p, email, id, action, f) => PoolAfterAssign(pool, p, email, id, action, f)
    case Delete(p, email, ownerRead, delete) => PoolAfterDelete(pool, p, email, ownerRead, delete)
  }

  function Run(pool: Pool, accepts: string -> bool, calls: seq<Call>): Pool {
    if calls == [] then pool
    else After(Run(pool, accepts, calls[..|calls| - 1]), accepts, calls[|calls| - 1])
  }

  function Accounts(pool: Pool, customer: string): Pool {
    map e | e in pool && pool[e].customer == Some(customer) :: pool[e]
  }

  /** Only this entry differs, and the customer owns it neither before nor after. */
  ghost predicate ElsewhereSame(pool: Pool, after: Pool, email: string, customer: string) {
    && (forall e :: e != email ==> (e in pool <==> e in after) && (e in pool && e in after ==> pool[e] == after[e]))
    && (email in pool && pool[email].customer == Some(customer) ==> email in after && after[email] == pool[email])
    && (email in after && after[email].customer == Some(customer) ==> email in pool && after[email] == pool[email])
  }

  lemma AccountsSame(pool: Pool, after: Pool, email: string, customer: string)
    requires ElsewhereSame(pool, after, email, customer)
    ensures Accounts(after, customer) == Accounts(pool, customer)
  {
  }

  lemma ForeignCreate(pool: Pool, accepts: string -> bool, p: Principal, q: Request, f: CreateFates, customer: string)
    requires p.customer != customer
    ensures ElsewhereSame(pool, PoolAfterCreate(pool, accepts, p, q, f), q.email, customer)
  {
  }

  lemma ForeignAssign(pool: Pool, p: Principal, email: string, id: string, action: string, f: AssignFates,
                      customer: string)
    requires p.customer != customer
    ensures Accounts(PoolAfterAssign(pool, p, email, id, action, f), customer) == Accounts(pool, customer)
  {
    if AssignsTo(pool, p, email, id, action, f) {
      AccountsSame(pool, PoolAfterAssign(pool, p, email, id, action, f), Normalize(email).value, customer);
    }
  }

  lemma ForeignStep(pool: Pool, accepts: string -> bool, c: Call, customer: string)
    requires c.p.customer != customer
    ensures Accounts(After(pool, accepts, c), customer) == Accounts(pool, customer)
  {
    match c
    case Create(p, q, f) =>
      ForeignCreate(pool, accepts, p, q, f, customer);
      AccountsSame(pool, After(pool, accepts, c), q.email, customer);
    case Assign(p, email, id, action, f) => ForeignAssign(pool, p, email, id, action, f, customer);
    case Delete(p, email, _, _) => AccountsSame(pool, After(pool, accepts, c), email, customer);
  }

  /** Over any calls with any failures, a customer's accounts change only through that customer's calls. */
  lemma {:induction false} ForeignAccountsStay(pool: Pool, accepts: string -> bool, calls: seq<Call>, customer: string)
    requires forall i :: 0 <= i < |calls| ==> calls[i].p.customer != customer
    ensures Accounts(Run(pool, accepts, calls), customer) == Accounts(pool, customer)
  {
    if calls != [] {
      var n := |calls| - 1;
      ForeignAccountsStay(pool, accepts, calls[..n], customer);
      ForeignStep(Run(pool, accepts, calls[..n]), accepts, calls[n], customer);
    }
  }

  ghost predicate Every(pool: Pool, holds: (string, Account) -> bool) {
    forall e :: e in pool ==> holds(e, pool[e])
  }

  lemma EveryUpdated(pool: Pool, holds: (string, Account) -> bool, e: string, a: Account)
    requires Every(pool, holds) && holds(e, a)
    ensures Every(pool[e := a], holds)
  {
  }

  lemma EveryRemoved(pool: Pool, holds: (string, Account) -> bool, e: string)
    requires Every(pool, holds)
    ensures Every(pool - {e}, holds)
  {
  }

  /** User names are normalised, and a stored profile list is spelled the way it reads back. */
  predicate TidyEntry(e: string, a: Account) {
    Normal(e) && (a.profile.Some? ==> Strings.Join(ProfileLists.Profiles(a.profile), ',') == a.profile.value)
  }

  ghost predicate Tidy(pool: Pool) { Every(pool, TidyEntry) }

  lemma CreateKeeps(pool: Pool, accepts: string -> bool, p: Principal, q: Request, f: CreateFates,
                    holds: (string, Account) -> bool)
    requires Every(pool, holds) && holds(q.email, Bare(p.customer)) && holds(q.email, Whole(p, q))
    requires holds(q.email, Leftover(accepts, p, q, f))
    ensures Every(PoolAfterCreate(pool, accepts, p, q, f), holds)
  {
    EveryUpdated(pool, holds, q.email, Bare(p.customer));
    EveryUpdated(pool, holds, q.email, Whole(p, q));
    EveryUpdated(pool, holds, q.email, Leftover(accepts, p, q, f));
  }

  lemma AssignKeeps(pool: Pool, p: Principal, email: string, id: string, action: string, f: AssignFates,
                    holds: (string, Account) -> bool)
    requires Every(pool, holds) && AssignsTo(pool, p, email, id, action, f)
    requires var e, act := Normalize(email).value, ActionOf(action).value;
             holds(e, pool[e].(profile := Some(ProfileLists.Reassigned(act, pool[e].profile, id))))
    ensures Every(PoolAfterAssign(pool, p, email, id, action, f), holds)
  {
    var e, act := Normalize(email).value, ActionOf(action).value;
    EveryUpdated(pool, holds, e, pool[e].(profile := Some(ProfileLists.Reassigned(act, pool[e].profile, id))));
  }

  lemma TidyNew(e: string, a: Account)
    requires Normal(e) && a.profile.None?
    ensures TidyEntry(e, a)
  {
  }

  lemma TidyCreate(pool: Pool, accepts: string -> bool, p: Principal, q: Request, f: CreateFates)
    requires Tidy(pool) && Normal(q.email)
    ensures Tidy(PoolAfterCreate(pool, accepts, p, q, f))
  {
    TidyNew(q.email, Bare(p.customer));
    TidyNew(q.email, Whole(p, q));
    TidyNew(q.email, Leftover(accepts, p, q, f));
    CreateKeeps(pool, accepts, p, q, f, TidyEntry);
  }

  lemma TidyReassigned(e: string, a: Account, action: ProfileLists.Action, id: string)
    requires Normal(e) && ProfileIdOk(id)
    ensures TidyEntry(e, a.(profile := Some(ProfileLists.Reassigned(action, a.profile, id))))
  {
    ProfileLists.AssignmentReadsBack(action, a.profile, id);
  }

  lemma TidyAssign(pool: Pool, p: Principal, email: string, id: string, action: string, f: AssignFates)
    requires Tidy(pool)
    ensures Tidy(PoolAfterAssign(pool, p, email, id, action, f))
  {
    if AssignsTo(pool, p, email, id, action, f) {
      NormalizeOnce(email);
      var e := Normalize(email).value;
      TidyReassigned(e, pool[e], ActionOf(action).value, id);
      AssignKeeps(pool, p, email, id, action, f, TidyEntry);
    }
  }

  /** Requests come from the constructor that normalises their address. */
  predicate Sound(c: Call) { c.Create? ==> Normal(c.request.email) }

  lemma TidyStep(pool: Pool, accepts: string -> bool, c: Call)
    requires Tidy(pool) && Sound(c)
    ensures Tidy(After(pool, accepts, c))
  {
    match c
    case Create(p, q, f) => TidyCreate(pool, accepts, p, q, f);
    case Assign(p, email, id, action, f) => TidyAssign(pool, p, email, id, action, f);
    case Delete(p, email, _, _) => EveryRemoved(pool, TidyEntry, email);
  }

  lemma {:induction false} PoolStaysTidy(pool: Pool, accepts: string -> bool, calls: seq<Call>)
    requires Tidy(pool) && forall i :: 0 <= i < |calls| ==> Sound(calls[i])
    ensures Tidy(Run(pool, accepts, calls))
  {
    if calls != [] {
      var n := |calls| - 1;
      PoolStaysTidy(pool, accepts, calls[..n]);
      TidyStep(Run(pool, accepts, calls[..n]), accepts, calls[n]);
    }
  }

  lemma TidyNames(pool: Pool, e: string)
    requires Tidy(pool) && e in pool
    ensures Normal(e)
  {
    EveryAt(pool, TidyEntry, e);
  }

  lemma EveryAt(pool: Pool, holds: (string, Account) -> bool, e: string)
    requires Every(pool, holds) && e in pool
    ensures holds(e, pool[e])
  {
  }

  /** Deleting takes the address as it is spelled: in a tidy pool a spelling that creation and assignment
      would normalise reaches nobody, and the call changes nothing. */
  lemma DeleteNeedsTheNormalSpelling(pool: Pool, p: Principal, email: string, ownerRead: bool, delete: Fate)
    requires Tidy(pool)
    ensures PoolAfterDelete(pool, p, email, ownerRead, delete) != pool <==>
            Normal(email) && Owns(pool, p, email) && ownerRead && !delete.Refused?
  {
    DeleteChanges(pool, p, email, ownerRead, delete);
    if email in pool {
      TidyNames(pool, email);
      NormalHasAt(email);
    }
  }

  lemma NormalHasAt(email: string)
    requires Normal(email)
    ensures '@' in email
  {
  }

  lemma DeleteChanges(pool: Pool, p: Principal, email: string, ownerRead: bool, delete: Fate)
    ensures PoolAfterDelete(pool, p, email, ownerRead, delete) != pool <==>
            '@' in email && Owns(pool, p, email) && ownerRead && !delete.Refused?
  {
    assert email !in pool - {email};
  }

  lemma LowerMixed()
    ensures Sequences.Map(LowerChar, "J@x") == "j@x"
  {
    var lower := Sequences.Map(LowerChar, "J@x");
    assert lower[0] == 'j' && lower[1] == '@' && lower[2] == 'x';
  }

  lemma MixedCase()
    ensures Normalize("J@x") == Ok("j@x") && "J@x" != "j@x"
  {
    assert "J@x"[1] == '@' && Strings.Trimmed("J@x");
    LowerMixed();
    assert "J@x"[0] != "j@x"[0];
  }

  lemma PlainProfile(id: string)
    requires |id| == 1 && id[0] != ',' && !Strings.IsSpace(id[0])
    ensures ProfileIdOk(id)
  {
    assert Strings.Strip(id) == id;
  }

  lemma OtherSpellingMisses(pool: Pool, p: Principal, spelled: string, email: string, id: string, action: string)
    requires p.mayManage && pool == map[email := Bare(p.customer)]
    requires Normalize(spelled) == Ok(email) && spelled != email && ProfileIdOk(id) && ActionOf(action).Some?
    ensures AssignsTo(pool, p, spelled, id, action, AssignFates(true, true, Done))
    ensures PoolAfterDelete(pool, p, spelled, true, Done) == pool
  {
  }

  /** The same account is created and assigned under a spelling that does not delete it. */
  lemma UnnormalisedDeleteMisses(pool: Pool, p: Principal)
    requires p.mayManage && pool == map["j@x" := Bare(p.customer)]
    ensures AssignsTo(pool, p, "J@x", "a", "add", AssignFates(true, true, Done))
    ensures PoolAfterDelete(pool, p, "J@x", true, Done) == pool
  {
    MixedCase();
    PlainProfile("a");
    OtherSpellingMisses(pool, p, "J@x", "j@x", "a", "add");
  }
}
