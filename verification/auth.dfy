/**
 * Signing in and out: reading the bearer token of a request, the check that
 * an e-mail belongs to an authorised Google domain, and the guards of the
 * front-panel (Google) and admin-panel (password) logins.
 */
module Auth {
  import opened Wrappers
  import Text
  import Collabs
  import Accounts
  import Roles

  // ---------------------------------------------------------------- bearer token

  /** The scheme prefix, compared after upper-casing. */
  const BEARER: string := "BEARER "

  /**
   * `ExtractToken`: what follows the first seven characters of the
   * `Authorization` header when there is something after them and they read
   * "Bearer " in any case; "" otherwise.
   */
  function ExtractToken(header: string): (r: string)
    ensures r != "" ==> |header| > 7 && Text.ToUpper(header[..7]) == BEARER && header == header[..7] + r
    ensures |header| > 7 && Text.ToUpper(header[..7]) == BEARER ==> r == header[7..]
    ensures |header| <= 7 || Text.ToUpper(header[..7]) != BEARER ==> r == ""
  {
    if |header| > 7 && Text.ToUpper(header[..7]) == BEARER then header[7..] else ""
  }

  /** A token behind the scheme, written in any case, is read back whole. */
  lemma ExtractBearer(scheme: string, token: string)
    requires |scheme| == 7 && Text.ToUpper(scheme) == BEARER && token != ""
    ensures ExtractToken(scheme + token) == token
  {
    assert (scheme + token)[..7] == scheme;
    assert (scheme + token)[7..] == token;
  }

  /** "Bearer " and "bearer " are both the scheme, and the scheme alone carries no token. */
  lemma BearerSpellings(token: string)
    requires token != ""
    ensures ExtractToken("Bearer " + token) == token
    ensures ExtractToken("bearer " + token) == token
    ensures ExtractToken("Bearer ") == ""
  {
    assert Text.ToUpper("Bearer ") == BEARER;
    assert Text.ToUpper("bearer ") == BEARER;
    ExtractBearer("Bearer ", token);
    ExtractBearer("bearer ", token);
  }

  // ---------------------------------------------------------------- authorised domains

  /** A value of the `authorized_gmail` configuration map. */
  datatype ConfigValue = BoolValue(b: bool) | OtherValue

  /**
   * `ValidateUserGmailProvider`: the address splits on "@" into exactly two
   * parts and the second is a domain the configuration maps to `true`.
   */
  function GmailAuthorized(email: string, authorized: map<string, ConfigValue>): (ok: bool) {
    var parts := Text.Split(email, '@');
    |parts| == 2 && parts[1] in authorized && authorized[parts[1]] == BoolValue(true)
  }

  /** An address with one "@" is accepted exactly when its domain is configured as `true`. */
  lemma AddressWithOneAt(local: string, domain: string, authorized: map<string, ConfigValue>)
    requires '@' !in local && '@' !in domain
    ensures GmailAuthorized(local + ['@'] + domain, authorized)
      <==> domain in authorized && authorized[domain] == BoolValue(true)
  {
    Text.SplitConcat(local, '@', domain);
    Text.SplitNoSeparator(domain, '@');
  }

  /** An accepted address has exactly one "@", and the domain after it is configured as `true`. */
  lemma {:induction false} AuthorizedHasOneAt(email: string, authorized: map<string, ConfigValue>)
    requires GmailAuthorized(email, authorized)
    ensures var parts := Text.Split(email, '@');
      email == parts[0] + ['@'] + parts[1] && authorized[parts[1]] == BoolValue(true)
    ensures multiset(email)['@'] == 1
  {
    var parts := Text.Split(email, '@');
    Text.JoinSplit(email, '@');
    assert parts[1..] == [parts[1]];
    assert Text.Join(parts, '@') == parts[0] + ['@'] + parts[1];
    assert '@' !in parts[0] && '@' !in parts[1];
    assert multiset(parts[0])['@'] == 0 && multiset(parts[1])['@'] == 0;
  }

  // ---------------------------------------------------------------- front-panel login

  /** What Google's token check answered (the check itself is a call to Google). */
  datatype GoogleCheck = GoogleAccepted | InvalidToken | CredentialsMismatch | CheckFailed

  predicate FrontFieldsGiven(email: string, name: string, profileUrl: string, accessToken: string) {
    email != "" && name != "" && profileUrl != "" && accessToken != ""
  }

  /** The checks made before the user table is read: the fields, the domain and Google's answer. */
  predicate FrontChecksPass(email: string, name: string, profileUrl: string, accessToken: string,
                            authorized: map<string, ConfigValue>, google: GoogleCheck) {
    FrontFieldsGiven(email, name, profileUrl, accessToken) && GmailAuthorized(email, authorized) && google == GoogleAccepted
  }

  /**
   * Why `HandleFrontPanelLogin` refuses, or OK.  In order: every field is
   * given, the domain is authorised, Google accepts the token; then an
   * unknown user is registered, a known one must be active and get a token.
   */
  function FrontLoginVerdict(email: string, name: string, profileUrl: string, accessToken: string,
                             authorized: map<string, ConfigValue>, google: GoogleCheck,
                             found: Option<Accounts.User>, tokenUpdated: bool): (code: int)
    ensures code in {OK, BAD_REQUEST, UNAUTHORIZED, INTERNAL_ERROR}
    ensures code == BAD_REQUEST <==> !FrontFieldsGiven(email, name, profileUrl, accessToken)
    ensures code == OK <==> FrontChecksPass(email, name, profileUrl, accessToken, authorized, google) && (found.None? || (found.value.status && tokenUpdated))
    ensures found.Some? && !found.value.status ==> code != OK
  {
    if !FrontFieldsGiven(email, name, profileUrl, accessToken) then BAD_REQUEST
    else if !GmailAuthorized(email, authorized) then UNAUTHORIZED
    else if google == InvalidToken || google == CredentialsMismatch then UNAUTHORIZED
    else if google == CheckFailed then INTERNAL_ERROR
    else if found.None? then OK
    else if !found.value.status then UNAUTHORIZED
    else if !tokenUpdated then INTERNAL_ERROR
    else OK
  }

  /** The row `registerUser` stores: no password, and active by the column's default. */
  function Registered(email: string, name: string, profileUrl: string): Accounts.User {
    Accounts.User(name, email, "", profileUrl, true)
  }

  function UserOf(users: map<int, Accounts.User>, id: Option<int>): Option<Accounts.User> {
    if id.Some? && id.value in users then Some(users[id.value]) else None
  }

  /**
   * `HandleFrontPanelLogin`.  `google` is Google's answer, `newId` the id
   * the database gives a new user, and `tokenUpdated` whether the token
   * refresh of a known user succeeded.  A new user is stored with the User
   * role; a known active user's name and picture follow Google's, even when
   * the token refresh then fails.
   */
  method HandleFrontPanelLogin(adb: Accounts.AccountDb, rdb: Roles.RoleDb, ids: Roles.RoleIds,
                               authorized: map<string, ConfigValue>, email: string, name: string,
                               profileUrl: string, accessToken: string, google: GoogleCheck,
                               newId: int, tokenUpdated: bool)
    returns (code: int, userId: Option<int>)
    requires newId !in adb.users
    modifies adb`users, rdb`rows
    ensures code == FrontLoginVerdict(email, name, profileUrl, accessToken, authorized, google,
                                      UserOf(old(adb.users), Accounts.UserByEmail(old(adb.users), email)), tokenUpdated)
    ensures code == OK ==> userId.Some?
    ensures code != OK ==> userId.None?
    ensures !FrontChecksPass(email, name, profileUrl, accessToken, authorized, google) ==>
      adb.users == old(adb.users) && rdb.rows == old(rdb.rows)
    ensures FrontChecksPass(email, name, profileUrl, accessToken, authorized, google) && Accounts.UserByEmail(old(adb.users), email).None? ==>
      adb.users == old(adb.users)[newId := Registered(email, name, profileUrl)]
      && rdb.rows == old(rdb.rows) + [Roles.UserRole(newId, ids.user)] && userId == Some(newId)
    ensures FrontChecksPass(email, name, profileUrl, accessToken, authorized, google) && Accounts.UserByEmail(old(adb.users), email).Some? ==>
      var id := Accounts.UserByEmail(old(adb.users), email).value;
      rdb.rows == old(rdb.rows)
      && (old(adb.users)[id].status ==> adb.users == old(adb.users)[id := old(adb.users)[id].(name := name, profileImg := profileUrl)])
      && (!old(adb.users)[id].status ==> adb.users == old(adb.users))
      && (code == OK ==> userId == Some(id))
  {
    if !FrontChecksPass(email, name, profileUrl, accessToken, authorized, google) {
      code := FrontLoginVerdict(email, name, profileUrl, accessToken, authorized, google, None, tokenUpdated);
      return code, None;
    }
    var found := adb.FindUserByEmail(email);
    if found.None? {
      adb.users := adb.users[newId := Registered(email, name, profileUrl)];
      rdb.Assign(newId, ids.user);
      return OK, Some(newId);
    }
    var id := found.value;
    var user := adb.users[id];
    if !user.status {
      return UNAUTHORIZED, None;
    }
    if user.name != name {
      adb.users := adb.users[id := adb.users[id].(name := name)];
    }
    if user.profileImg != profileUrl {
      adb.users := adb.users[id := adb.users[id].(profileImg := profileUrl)];
    }
    assert adb.users == old(adb.users)[id := user.(name := name, profileImg := profileUrl)];
    if !tokenUpdated {
      return INTERNAL_ERROR, None;
    }
    return OK, Some(id);
  }

  /** A user the login just registered is found by e-mail, active, and let in on the next login. */
  lemma RegisteredUserLogsInAgain(users: map<int, Accounts.User>, newId: int, email: string, name: string,
                                  profileUrl: string, accessToken: string, authorized: map<string, ConfigValue>)
    requires Accounts.UserByEmail(users, email).None? && newId !in users
    requires FrontChecksPass(email, name, profileUrl, accessToken, authorized, GoogleAccepted)
    ensures var users' := users[newId := Registered(email, name, profileUrl)];
      Accounts.UserByEmail(users', email) == Some(newId)
      && FrontLoginVerdict(email, name, profileUrl, accessToken, authorized, GoogleAccepted,
                           UserOf(users', Accounts.UserByEmail(users', email)), true) == OK
  {
    var users' := users[newId := Registered(email, name, profileUrl)];
    assert forall x :: x in users ==> users[x].email != email;
    assert Accounts.IdsWithEmail(users', email) == {newId};
    var least := Collabs.Least(Accounts.IdsWithEmail(users', email));
    assert least == newId;
  }

  // ---------------------------------------------------------------- admin-panel login

  /** The outcome of the admin login's checks, the first failing one named. */
  datatype AdminCheck = MissingFields | UnknownUser | NotAdmin | Inactive | WrongPassword | Accepted

  /** Whether the user found holds the Admin or the Super Admin role. */
  predicate AdminFound(ids: Roles.RoleIds, rows: seq<Roles.UserRole>, found: Option<int>) {
    found.Some? && (Roles.IsAdmin(ids, rows, found.value) || Roles.IsSuperAdmin(ids, rows, found.value))
  }

  /**
   * `HandleAdminPanelLogin`'s guards, in order: both fields, a known user,
   * an admin role, an active account, a password that verifies against the
   * stored hash (`verify` is the hash check).
   */
  function AdminLoginCheck(email: string, password: string, found: Option<Accounts.User>, admin: bool,
                           verify: (string, string) -> bool): (r: AdminCheck)
    ensures r == Accepted ==> found.Some?
    ensures r == Accepted <==> email != "" && password != "" && found.Some? && admin && found.value.status && verify(found.value.password, password)
    ensures r == MissingFields <==> email == "" || password == ""
    ensures r == NotAdmin ==> found.Some?
    ensures r == Inactive ==> found.Some? && admin
    ensures r == WrongPassword ==> found.Some? && admin && found.value.status
  {
    if email == "" || password == "" then MissingFields
    else if found.None? then UnknownUser
    else if !admin then NotAdmin
    else if !found.value.status then Inactive
    else if !verify(found.value.password, password) then WrongPassword
    else Accepted
  }

  /** The status code of a check: 400 for missing fields, 401 for every other refusal. */
  function AdminLoginCode(r: AdminCheck): (code: int)
    ensures code == OK <==> r == Accepted
    ensures code == BAD_REQUEST <==> r == MissingFields
  {
    match r
    case MissingFields => BAD_REQUEST
    case Accepted => OK
    case _ => UNAUTHORIZED
  }

  /**
   * `HandleAdminPanelLogin`: the checks, then whether the admin has been
   * through on-boarding (false without a reset row) and the picture to show
   * (the configured default when the user has none).
   */
  method HandleAdminPanelLogin(adb: Accounts.AccountDb, rows: seq<Roles.UserRole>, ids: Roles.RoleIds,
                               email: string, password: string, verify: (string, string) -> bool, defaultImg: string)
    returns (r: AdminCheck, code: int, boarded: bool, profileImg: string)
    ensures var found := Accounts.UserByEmail(adb.users, email);
      r == AdminLoginCheck(email, password, UserOf(adb.users, found), AdminFound(ids, rows, found), verify)
    ensures code == AdminLoginCode(r)
    ensures r == Accepted ==> Accounts.UserByEmail(adb.users, email).Some?
    ensures r == Accepted && Accounts.UserByEmail(adb.users, email).Some? ==>
      var id := Accounts.UserByEmail(adb.users, email).value;
      boarded == (id in adb.resets && adb.resets[id].boarded)
      && profileImg == (if adb.users[id].profileImg == "" then defaultImg else adb.users[id].profileImg)
  {
    boarded, profileImg := false, "";
    if email == "" || password == "" {
      r := MissingFields;
      return r, AdminLoginCode(r), false, "";
    }
    var found := adb.FindUserByEmail(email);
    var admin := found.Some? && (Roles.IsAdmin(ids, rows, found.value) || Roles.IsSuperAdmin(ids, rows, found.value));
    r := AdminLoginCheck(email, password, UserOf(adb.users, found), admin, verify);
    code := AdminLoginCode(r);
    if r != Accepted {
      return;
    }
    var id := found.value;
    boarded := id in adb.resets && adb.resets[id].boarded;
    profileImg := if adb.users[id].profileImg == "" then defaultImg else adb.users[id].profileImg;
  }

  /** A disabled account never gets into the admin panel, whatever the password. */
  lemma DisabledAdminRefused(email: string, password: string, user: Accounts.User, admin: bool,
                             verify: (string, string) -> bool)
    requires !user.status
    ensures AdminLoginCheck(email, password, Some(user), admin, verify) != Accepted
    ensures email != "" && password != "" && admin ==> AdminLoginCheck(email, password, Some(user), admin, verify) == Inactive
  {
  }

  // ---------------------------------------------------------------- logout

  /**
   * `HandleLogout`: without a bearer token, 400; a token whose claims do
   * not parse (`owner` None), 500; otherwise every token row of the owner
   * is cleared.
   */
  method HandleLogout(adb: Accounts.AccountDb, header: string, owner: Option<int>, now: int) returns (code: int)
    modifies adb`tokens
    ensures ExtractToken(header) == "" ==> code == BAD_REQUEST
    ensures ExtractToken(header) != "" && owner.None? ==> code == INTERNAL_ERROR
    ensures code != OK ==> adb.tokens == old(adb.tokens)
    ensures code == OK <==> ExtractToken(header) != "" && owner.Some?
    ensures code == OK && owner.Some? ==> adb.tokens == Accounts.Cleared(old(adb.tokens), owner.value, now)
  {
    var token := ExtractToken(header);
    if token == "" {
      return BAD_REQUEST;
    }
    if owner.None? {
      return INTERNAL_ERROR;
    }
    adb.ClearApiTokenOfUser(owner.value, now);
    return OK;
  }
}
