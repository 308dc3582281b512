/** Login, logout and token refresh (src/resources/user.py) with the revocation check
    of src/app.py. Password hashing is a foreign call and is a parameter here; token
    encoding and signing are not modelled, a token is its claims. */
module UserResources {
  import opened Wrappers
  import opened Lookup

  /** The columns of `blog_user` the login decision reads. */
  datatype User = User(id: nat, username: string, passwordHash: string, active: bool)

  /** The claims of an issued token. */
  datatype Token =
    | AccessToken(identity: nat, isFresh: bool)
    | RefreshToken(identity: nat)

  datatype Body =
    | Tokens(access: Token, refresh: Token)
    | AccessOnly(access: Token)
    | Message(text: string)

  datatype Response = Response(body: Body, status: nat)

  const InvalidCredentials := "Invalid username or password"
  const LoggedOut := "User successfully logged out"

  function NotActive(username: string): string
  {
    "User " + username + " is not active"
  }

  /** `UserModel.find_by_username` (src/models/user.py:29-31): exact match, first row. */
  function FindByUsername(users: seq<User>, username: string): (r: Option<User>)
    ensures r.Some? ==> r.value in users && r.value.username == username
    ensures r.None? <==> forall i :: 0 <= i < |users| ==> users[i].username != username
  {
    match FirstIndex(users, (u: User) => u.username == username)
    case None => None
    case Some(k) => Some(users[k])
  }

  /** `UserLogin.post` (src/resources/user.py:20-34). `checkPassword(plain, hash)`
      stands for bcrypt's verification. */
  function UserLoginPost(users: seq<User>, checkPassword: (string, string) -> bool,
                         username: string, password: string): (r: Response)
    ensures r.status in {200, 400, 401}
    ensures r.status == 401 <==>
      FindByUsername(users, username).None? || !checkPassword(password, FindByUsername(users, username).value.passwordHash)
    ensures r.status == 401 ==> r.body == Message(InvalidCredentials)
    ensures r.status != 401 ==>
      var u := FindByUsername(users, username).value;
      && u.username == username && checkPassword(password, u.passwordHash)
      && (r.status == 200 <==> u.active)
      && (r.status == 200 ==> r.body == Tokens(AccessToken(u.id, true), RefreshToken(u.id)))
      && (r.status == 400 ==> r.body == Message(NotActive(username)))
  {
    match FindByUsername(users, username)
    case None => Response(Message(InvalidCredentials), 401)
    case Some(user) =>
      if !checkPassword(password, user.passwordHash) then Response(Message(InvalidCredentials), 401)
      else if user.active then Response(Tokens(AccessToken(user.id, true), RefreshToken(user.id)), 200)
      else Response(Message(NotActive(user.username)), 400)
  }

  /** With unique usernames, the decision depends only on the user holding that name:
      tokens for exactly that user when the password checks and the account is active. */
  lemma LoginIssuesTokensForOwner(users: seq<User>, checkPassword: (string, string) -> bool,
                                  password: string, k: nat)
    requires k < |users|
    requires forall i, j :: 0 <= i < j < |users| ==> users[i].username != users[j].username
    ensures var u := users[k];
            var r := UserLoginPost(users, checkPassword, u.username, password);
            && (!checkPassword(password, u.passwordHash) ==> r.status == 401)
            && (checkPassword(password, u.passwordHash) && !u.active ==> r.status == 400 && r.body.Message?)
            && (checkPassword(password, u.passwordHash) && u.active ==>
                  r == Response(Tokens(AccessToken(u.id, true), RefreshToken(u.id)), 200))
  {
    var r := FindByUsername(users, users[k].username).value;
    var j :| 0 <= j < |users| && users[j] == r;
    assert j == k;
  }

  /** `TokenRefresh.post` (src/resources/user.py:48-54): a new access token for the
      refresh token's identity, never fresh. */
  function TokenRefreshPost(refresh: Token): (r: Response)
    requires refresh.RefreshToken?
    ensures r.status == 200 && r.body.AccessOnly?
    ensures r.body.access.AccessToken? && r.body.access.identity == refresh.identity && !r.body.access.isFresh
  {
    Response(AccessOnly(AccessToken(refresh.identity, false)), 200)
  }

  /** Refreshing after a login yields an access token for the same user as the login's,
      differing only in freshness. */
  lemma RefreshAfterLogin(users: seq<User>, checkPassword: (string, string) -> bool,
                          username: string, password: string)
    requires UserLoginPost(users, checkPassword, username, password).status == 200
    ensures var login := UserLoginPost(users, checkPassword, username, password).body;
            var refreshed := TokenRefreshPost(login.refresh).body.access;
            refreshed == login.access.(isFresh := false) && login.access.isFresh
  {
  }

  /** The module-level `BLACKLIST` set of revoked token ids. */
  class Blacklist {
    var jtis: set<string>

    constructor ()
      ensures jtis == {}
    {
      jtis := {};
    }

    method Add(jti: string)
      modifies this
      ensures jtis == old(jtis) + {jti}
    {
      jtis := jtis + {jti};
    }
  }

  /** `check_if_token_in_blacklist` (src/app.py:40-43). */
  predicate IsRevoked(blacklist: Blacklist, jti: string)
    reads blacklist
  {
    jti in blacklist.jtis
  }

  /** `UserLogout.post` (src/resources/user.py:37-45): the token's id joins the
      blacklist, which only grows. */
  method UserLogoutPost(blacklist: Blacklist, jti: string) returns (r: Response)
    modifies blacklist
    ensures r == Response(Message(LoggedOut), 200)
    ensures blacklist.jtis == old(blacklist.jtis) + {jti}
    ensures IsRevoked(blacklist, jti)
    ensures forall j :: old(IsRevoked(blacklist, j)) ==> IsRevoked(blacklist, j)
  {
    blacklist.Add(jti);
    r := Response(Message(LoggedOut), 200);
  }

  /** The revoked ids after a series of logouts: the ids there were, plus every
      logged-out one. */
  function RevokedAfter(revoked: set<string>, logouts: seq<string>): set<string>
    decreases |logouts|
  {
    if logouts == [] then revoked
    else RevokedAfter(revoked, logouts[..|logouts| - 1]) + {logouts[|logouts| - 1]}
  }

  /** No logout ever un-revokes a token, and every logged-out id ends up revoked. */
  lemma {:induction false} RevokedOnlyGrows(revoked: set<string>, logouts: seq<string>)
    ensures revoked <= RevokedAfter(revoked, logouts)
    ensures forall i :: 0 <= i < |logouts| ==> logouts[i] in RevokedAfter(revoked, logouts)
    decreases |logouts|
  {
    if logouts != [] {
      var init := logouts[..|logouts| - 1];
      RevokedOnlyGrows(revoked, init);
      forall i | 0 <= i < |logouts| ensures logouts[i] in RevokedAfter(revoked, logouts) {
        if i < |logouts| - 1 {
          assert logouts[i] == init[i];
        }
      }
    }
  }

  /** After a series of logouts, a token is revoked exactly when it was revoked
      before or was logged out. */
  lemma {:induction false} RevokedExactlyLoggedOut(revoked: set<string>, logouts: seq<string>, jti: string)
    ensures jti in RevokedAfter(revoked, logouts) <==> jti in revoked || jti in logouts
    decreases |logouts|
  {
    if logouts != [] {
      var init := logouts[..|logouts| - 1];
      RevokedExactlyLoggedOut(revoked, init, jti);
      assert logouts == init + [logouts[|logouts| - 1]];
    }
  }

  /** Logging out one token after another leaves exactly `RevokedAfter` in the blacklist. */
  method LogoutAll(blacklist: Blacklist, logouts: seq<string>)
    modifies blacklist
    ensures blacklist.jtis == RevokedAfter(old(blacklist.jtis), logouts)
  {
    var i := 0;
    while i < |logouts|
      invariant 0 <= i <= |logouts|
      invariant blacklist.jtis == RevokedAfter(old(blacklist.jtis), logouts[..i])
    {
      var _ := UserLogoutPost(blacklist, logouts[i]);
      assert logouts[..i + 1][..i] == logouts[..i];
      i := i + 1;
    }
    assert logouts[..i] == logouts;
  }
}
