/** Accounts: inviting an artist, accepting the invitation, removing an artist,
    signing in with a password and an emailed six-digit code, and resetting a
    password through a single-use token. Times are whole seconds; passwords,
    random strings and mail delivery are parameters. */
module Accounts {
  import opened Wrappers
  import opened DecimalText
  import Shows

  /** A code is good for ten minutes, a reset token for an hour. */
  const CodeLifetime: int := 10 * 60
  const TokenLifetime: int := 60 * 60

  /** A user: `password` stands for the stored hash. */
  datatype User = User(id: int, username: string, email: string, password: string,
                       active: bool, superuser: bool, staff: bool)

  /** The verification code last sent to a user and when it lapses. */
  datatype Profile = Profile(code: Option<string>, expiry: Option<int>)

  /** A reset token: whose it is and when it lapses. */
  datatype Token = Token(user: int, expires: int)

  /** Users in table order, profiles by user id, reset tokens by token text. */
  datatype Accounts = Accounts(users: seq<User>, profiles: map<int, Profile>, tokens: map<string, Token>)

  /** Replies, by HTTP status. */
  datatype Reply = Done | BadRequest | NotFound | Conflict | ServerError

  /** Usernames and user ids are unique, as the user table requires. */
  predicate WellFormed(a: Accounts)
  {
    forall i, j :: 0 <= i < j < |a.users| ==> a.users[i].username != a.users[j].username && a.users[i].id != a.users[j].id
  }

  /** The first user with this username, as `filter(username=…).first()`. */
  function ByUsername(users: seq<User>, name: string): (r: Option<nat>)
    ensures r.None? <==> forall i :: 0 <= i < |users| ==> users[i].username != name
    ensures r.Some? ==> r.value < |users| && users[r.value].username == name
                        && forall i :: 0 <= i < r.value ==> users[i].username != name
  {
    if users == [] then None
    else if users[0].username == name then Some(0)
    else match ByUsername(users[1..], name)
      case None => None
      case Some(i) => Some(i + 1)
  }

  /** The first user with this email. */
  function ByEmail(users: seq<User>, email: string): (r: Option<nat>)
    ensures r.None? <==> forall i :: 0 <= i < |users| ==> users[i].email != email
    ensures r.Some? ==> r.value < |users| && users[r.value].email == email
                        && forall i :: 0 <= i < r.value ==> users[i].email != email
  {
    if users == [] then None
    else if users[0].email == email then Some(0)
    else match ByEmail(users[1..], email)
      case None => None
      case Some(i) => Some(i + 1)
  }

  /** `SendVerificationCodeView`: the name is looked up as a username, then as an
      email, and neither is a 404. Otherwise the user's profile takes the new
      six-digit `code`, good for ten minutes, replacing any earlier one, and the
      code is mailed; a mail failure is a 500 but the code is kept. */
  function SendCode(a: Accounts, name: Option<string>, code: string, now: int, mailed: bool): (r: (Accounts, Reply))
    requires |code| == 6 && AllDigits(code)
    ensures var who := if name.None? then None else
                         if ByUsername(a.users, name.value).Some? then ByUsername(a.users, name.value)
                         else ByEmail(a.users, name.value);
            && (who.None? ==> r == (a, NotFound))
            && (who.Some? ==> r.1 == (if mailed then Done else ServerError)
                              && r.0 == a.(profiles := a.profiles[a.users[who.value].id := Profile(Some(code), Some(now + CodeLifetime))]))
  {
    var who := if name.None? then None else
               if ByUsername(a.users, name.value).Some? then ByUsername(a.users, name.value)
               else ByEmail(a.users, name.value);
    if who.None? then (a, NotFound)
    else
      var u := a.users[who.value];
      (a.(profiles := a.profiles[u.id := Profile(Some(code), Some(now + CodeLifetime))]),
       if mailed then Done else ServerError)
  }

  /** `authenticate`: the user with that username, if the password matches and
      the account is active. */
  function Authenticate(a: Accounts, name: string, password: string): (r: Option<User>)
    ensures r.Some? <==> ByUsername(a.users, name).Some? && a.users[ByUsername(a.users, name).value].password == password
                         && a.users[ByUsername(a.users, name).value].active
    ensures r.Some? ==> r.value == a.users[ByUsername(a.users, name).value]
  {
    match ByUsername(a.users, name)
    case None => None
    case Some(i) => if a.users[i].password == password && a.users[i].active then Some(a.users[i]) else None
  }

  /** How a login ends. */
  datatype LoginReply = LoggedIn(user: int, role: Shows.Role) | LoginRefused(reply: Reply)

  /** `LoginView`: the name is tried as a username, then as the email of a user
      whose username is tried; no match is a 400. The user's profile must hold the
      same code and a lapse time not before now, or it is a 400; a profile with no
      lapse time makes the comparison raise. The role is admin exactly for a
      superuser. */
  function Login(a: Accounts, name: string, password: string, code: Option<string>, now: int): (r: LoginReply)
    ensures r.LoggedIn? ==>
              exists u :: u in a.users && u.id == r.user && u.password == password && u.active
                          && (u.username == name
                              || exists v :: v in a.users && v.email == name && v.username == u.username)
                          && u.id in a.profiles && a.profiles[u.id].code == code
                          && a.profiles[u.id].expiry.Some? && a.profiles[u.id].expiry.value >= now
                          && (r.role == Shows.Admin <==> u.superuser)
    ensures r.LoggedIn? ==> r.role != Shows.Visitor
    ensures r.LoginRefused? ==> r.reply == BadRequest || r.reply == ServerError
    ensures r == LoginRefused(ServerError) ==>
              exists u :: u in a.users && u.password == password && u.active
                          && u.id in a.profiles && a.profiles[u.id].code == code
                          && a.profiles[u.id].expiry.None?
  {
    var direct := Authenticate(a, name, password);
    var user :=
      if direct.Some? then direct
      else match ByEmail(a.users, name)
        case None => None
        case Some(i) => Authenticate(a, a.users[i].username, password);
    if user.None? then LoginRefused(BadRequest)
    else
      var u := user.value;
      assert u in a.users;
      if u.id !in a.profiles || a.profiles[u.id].code != code then LoginRefused(BadRequest)
      else if a.profiles[u.id].expiry.None? then LoginRefused(ServerError)
      else if a.profiles[u.id].expiry.value < now then LoginRefused(BadRequest)
      else LoggedIn(u.id, if u.superuser then Shows.Admin else Shows.Artist)
  }

  /** The profile of `u` holds `code` and lapses no earlier than `now`. */
  predicate CodeCurrent(a: Accounts, u: User, code: Option<string>, now: int)
  {
    u.id in a.profiles && a.profiles[u.id].code == code
    && a.profiles[u.id].expiry.Some? && a.profiles[u.id].expiry.value >= now
  }

  /** The converse along the username path: an active user whose profile holds a
      current code signs in under their username and password. */
  lemma LoginByUsername(a: Accounts, i: int, code: Option<string>, now: int)
    requires WellFormed(a) && 0 <= i < |a.users| && a.users[i].active
    requires CodeCurrent(a, a.users[i], code, now)
    ensures var u := a.users[i];
            Login(a, u.username, u.password, code, now)
              == LoggedIn(u.id, if u.superuser then Shows.Admin else Shows.Artist)
  {
    assert ByUsername(a.users, a.users[i].username) == Some(i);
  }

  /** The converse along the email path: when no user of that username accepts the
      password, the first user with that email signs in if the account is active,
      the password is theirs and their code is current. */
  lemma LoginByEmail(a: Accounts, name: string, password: string, code: Option<string>, now: int, i: nat)
    requires WellFormed(a)
    requires forall j :: 0 <= j < |a.users| && a.users[j].username == name ==>
               !(a.users[j].active && a.users[j].password == password)
    requires ByEmail(a.users, name) == Some(i)
    requires a.users[i].active && a.users[i].password == password
    requires CodeCurrent(a, a.users[i], code, now)
    ensures Login(a, name, password, code, now)
              == LoggedIn(a.users[i].id, if a.users[i].superuser then Shows.Admin else Shows.Artist)
  {
    assert ByUsername(a.users, a.users[i].username) == Some(i);
  }

  /** A name that is neither the username nor the email of any active user with
      this password is a 400, whatever the code. */
  lemma LoginWithoutMatchRefused(a: Accounts, name: string, password: string, code: Option<string>, now: int)
    requires WellFormed(a)
    requires forall u :: u in a.users && u.active && u.password == password ==> u.username != name && u.email != name
    ensures Login(a, name, password, code, now) == LoginRefused(BadRequest)
  {
    match ByUsername(a.users, name)
    case None =>
    case Some(k) => assert a.users[k] in a.users;
    match ByEmail(a.users, name)
    case None =>
    case Some(i) =>
      assert a.users[i] in a.users;
      assert ByUsername(a.users, a.users[i].username) == Some(i);
  }

  /** A code sent to an active user signs that user in with the right password
      for the next ten minutes, with the role the account deserves. */
  lemma CodeThenLogin(a: Accounts, i: int, code: string, sent: int, now: int, mailed: bool)
    requires WellFormed(a) && 0 <= i < |a.users| && a.users[i].active
    requires |code| == 6 && AllDigits(code)
    requires sent <= now <= sent + CodeLifetime
    ensures var u := a.users[i];
            var a1 := SendCode(a, Some(u.username), code, sent, mailed).0;
            Login(a1, u.username, u.password, Some(code), now)
              == LoggedIn(u.id, if u.superuser then Shows.Admin else Shows.Artist)
  {
    var u := a.users[i];
    assert ByUsername(a.users, u.username) == Some(i);
  }

  /** After its ten minutes a code no longer signs anyone in. */
  lemma CodeLapses(a: Accounts, i: int, code: string, sent: int, now: int, mailed: bool)
    requires WellFormed(a) && 0 <= i < |a.users| && a.users[i].active
    requires |code| == 6 && AllDigits(code) && now > sent + CodeLifetime
    ensures var u := a.users[i];
            Login(SendCode(a, Some(u.username), code, sent, mailed).0, u.username, u.password, Some(code), now)
              == LoginRefused(BadRequest)
  {
    assert ByUsername(a.users, a.users[i].username) == Some(i);
  }

  /** An email that `InviteArtistView` accepts: non-empty, with `@` and `.`. */
  predicate PlausibleEmail(email: string)
  {
    email != [] && '@' in email && '.' in email
  }

  /** The position of the last `@` in an address. */
  function LastAt(e: string): (k: nat)
    requires '@' in e
    ensures k < |e| && e[k] == '@' && '@' !in e[k + 1..]
  {
    if e[|e| - 1] == '@' then |e| - 1
    else
      assert e == e[..|e| - 1] + [e[|e| - 1]];
      var k := LastAt(e[..|e| - 1]);
      assert e[k + 1..] == e[..|e| - 1][k + 1..] + [e[|e| - 1]];
      k
  }

  /** `normalize_email`, as `create_user` applies it: the part after the last
      `@` is lower-cased; an address without `@` is kept. */
  function NormalizeEmail(e: string): (r: string)
    ensures '@' !in e ==> r == e
    ensures '@' in e ==> |r| == |e| && r[..LastAt(e) + 1] == e[..LastAt(e) + 1]
                         && r[LastAt(e) + 1..] == Shows.Lower(e[LastAt(e) + 1..])
  {
    if '@' !in e then e
    else
      var k := LastAt(e);
      e[..k + 1] + Shows.Lower(e[k + 1..])
  }

  /** Normalizing twice changes nothing more: the last `@` stays where it was
      and a lower-cased domain stays lower-case. */
  lemma NormalizeEmailIdempotent(e: string)
    ensures NormalizeEmail(NormalizeEmail(e)) == NormalizeEmail(e)
  {
    if '@' in e {
      var k := LastAt(e);
      var p, d := e[..k + 1], e[k + 1..];
      assert p[|p| - 1] == '@';
      LowerKeeps(d);
      NormalizeSplit(p, Shows.Lower(d));
    }
  }

  /** An address split at its last `@` normalizes by lower-casing the part after
      it. */
  lemma NormalizeSplit(p: string, d: string)
    requires |p| > 0 && p[|p| - 1] == '@' && '@' !in d
    ensures NormalizeEmail(p + d) == p + Shows.Lower(d)
  {
    var e := p + d;
    assert e[|p| - 1] == '@';
    assert e[|p|..] == d;
    LastAtUnique(e, |p| - 1);
    assert e[..|p|] == p;
  }

  /** Lower-casing adds no `@` and is idempotent. */
  lemma LowerKeeps(s: string)
    requires '@' !in s
    ensures '@' !in Shows.Lower(s)
    ensures Shows.Lower(Shows.Lower(s)) == Shows.Lower(s)
  {
    var d := Shows.Lower(s);
    forall i | 0 <= i < |d| ensures d[i] != '@' {
      assert s[i] != '@';
    }
  }

  /** An `@` with none after it is the last one. */
  lemma LastAtUnique(e: string, k: nat)
    requires k < |e| && e[k] == '@' && '@' !in e[k + 1..]
    ensures LastAt(e) == k
  {
  }

  /** `InviteArtistView`: an implausible email is a 400 and an email already used
      as a username or an email a 409. Otherwise an inactive non-staff user is
      created whose username is the address as sent and whose email is the
      address normalized, with a random temporary password; it is kept even if
      the mail fails (500). */
  function Invite(a: Accounts, email: Option<string>, newId: int, tempPassword: string, mailed: bool)
    : (r: (Accounts, Reply))
    ensures email.None? || !PlausibleEmail(email.value) ==> r == (a, BadRequest)
    ensures email.Some? && PlausibleEmail(email.value) ==>
              var taken := ByUsername(a.users, email.value).Some? || ByEmail(a.users, email.value).Some?;
              && (taken ==> r == (a, Conflict))
              && (!taken ==> r.1 == (if mailed then Done else ServerError)
                             && r.0 == a.(users := a.users + [User(newId, email.value, NormalizeEmail(email.value),
                                                                   tempPassword, false, false, false)]))
  {
    if email.None? || !PlausibleEmail(email.value) then (a, BadRequest)
    else if ByUsername(a.users, email.value).Some? || ByEmail(a.users, email.value).Some? then (a, Conflict)
    else
      (a.(users := a.users + [User(newId, email.value, NormalizeEmail(email.value), tempPassword, false, false, false)]),
       if mailed then Done else ServerError)
  }

  /** `a@B.c` is stored as `a@b.c`. */
  lemma NormalizeSample()
    ensures NormalizeEmail("a@B.c") == "a@b.c"
  {
    var e := "a@B.c";
    assert e[1] == '@' && e[2..] == "B.c" && '@' !in e[2..];
    LastAtUnique(e, 1);
    var d := Shows.Lower("B.c");
    assert d[0] == 'b' && d[1] == '.' && d[2] == 'c';
    assert d == "b.c";
    assert e[..2] == "a@";
  }

  /** An address invited with an upper-case domain is stored with the domain
      lower-cased, so removing the artist by the address as typed finds nobody,
      while the stored address finds the artist. */
  lemma MixedCaseDomainNotRemovable(newId: int, temp: string, mailed: bool)
    ensures var a1 := Invite(Accounts([], map[], map[]), Some("a@B.c"), newId, temp, true).0;
            && |a1.users| == 1 && a1.users[0].email == "a@b.c"
            && Remove(a1, "a@B.c", mailed) == (a1, NotFound)
            && Remove(a1, "a@b.c", mailed).0.users == []
  {
    var u := User(newId, "a@B.c", "a@b.c", temp, false, false, false);
    InviteSample(newId, temp);
    assert "a@B.c"[2] != "a@b.c"[2];
    RemoveSingle(u, "a@B.c", mailed);
    RemoveSingle(u, "a@b.c", mailed);
  }

  /** Removing by email from accounts holding one artist: only the stored
      address finds them. */
  lemma RemoveSingle(u: User, e: string, mailed: bool)
    requires !u.superuser && !u.staff
    ensures var a1 := Accounts([u], map[], map[]);
            && (u.email != e ==> Remove(a1, e, mailed) == (a1, NotFound))
            && (u.email == e ==> Remove(a1, e, mailed).0.users == [])
  {
    ByEmailSingle(u, e);
    assert [u][..0] + [u][1..] == [];
  }

  /** Inviting `a@B.c` into no accounts stores one inactive artist. */
  lemma InviteSample(newId: int, temp: string)
    ensures Invite(Accounts([], map[], map[]), Some("a@B.c"), newId, temp, true).0
              == Accounts([User(newId, "a@B.c", "a@b.c", temp, false, false, false)], map[], map[])
  {
    NormalizeSample();
    var e := "a@B.c";
    assert PlausibleEmail(e) by {
      assert e[1] == '@' && e[3] == '.';
    }
  }

  /** Looking an email up among one user. */
  lemma ByEmailSingle(u: User, e: string)
    ensures ByEmail([u], e) == if u.email == e then Some(0) else None
  {
  }

  /** An invitation keeps usernames and ids unique, given a fresh id. */
  lemma InviteKeepsWellFormed(a: Accounts, email: Option<string>, newId: int, tempPassword: string, mailed: bool)
    requires WellFormed(a) && forall u :: u in a.users ==> u.id != newId
    ensures WellFormed(Invite(a, email, newId, tempPassword, mailed).0)
  {
    var r := Invite(a, email, newId, tempPassword, mailed).0;
    if |r.users| > |a.users| {
      forall i, j | 0 <= i < j < |r.users|
        ensures r.users[i].username != r.users[j].username && r.users[i].id != r.users[j].id
      {
        if j == |a.users| {
          assert r.users[i] == a.users[i];
          assert a.users[i] in a.users;
        }
      }
    }
  }

  /** `AcceptInviteView`: the user whose username is the address is activated if
      inactive; an unknown or already active user is a 404. */
  function Accept(a: Accounts, email: string): (r: (Accounts, Reply))
    ensures ByUsername(a.users, email).None? || a.users[ByUsername(a.users, email).value].active ==> r == (a, NotFound)
    ensures ByUsername(a.users, email).Some? && !a.users[ByUsername(a.users, email).value].active ==>
              var i := ByUsername(a.users, email).value;
              r == (a.(users := a.users[i := a.users[i].(active := true)]), Done)
  {
    match ByUsername(a.users, email)
    case None => (a, NotFound)
    case Some(i) =>
      if a.users[i].active then (a, NotFound)
      else (a.(users := a.users[i := a.users[i].(active := true)]), Done)
  }

  /** The invitation lifecycle: an invited artist cannot sign in, accepting
      activates the account once, a second acceptance is refused, and once
      active the artist can be sent a code and sign in as an artist. */
  lemma InviteAcceptLogin(a: Accounts, email: string, newId: int, temp: string, mailed: bool,
                          code: string, sent: int, now: int, anyCode: Option<string>)
    requires WellFormed(a) && forall u :: u in a.users ==> u.id != newId
    requires PlausibleEmail(email)
    requires ByUsername(a.users, email).None? && ByEmail(a.users, email).None?
    requires |code| == 6 && AllDigits(code) && sent <= now <= sent + CodeLifetime
    ensures var a1 := Invite(a, Some(email), newId, temp, mailed).0;
            var a2 := Accept(a1, email);
            && Login(a1, email, temp, anyCode, now).LoginRefused?
            && a2.1 == Done
            && Accept(a2.0, email).1 == NotFound
            && Login(SendCode(a2.0, Some(email), code, sent, mailed).0, email, temp, Some(code), now)
                 == LoggedIn(newId, Shows.Artist)
  {
    var nu := User(newId, email, NormalizeEmail(email), temp, false, false, false);
    assert Invite(a, Some(email), newId, temp, mailed).0 == a.(users := a.users + [nu]);
    InviteKeepsWellFormed(a, Some(email), newId, temp, mailed);
    AcceptLogin(a, nu, mailed, code, sent, now, anyCode);
  }

  /** The lifecycle for any inactive artist account appended under a new
      username. */
  lemma AcceptLogin(a: Accounts, nu: User, mailed: bool, code: string, sent: int, now: int, anyCode: Option<string>)
    requires WellFormed(a.(users := a.users + [nu])) && ByUsername(a.users, nu.username).None?
    requires ByEmail(a.users, nu.username).None?
    requires !nu.active && !nu.superuser && !nu.staff
    requires |code| == 6 && AllDigits(code) && sent <= now <= sent + CodeLifetime
    ensures var a1 := a.(users := a.users + [nu]);
            var a2 := Accept(a1, nu.username);
            && Login(a1, nu.username, nu.password, anyCode, now).LoginRefused?
            && a2.1 == Done
            && Accept(a2.0, nu.username).1 == NotFound
            && Login(SendCode(a2.0, Some(nu.username), code, sent, mailed).0, nu.username, nu.password, Some(code), now)
                 == LoggedIn(nu.id, Shows.Artist)
  {
    var n := |a.users|;
    var a1 := a.(users := a.users + [nu]);
    ByUsernameAfterAppend(a.users, nu);
    ByEmailAppend(a.users, nu, nu.username);
    assert Login(a1, nu.username, nu.password, anyCode, now).LoginRefused?;
    var a2 := a1.(users := a1.users[n := nu.(active := true)]);
    assert Accept(a1, nu.username) == (a2, Done);
    assert a2.users == a.users + [nu.(active := true)];
    ByUsernameAfterAppend(a.users, nu.(active := true));
    ActivateKeepsWellFormed(a1, n);
    CodeThenLogin(a2, n, code, sent, now, mailed);
  }

  /** Activating a user keeps usernames and ids unique. */
  lemma ActivateKeepsWellFormed(a: Accounts, k: int)
    requires WellFormed(a) && 0 <= k < |a.users|
    ensures WellFormed(a.(users := a.users[k := a.users[k].(active := true)]))
  {
    var b := a.(users := a.users[k := a.users[k].(active := true)]);
    forall i, j | 0 <= i < j < |b.users|
      ensures b.users[i].username != b.users[j].username && b.users[i].id != b.users[j].id
    {
      assert a.users[i].username == b.users[i].username && a.users[i].id == b.users[i].id;
      assert a.users[j].username == b.users[j].username && a.users[j].id == b.users[j].id;
    }
  }

  /** A user appended under a new username is found at the end. */
  lemma {:induction false} ByUsernameAfterAppend(users: seq<User>, u: User)
    requires ByUsername(users, u.username).None?
    ensures ByUsername(users + [u], u.username) == Some(|users|)
  {
    if users != [] {
      assert (users + [u])[1..] == users[1..] + [u];
      ByUsernameAfterAppend(users[1..], u);
    }
  }

  /** After an append, an email no earlier user has is found at the end or not
      at all. */
  lemma {:induction false} ByEmailAppend(users: seq<User>, u: User, e: string)
    requires ByEmail(users, e).None?
    ensures ByEmail(users + [u], e) == if u.email == e then Some(|users|) else None
  {
    if users != [] {
      assert (users + [u])[1..] == users[1..] + [u];
      ByEmailAppend(users[1..], u, e);
    }
  }

  /** `RemoveArtistView`: the first user with the email is found, or it is a 404;
      a superuser or staff account is refused (400); otherwise the user, with the
      profile and tokens that cascade from it, is deleted before the mail is sent,
      so a mail failure (500) leaves it deleted. */
  function Remove(a: Accounts, email: string, mailed: bool): (r: (Accounts, Reply))
    ensures ByEmail(a.users, email).None? ==> r == (a, NotFound)
    ensures ByEmail(a.users, email).Some? ==>
              var u := a.users[ByEmail(a.users, email).value];
              && ((u.superuser || u.staff) ==> r == (a, BadRequest))
              && (!(u.superuser || u.staff) ==>
                    && r.1 == (if mailed then Done else ServerError)
                    && r.0.users == a.users[..ByEmail(a.users, email).value] + a.users[ByEmail(a.users, email).value + 1..]
                    && r.0.profiles == a.profiles - {u.id}
                    && (forall t :: t in r.0.tokens <==> t in a.tokens && a.tokens[t].user != u.id))
  {
    match ByEmail(a.users, email)
    case None => (a, NotFound)
    case Some(i) =>
      var u := a.users[i];
      if u.superuser || u.staff then (a, BadRequest)
      else
        (Accounts(a.users[..i] + a.users[i + 1..], a.profiles - {u.id},
                  map t | t in a.tokens && a.tokens[t].user != u.id :: a.tokens[t]),
         if mailed then Done else ServerError)
  }

  /** Removal never deletes an administrator and deletes at most one user. */
  lemma RemoveSparesAdmins(a: Accounts, email: string, mailed: bool)
    ensures var r := Remove(a, email, mailed).0;
            && (forall u :: u in a.users && (u.superuser || u.staff) ==> u in r.users)
            && (forall u :: u in r.users ==> u in a.users)
            && |a.users| - 1 <= |r.users| <= |a.users|
  {
    var r := Remove(a, email, mailed).0;
    if ByEmail(a.users, email).Some? {
      var i := ByEmail(a.users, email).value;
      if r.users != a.users {
        assert a.users == a.users[..i] + [a.users[i]] + a.users[i + 1..];
      }
    }
  }

  /** `PasswordResetToken.is_valid`. */
  predicate TokenValid(t: Token, now: int)
  {
    now < t.expires
  }

  /** `RequestPasswordChangeView`: a missing email is a 400, an unknown one a 404;
      otherwise a token `tokenText` is stored for the first user with that email,
      lapsing an hour from now; a token text already stored breaks the uniqueness
      rule (500). Mail failure is a 500 with the token kept. */
  function RequestReset(a: Accounts, email: Option<string>, tokenText: string, now: int, mailed: bool)
    : (r: (Accounts, Reply))
    ensures email.None? || email.value == "" ==> r == (a, BadRequest)
    ensures email.Some? && email.value != "" && ByEmail(a.users, email.value).None? ==> r == (a, NotFound)
    ensures email.Some? && email.value != "" && ByEmail(a.users, email.value).Some? ==>
              if tokenText in a.tokens then r == (a, ServerError)
              else r.1 == (if mailed then Done else ServerError)
                   && r.0 == a.(tokens := a.tokens[tokenText := Token(a.users[ByEmail(a.users, email.value).value].id,
                                                                      now + TokenLifetime)])
  {
    if email.None? || email.value == "" then (a, BadRequest)
    else match ByEmail(a.users, email.value)
      case None => (a, NotFound)
      case Some(i) =>
        if tokenText in a.tokens then (a, ServerError)
        else (a.(tokens := a.tokens[tokenText := Token(a.users[i].id, now + TokenLifetime)]),
              if mailed then Done else ServerError)
  }

  /** `ResetPasswordConfirmView`: an unknown token is a 400, a lapsed one a 400
      (and kept); a token whose user is gone is a 404. Otherwise the user gets the
      random `newPassword`, the mail is sent and the token deleted; if the mail
      fails (500) the password is already changed but the token stays. */
  function ConfirmReset(a: Accounts, token: string, newPassword: string, now: int, mailed: bool)
    : (r: (Accounts, Reply))
    ensures token !in a.tokens ==> r == (a, BadRequest)
    ensures token in a.tokens && !TokenValid(a.tokens[token], now) ==> r == (a, BadRequest)
    ensures r.1 == Done ==> token in a.tokens && TokenValid(a.tokens[token], now) && token !in r.0.tokens
    ensures r.1 == Done ==> exists i :: 0 <= i < |a.users| && a.users[i].id == a.tokens[token].user
                                        && r.0.users == a.users[i := a.users[i].(password := newPassword)]
    ensures r.1 == Done ==> r.0.tokens == a.tokens - {token} && r.0.profiles == a.profiles && mailed
    ensures r.1 == NotFound <==>
              token in a.tokens && TokenValid(a.tokens[token], now)
              && forall i :: 0 <= i < |a.users| ==> a.users[i].id != a.tokens[token].user
    ensures r.1 == NotFound ==> r.0 == a
    ensures r.1 == ServerError <==>
              token in a.tokens && TokenValid(a.tokens[token], now) && !mailed
              && exists i :: 0 <= i < |a.users| && a.users[i].id == a.tokens[token].user
    ensures r.1 == ServerError ==>
              && r.0.tokens == a.tokens && r.0.profiles == a.profiles
              && exists i :: 0 <= i < |a.users| && a.users[i].id == a.tokens[token].user
                             && r.0.users == a.users[i := a.users[i].(password := newPassword)]
  {
    if token !in a.tokens then (a, BadRequest)
    else if !TokenValid(a.tokens[token], now) then (a, BadRequest)
    else match UserWithId(a.users, a.tokens[token].user)
      case None => (a, NotFound)
      case Some(i) =>
        var changed := a.(users := a.users[i := a.users[i].(password := newPassword)]);
        if mailed then (changed.(tokens := a.tokens - {token}), Done)
        else (changed, ServerError)
  }

  /** The user with an id, by position. */
  function UserWithId(users: seq<User>, id: int): (r: Option<nat>)
    ensures r.None? <==> forall i :: 0 <= i < |users| ==> users[i].id != id
    ensures r.Some? ==> r.value < |users| && users[r.value].id == id
  {
    if users == [] then None
    else if users[0].id == id then Some(0)
    else match UserWithId(users[1..], id)
      case None => None
      case Some(i) => Some(i + 1)
  }

  /** A reset token works once: within its hour it resets the password, and the
      same token is then refused. */
  lemma TokenSingleUse(a: Accounts, email: string, tokenText: string, issued: int, now: int, later: int,
                       p1: string, p2: string)
    requires ByEmail(a.users, email).Some? && email != "" && tokenText !in a.tokens
    requires issued <= now < issued + TokenLifetime
    ensures var a1 := RequestReset(a, Some(email), tokenText, issued, true).0;
            var c := ConfirmReset(a1, tokenText, p1, now, true);
            c.1 == Done && ConfirmReset(c.0, tokenText, p2, later, true) == (c.0, BadRequest)
  {
    var a1 := RequestReset(a, Some(email), tokenText, issued, true).0;
    var i := ByEmail(a.users, email).value;
    assert UserWithId(a1.users, a.users[i].id).Some?;
  }

  /** A mail failure leaves the token in place, so the user can confirm again
      while it lasts: the retry succeeds and only then uses the token up. */
  lemma ResetRetryAfterMailFailure(a: Accounts, token: string, p1: string, p2: string, now: int, later: int)
    requires token in a.tokens && TokenValid(a.tokens[token], now) && TokenValid(a.tokens[token], later)
    requires UserWithId(a.users, a.tokens[token].user).Some?
    ensures var r1 := ConfirmReset(a, token, p1, now, false);
            && r1.1 == ServerError && token in r1.0.tokens
            && var r2 := ConfirmReset(r1.0, token, p2, later, true);
               r2.1 == Done && token !in r2.0.tokens
  {
    var i := UserWithId(a.users, a.tokens[token].user).value;
    var r1 := ConfirmReset(a, token, p1, now, false);
    assert r1.0.users[i].id == a.tokens[token].user;
    assert UserWithId(r1.0.users, a.tokens[token].user).Some?;
  }

  /** A token is refused from its hour on. */
  lemma TokenLapses(a: Accounts, email: string, tokenText: string, issued: int, now: int, p: string, mailed: bool)
    requires tokenText !in a.tokens && now >= issued + TokenLifetime
    ensures var a1 := RequestReset(a, Some(email), tokenText, issued, mailed).0;
            ConfirmReset(a1, tokenText, p, now, true).1 != Done
  {
  }
}
