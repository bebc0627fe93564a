/** Sessions and the accounts they speak for: one step at a time and over runs. */
module BlogAccounts {
  import opened BlogSpec
  import opened BlogSafety
  import CStrings

  /** The cookie's session holds the name of user row i. */
  predicate Speaks(s: State, cookie: string, i: nat)
  {
    cookie in s.sessions && i < |s.users| && s.users[i].username == Bound(s.sessions[cookie])
  }

  /** A cookie is logged in exactly when the sessions have not expired and some row carries its name. */
  lemma LiveIff(s: State, cookie: string, now: int)
    requires UsersOk(s.users)
    ensures IsLoggedIn(s, cookie, now) <==> now - s.past < 1800 && exists i :: Speaks(s, cookie, i)
  {
    hide CountUsers, Bound;
    if cookie in s.sessions {
      CountUsersOne(s.users, Bound(s.sessions[cookie]));
      CountUsersZero(s.users, Bound(s.sessions[cookie]));
      if i :| 0 <= i < |s.users| && s.users[i].username == Bound(s.sessions[cookie]) {
        assert Speaks(s, cookie, i);
      }
    }
  }

  /** A live cookie speaks for one account only. */
  lemma OneAccount(s: State, cookie: string, i: nat, j: nat)
    requires UsersOk(s.users) && Speaks(s, cookie, i) && Speaks(s, cookie, j)
    ensures i == j
  {
    hide Bound;
  }

  // Logging in and out.

  /** Logging out through a cookie removes that cookie's own session and no other. */
  lemma LogoutRemovesOwn(r: Rendering, s: State, cookie: string, now: int)
    requires StateOk(r, s) && IsLoggedIn(s, cookie, now)
    ensures var a := Handle(r, s, cookie, now, Logout);
            && a.1 == LoggedOut && cookie in s.sessions
            && a.0 == s.(sessions := s.sessions - {cookie}) && !IsLoggedIn(a.0, cookie, now)
  {
    hide TableOk, CacheOk, UsersOk, CountUsers, Bound;
    WithoutIsRemoval(s.sessions, cookie);
  }

  /** A login leaves its name exactly one session, the new one; sessions of other names are kept. */
  lemma LoginOwnsOne(r: Rendering, s: State, cookie: string, now: int, name: string, password: string,
                     session: string)
    requires StateOk(r, s) && Handle(r, s, cookie, now, Login(name, password, session)).1.LoggedIn?
    ensures var t := Handle(r, s, cookie, now, Login(name, password, session)).0;
            && (forall k :: k in t.sessions && t.sessions[k] == name <==> k == session)
            && (forall k :: k in s.sessions && s.sessions[k] != name && k != session ==>
                  k in t.sessions && t.sessions[k] == s.sessions[k])
            && (forall later :: IsLoggedIn(t, session, later) <==> later < now + 1800)
            && (forall k, later ::
                  k in s.sessions && s.sessions[k] == name && k != session ==> !IsLoggedIn(t, k, later))
  {
    hide TableOk, CacheOk, UsersOk, CountUsers, PassOf, Bound;
  }

  /**
   * The login leaves its account exactly one session if and only if no session of another name means
   * the same account; two names do when they differ after a NUL only.
   */
  lemma LoginOwnsAccount(r: Rendering, s: State, cookie: string, now: int, name: string, password: string,
                         session: string)
    requires StateOk(r, s) && Handle(r, s, cookie, now, Login(name, password, session)).1.LoggedIn?
    ensures var t := Handle(r, s, cookie, now, Login(name, password, session)).0;
            && ((forall k :: k in t.sessions && Bound(t.sessions[k]) == Bound(name) ==> k == session)
                <==> (forall k :: k in s.sessions && k != session && s.sessions[k] != name ==>
                        Bound(s.sessions[k]) != Bound(name)))
  {
    hide TableOk, CacheOk, UsersOk, CountUsers, PassOf, Bound;
    var t := Handle(r, s, cookie, now, Login(name, password, session)).0;
    assert forall k :: k in t.sessions <==> k == session || (k in s.sessions && s.sessions[k] != name);
    assert forall k :: k in t.sessions && k != session ==> t.sessions[k] == s.sessions[k];
  }

  /** It can fail: one account, two names that differ after a NUL, two live sessions. */
  lemma TwoSessionsOneAccount(r: Rendering, s: State, cookie: string, now: int, m: string, n: string,
                              p: string, a: string, b: string)
    requires StateOk(r, s) && Granted(r, s.users, m, p) && Bound(m) == Bound(n) && m != n && a != b
    ensures var t := Handle(r, s, cookie, now, Login(m, p, a)).0;
            var u := Handle(r, t, cookie, now, Login(n, p, b)).0;
            IsLoggedIn(u, a, now) && IsLoggedIn(u, b, now) && exists i :: Speaks(u, a, i) && Speaks(u, b, i)
  {
    hide TableOk, CacheOk, UsersOk, CountUsers, PassOf, Bound;
    var i := FindUser(s.users, Bound(m));
    var t := Handle(r, s, cookie, now, Login(m, p, a)).0;
    var u := Handle(r, t, cookie, now, Login(n, p, b)).0;
    assert Speaks(u, a, i) && Speaks(u, b, i);
  }

  // Changing the name.

  lemma {:induction false} RenamedGone(users: seq<User>, oldName: string, name: string, hash: string, nickname: string)
    requires name != oldName
    ensures CountUsers(Renamed(users, oldName, name, hash, nickname), oldName) == 0
  {
    hide CountUsers;
    CountUsersZero(Renamed(users, oldName, name, hash, nickname), oldName);
  }

  /** After a successful change of details. */
  lemma Changed(r: Rendering, s: State, cookie: string, now: int, name: string, hash: string, nickname: string)
    requires StateOk(r, s) && IsLoggedIn(s, cookie, now)
    requires Handle(r, s, cookie, now, Change(name, hash, nickname)).1 == Success
    ensures var owner := s.sessions[cookie];
            && Handle(r, s, cookie, now, Change(name, hash, nickname)).0
               == s.(users := Renamed(s.users, Bound(owner), Bound(name), hash, Bound(nickname)))
            && (name == owner || CountUsers(s.users, Bound(name)) == 0)
            && CountUsers(s.users, Bound(owner)) == 1 && now - s.past < EXPIRE
  {
    hide TableOk, CacheOk, UsersOk, CountUsers, Renamed, Bound;
  }

  /**
   * A change of details leaves its own session live if and only if it keeps the name: right after it, and
   * until the sessions expire or another request is served.
   */
  lemma RenameLogsOut(r: Rendering, s: State, cookie: string, now: int, name: string, hash: string, nickname: string,
                      later: int)
    requires StateOk(r, s) && IsLoggedIn(s, cookie, now) && later - s.past < EXPIRE
    requires Handle(r, s, cookie, now, Change(name, hash, nickname)).1 == Success
    ensures var t := Handle(r, s, cookie, now, Change(name, hash, nickname)).0;
            && cookie in t.sessions && (IsLoggedIn(t, cookie, later) <==> name == s.sessions[cookie])
            && (name != s.sessions[cookie] ==> cookie !in Checked(t, cookie, later).sessions)
  {
    hide TableOk, CacheOk, CountUsers, Renamed, Bound, Handle;
    var owner := s.sessions[cookie];
    Changed(r, s, cookie, now, name, hash, nickname);
    if name == owner {
      var i := FindUser(s.users, Bound(owner));
      RenamedOne(s.users, i, Bound(owner), hash, Bound(nickname));
      var t := Handle(r, s, cookie, now, Change(name, hash, nickname)).0;
      RenamedOk(s.users, Bound(owner), Bound(name), hash, Bound(nickname));
      assert Speaks(t, cookie, i);
      LiveIff(t, cookie, later);
    } else {
      RenamedGone(s.users, Bound(owner), Bound(name), hash, Bound(nickname));
    }
  }

  /** What a change of details through a live cookie does. */
  lemma ChangeEffect(r: Rendering, s: State, cookie: string, now: int, i: nat, name: string, hash: string,
                     nickname: string)
    requires StateOk(r, s) && now - s.past < EXPIRE && Speaks(s, cookie, i) && name != ""
    ensures Handle(r, s, cookie, now, Change(name, hash, nickname))
         == if name != s.sessions[cookie] && exists k :: 0 <= k < |s.users| && s.users[k].username == Bound(name) then
              (s, UsernameTaken)
            else
              (s.(users := s.users[i := User(Bound(name), if hash == "" then s.users[i].pass else hash,
                                             Bound(nickname))]), Success)
  {
    hide TableOk, CacheOk, CountUsers, Renamed, Bound;
    LiveIff(s, cookie, now);
    CountUsersZero(s.users, Bound(name));
    RenamedOne(s.users, i, Bound(name), hash, Bound(nickname));
  }

  /**
   * Through its live session, the asker will take the name that the cookie's session holds: it asks for that
   * name, goes by another one, and no row has it.
   */
  ghost predicate TakesOver(s: State, cookie: string, asker: string, now: int, q: Request)
  {
    && q.Change? && q.newName != "" && cookie in s.sessions && asker in s.sessions
    && now - s.past < EXPIRE && (exists j :: Speaks(s, asker, j))
    && Bound(q.newName) == Bound(s.sessions[cookie]) != Bound(s.sessions[asker])
    && forall k :: 0 <= k < |s.users| ==> s.users[k].username != Bound(q.newName)
  }

  /** The request then succeeds, and the cookie speaks for the asker's account. */
  lemma TakesOverEffect(r: Rendering, s: State, cookie: string, asker: string, now: int, q: Request, j: nat)
    requires StateOk(r, s) && TakesOver(s, cookie, asker, now, q) && Speaks(s, asker, j)
    ensures var t := Handle(r, s, asker, now, q).0;
            && Handle(r, s, asker, now, q).1 == Success && t == s.(users := t.users)
            && Speaks(t, cookie, j) && !Speaks(s, cookie, j)
  {
    hide StateOk, Handle, Bound;
    assert q == Change(q.newName, q.hash, q.nickname);
    ChangeEffect(r, s, asker, now, j, q.newName, q.hash, q.nickname);
  }

  /** A change of details that succeeded met the conditions for it. */
  lemma SuccessGuard(r: Rendering, s: State, asker: string, now: int, q: Request)
    requires StateOk(r, s) && q.Change? && Handle(r, s, asker, now, q).1 == Success
    ensures now - s.past < EXPIRE && q.newName != "" && asker in s.sessions && exists j :: Speaks(s, asker, j)
    ensures q.newName == s.sessions[asker] || forall k :: 0 <= k < |s.users| ==> s.users[k].username != Bound(q.newName)
  {
    hide TableOk, CacheOk, CountUsers, Renamed, Bound;
    CountUsersZero(s.users, Bound(q.newName));
    LiveIff(s, asker, now);
    CheckedOk(s, asker, now);
  }

  /**
   * While the cookie's entry lasts, one request makes it speak for a row it did not speak for if and only
   * if the request takes the cookie's name over.
   */
  lemma GainIff(r: Rendering, s: State, cookie: string, asker: string, now: int, q: Request)
    requires StateOk(r, s) && WellFormed(q)
    requires var t := Handle(r, s, asker, now, q).0;
             cookie in s.sessions && cookie in t.sessions && t.sessions[cookie] == s.sessions[cookie]
    ensures var t := Handle(r, s, asker, now, q).0;
            (exists j :: Speaks(t, cookie, j) && !Speaks(s, cookie, j)) <==> TakesOver(s, cookie, asker, now, q)
  {
    hide StateOk, CountUsers, Renamed, Bound, Handle;
    var t := Handle(r, s, asker, now, q).0;
    if TakesOver(s, cookie, asker, now, q) {
      var j :| Speaks(s, asker, j);
      TakesOverEffect(r, s, cookie, asker, now, q, j);
    }
    if j :| Speaks(t, cookie, j) && !Speaks(s, cookie, j) {
      GainedBy(r, s, cookie, asker, now, q, j);
    }
  }

  /** The row gained is the asker's. */
  lemma GainedBy(r: Rendering, s: State, cookie: string, asker: string, now: int, q: Request, j: nat)
    requires StateOk(r, s) && WellFormed(q)
    requires var t := Handle(r, s, asker, now, q).0;
             && Speaks(t, cookie, j) && !Speaks(s, cookie, j)
             && cookie in s.sessions && t.sessions[cookie] == s.sessions[cookie]
    ensures TakesOver(s, cookie, asker, now, q) && Speaks(s, asker, j)
  {
    hide StateOk, CountUsers, Renamed, Bound, Handle;
    UsersStep(r, s, asker, now, q);
    assert q.Change? && Handle(r, s, asker, now, q).1 == Success;
    SuccessGuard(r, s, asker, now, q);
    RenamedAt(s.users, Bound(s.sessions[asker]), Bound(q.newName), q.hash, Bound(q.nickname), j);
  }

  lemma RenamedAt(users: seq<User>, oldName: string, name: string, hash: string, nickname: string, j: nat)
    requires j < |users|
    ensures Renamed(users, oldName, name, hash, nickname)[j].username
         == if users[j].username == oldName then name else users[j].username
  {
  }

  lemma InsertIn(s: State, asker: string, now: int, q: Request)
    requires WellFormed(q) && q.Create?
    ensures var t := Checked(s, asker, now);
            asker in t.sessions ==>
              var u := Insert(t, q.title, q.content, q.date, t.sessions[asker], |t.users|);
              u.users == s.users && u.sessions == t.sessions
  {
    var t := Checked(s, asker, now);
    if asker in t.sessions {
      InsertKeeps(t, q.title, q.content, q.date, t.sessions[asker], |t.users|);
    }
  }

  /** Only a change of details touches the users, and only the row of the session that asks. */
  lemma UsersStep(r: Rendering, s: State, asker: string, now: int, q: Request)
    requires WellFormed(q)
    ensures var a := Handle(r, s, asker, now, q);
            if q.Change? && a.1 == Success then
              && asker in s.sessions && CountUsers(s.users, Bound(s.sessions[asker])) == 1
              && a.0.users == Renamed(s.users, Bound(s.sessions[asker]), Bound(q.newName), q.hash, Bound(q.nickname))
            else a.0.users == s.users
  {
    hide CountUsers, Renamed, Bound, Insert, CountIds, Removed, Rewritten, View, Checked, WellFormed, Granted, HasRow;
    CheckedTables(s, asker, now);
    if IsView(q) {
      ViewTables(r, s, asker, now, q);
    } else if q.Create? {
      InsertIn(s, asker, now, q);
    }
  }

  /** A session entry is new only for the login that makes it. */
  lemma SessionsStep(r: Rendering, s: State, asker: string, now: int, q: Request, cookie: string)
    requires WellFormed(q)
    ensures var t := Handle(r, s, asker, now, q).0;
            cookie in t.sessions ==>
              if q.Login? && cookie == q.session && Handle(r, s, asker, now, q).1.LoggedIn? then
                t.sessions[cookie] == q.username
              else
                cookie in s.sessions && t.sessions[cookie] == s.sessions[cookie]
  {
    hide CountUsers, Renamed, Bound, Insert, CountIds, Removed, Rewritten, View, Checked, WellFormed, Granted, HasRow;
    CheckedTables(s, asker, now);
    if IsView(q) {
      ViewTables(r, s, asker, now, q);
    } else if q.Create? {
      InsertIn(s, asker, now, q);
    }
  }

  // Runs.

  /** The state before request n of a run, or after the last one. */
  function StateAt(r: Rendering, s: State, asked: seq<Asked>, n: nat): State
    requires n <= |asked| && forall a :: a in asked ==> WellFormed(a.q)
  {
    Run(r, s, asked[..n])
  }

  lemma StateStep(r: Rendering, s: State, asked: seq<Asked>, n: nat)
    requires n < |asked| && forall a :: a in asked ==> WellFormed(a.q)
    ensures WellFormed(asked[n].q)
    ensures StateAt(r, s, asked, n + 1)
         == Handle(r, StateAt(r, s, asked, n), asked[n].cookie, asked[n].now, asked[n].q).0
  {
    hide Handle, WellFormed;
    assert asked[..n + 1][..n] == asked[..n];
  }

  lemma StateStart(r: Rendering, s: State, asked: seq<Asked>)
    requires forall a :: a in asked ==> WellFormed(a.q)
    ensures StateAt(r, s, asked, 0) == s
  {
    assert asked[..0] == [];
  }

  // One account, one session.

  predicate PlainNames(sessions: map<string, string>)
  {
    forall k :: k in sessions ==> '\0' !in sessions[k]
  }

  lemma {:induction false} NamesStayPlain(r: Rendering, s: State, asked: seq<Asked>)
    requires PlainNames(s.sessions) && forall a :: a in asked ==> WellFormed(a.q)
    requires forall a :: a in asked && a.q.Login? ==> '\0' !in a.q.username
    ensures PlainNames(Run(r, s, asked).sessions)
  {
    hide Handle, WellFormed;
    if asked != [] {
      var n := |asked| - 1;
      var a, u := asked[n], Run(r, s, asked[..n]);
      NamesStayPlain(r, s, asked[..n]);
      forall k | k in Run(r, s, asked).sessions
        ensures '\0' !in Run(r, s, asked).sessions[k]
      {
        SessionsStep(r, u, a.cookie, a.now, a.q, k);
        assert a in asked;
      }
    }
  }

  /** If no login name of the run holds a NUL, every account owns at most one session throughout. */
  lemma AccountsOwnOne(r: Rendering, s: State, asked: seq<Asked>, a: string, b: string)
    requires StateOk(r, s) && PlainNames(s.sessions) && forall x :: x in asked ==> WellFormed(x.q)
    requires forall x :: x in asked && x.q.Login? ==> '\0' !in x.q.username
    ensures var t := Run(r, s, asked);
            a in t.sessions && b in t.sessions && Bound(t.sessions[a]) == Bound(t.sessions[b]) ==> a == b
  {
    hide TableOk, CacheOk, UsersOk, Run, CStrings.CStr;
    var t := Run(r, s, asked);
    RunOk(r, s, asked);
    NamesStayPlain(r, s, asked);
    if a in t.sessions && b in t.sessions {
      CStrings.CStrWhole(t.sessions[a]);
      CStrings.CStrWhole(t.sessions[b]);
    }
  }

  predicate OneEach(sessions: map<string, string>)
  {
    forall a, b :: a in sessions && b in sessions && Bound(sessions[a]) == Bound(sessions[b]) ==> a == b
  }

  /** A login that will be granted while the account has another session, under another name. */
  ghost predicate Doubles(r: Rendering, s: State, q: Request)
  {
    && q.Login? && Granted(r, s.users, q.username, q.password)
    && exists k :: k in s.sessions && k != q.session && s.sessions[k] != q.username
                   && Bound(s.sessions[k]) == Bound(q.username)
  }

  /** Such a login is the only way to give an account two sessions. */
  lemma OneEachStep(r: Rendering, s: State, asker: string, now: int, q: Request)
    requires StateOk(r, s) && WellFormed(q) && OneEach(s.sessions)
    ensures OneEach(Handle(r, s, asker, now, q).0.sessions) <==> !Doubles(r, s, q)
  {
    hide StateOk, Bound, Handle, Granted, WellFormed, Doubles, OneEach;
    if q.Login? {
      OneEachLogin(r, s, asker, now, q);
    } else {
      var t := Handle(r, s, asker, now, q).0;
      forall k | k in t.sessions
        ensures k in s.sessions && t.sessions[k] == s.sessions[k]
      {
        SessionsStep(r, s, asker, now, q, k);
      }
      OneEachLess(s.sessions, t.sessions);
      NoLoginNoDouble(r, s, q);
    }
  }

  lemma OneEachLess(s: map<string, string>, t: map<string, string>)
    requires OneEach(s) && forall k :: k in t ==> k in s && t[k] == s[k]
    ensures OneEach(t)
  {
    hide Bound;
  }

  lemma NoLoginNoDouble(r: Rendering, s: State, q: Request)
    requires !q.Login?
    ensures !Doubles(r, s, q)
  {
  }

  lemma OneEachLogin(r: Rendering, s: State, asker: string, now: int, q: Request)
    requires StateOk(r, s) && q.Login? && OneEach(s.sessions)
    ensures OneEach(Handle(r, s, asker, now, q).0.sessions) <==> !Doubles(r, s, q)
  {
    hide StateOk, Bound, Granted;
    var t := Handle(r, s, asker, now, q).0;
    if Granted(r, s.users, q.username, q.password) {
      assert t.sessions == Without(s.sessions, q.username)[q.session := q.username];
      if k :| && k in s.sessions && k != q.session && s.sessions[k] != q.username
              && Bound(s.sessions[k]) == Bound(q.username)
      {
        assert k in t.sessions && q.session in t.sessions;
      }
    }
  }

  /**
   * In every state of a run each account owns at most one session if and only if no login of the run is
   * granted while the account has another session under another name.
   */
  lemma AccountsOwnOneIff(r: Rendering, s: State, asked: seq<Asked>)
    requires StateOk(r, s) && OneEach(s.sessions) && forall a :: a in asked ==> WellFormed(a.q)
    ensures (forall n :: 0 <= n <= |asked| ==> OneEach(StateAt(r, s, asked, n).sessions))
       <==> (forall n :: 0 <= n < |asked| ==> !Doubles(r, StateAt(r, s, asked, n), asked[n].q))
  {
    hide StateOk, Handle, WellFormed, OneEach, Doubles, StateAt;
    StateStart(r, s, asked);
    var m := 0;
    while m < |asked| && OneEach(StateAt(r, s, asked, m + 1).sessions)
      invariant m <= |asked|
      invariant forall n :: 0 <= n <= m ==> OneEach(StateAt(r, s, asked, n).sessions)
      invariant forall n :: 0 <= n < m ==> !Doubles(r, StateAt(r, s, asked, n), asked[n].q)
    {
      ReachedOk(r, s, asked, m);
      StateStep(r, s, asked, m);
      OneEachStep(r, StateAt(r, s, asked, m), asked[m].cookie, asked[m].now, asked[m].q);
      m := m + 1;
    }
    if m < |asked| {
      ReachedOk(r, s, asked, m);
      StateStep(r, s, asked, m);
      OneEachStep(r, StateAt(r, s, asked, m), asked[m].cookie, asked[m].now, asked[m].q);
    }
  }

  lemma ReachedOk(r: Rendering, s: State, asked: seq<Asked>, n: nat)
    requires StateOk(r, s) && n <= |asked| && forall a :: a in asked ==> WellFormed(a.q)
    ensures StateOk(r, StateAt(r, s, asked, n))
  {
    hide StateOk, WellFormed, Run;
    RunOk(r, s, asked[..n]);
  }

  // One cookie, one account.

  /** The cookie speaks for row i or for none. */
  ghost predicate OnlyFor(s: State, cookie: string, i: nat)
  {
    forall j :: Speaks(s, cookie, j) ==> j == i
  }

  /** Another account than i takes the name of the cookie's session over, or logs in under the same cookie. */
  ghost predicate Foreign(r: Rendering, s: State, cookie: string, i: nat, asker: string, now: int, q: Request)
  {
    || (TakesOver(s, cookie, asker, now, q) && !Speaks(s, asker, i))
    || (q.Login? && q.session == cookie && Granted(r, s.users, q.username, q.password)
        && !(i < |s.users| && s.users[i].username == Bound(q.username)))
  }

  /** One request makes the cookie speak for another account than i if and only if it is foreign to i. */
  lemma StrayIff(r: Rendering, s: State, cookie: string, i: nat, asker: string, now: int, q: Request)
    requires StateOk(r, s) && WellFormed(q) && OnlyFor(s, cookie, i)
    ensures OnlyFor(Handle(r, s, asker, now, q).0, cookie, i) <==> !Foreign(r, s, cookie, i, asker, now, q)
  {
    hide StateOk, Handle, WellFormed, Bound, Granted, TakesOver;
    var t := Handle(r, s, asker, now, q).0;
    UsersOf(r, s);
    if q.Login? && q.session == cookie && Granted(r, s.users, q.username, q.password) {
      Reissued(r, s, asker, now, q);
      if TakesOver(s, cookie, asker, now, q) { NoTakeover(s, cookie, asker, now, q); }
    } else {
      NotReissued(r, s, asker, now, q, cookie);
      if TakesOver(s, cookie, asker, now, q) {
        var j := Asker(s, cookie, asker, now, q);
        TakesOverEffect(r, s, cookie, asker, now, q, j);
        if Speaks(s, asker, i) {
          OneAccount(s, asker, i, j);
          forall x | Speaks(t, cookie, x)
            ensures x == i
          {
            if !Speaks(s, cookie, x) {
              GainedBy(r, s, cookie, asker, now, q, x);
              OneAccount(s, asker, i, x);
            }
          }
        }
      } else {
        forall x | Speaks(t, cookie, x)
          ensures x == i
        {
          if !Speaks(s, cookie, x) {
            GainedBy(r, s, cookie, asker, now, q, x);
          }
        }
      }
    }
  }

  lemma NoTakeover(s: State, cookie: string, asker: string, now: int, q: Request)
    requires q.Login?
    ensures !TakesOver(s, cookie, asker, now, q)
  {
  }

  lemma Asker(s: State, cookie: string, asker: string, now: int, q: Request) returns (j: nat)
    requires TakesOver(s, cookie, asker, now, q)
    ensures Speaks(s, asker, j)
  {
    j :| Speaks(s, asker, j);
  }

  /** A login that issues the cookie makes it speak for the account that logs in. */
  lemma Reissued(r: Rendering, s: State, asker: string, now: int, q: Request)
    requires q.Login? && Granted(r, s.users, q.username, q.password)
    ensures var t := Handle(r, s, asker, now, q).0;
            && t.users == s.users && q.session in t.sessions && t.sessions[q.session] == q.username
            && exists j :: Speaks(t, q.session, j)
  {
    hide Bound, CountUsers, PassOf;
    var j := FindUser(s.users, Bound(q.username));
    assert Speaks(Handle(r, s, asker, now, q).0, q.session, j);
  }

  /** Any other request leaves the cookie's entry or drops it. */
  lemma NotReissued(r: Rendering, s: State, asker: string, now: int, q: Request, cookie: string)
    requires WellFormed(q) && !(q.Login? && q.session == cookie && Granted(r, s.users, q.username, q.password))
    ensures var t := Handle(r, s, asker, now, q).0;
            cookie in t.sessions ==> cookie in s.sessions && t.sessions[cookie] == s.sessions[cookie]
  {
    hide View, Act, Checked, Granted, WellFormed;
    SessionsStep(r, s, asker, now, q, cookie);
  }

  lemma UsersOf(r: Rendering, s: State)
    requires StateOk(r, s)
    ensures UsersOk(s.users)
  {
  }

  /**
   * In every state of a run the cookie speaks for no account but i if and only if no request of the run is
   * foreign to i.
   */
  lemma KeepsAccountIff(r: Rendering, s: State, asked: seq<Asked>, cookie: string, i: nat)
    requires StateOk(r, s) && OnlyFor(s, cookie, i) && forall a :: a in asked ==> WellFormed(a.q)
    ensures (forall n :: 0 <= n <= |asked| ==> OnlyFor(StateAt(r, s, asked, n), cookie, i))
       <==> (forall n :: 0 <= n < |asked| ==>
               !Foreign(r, StateAt(r, s, asked, n), cookie, i, asked[n].cookie, asked[n].now, asked[n].q))
  {
    hide StateOk, Handle, WellFormed, OnlyFor, Foreign, StateAt;
    StateStart(r, s, asked);
    var m := 0;
    while m < |asked| && OnlyFor(StateAt(r, s, asked, m + 1), cookie, i)
      invariant m <= |asked|
      invariant forall n :: 0 <= n <= m ==> OnlyFor(StateAt(r, s, asked, n), cookie, i)
      invariant forall n :: 0 <= n < m ==>
                  !Foreign(r, StateAt(r, s, asked, n), cookie, i, asked[n].cookie, asked[n].now, asked[n].q)
    {
      ReachedOk(r, s, asked, m);
      StateStep(r, s, asked, m);
      StrayIff(r, StateAt(r, s, asked, m), cookie, i, asked[m].cookie, asked[m].now, asked[m].q);
      m := m + 1;
    }
    if m < |asked| {
      ReachedOk(r, s, asked, m);
      StateStep(r, s, asked, m);
      StrayIff(r, StateAt(r, s, asked, m), cookie, i, asked[m].cookie, asked[m].now, asked[m].q);
    }
  }

  /**
   * A run in which no change of details asks for the name of the session and no login issues the cookie holds
   * no foreign request, whatever the tables.
   */
  lemma {:induction false} Quiet(r: Rendering, s: State, asked: seq<Asked>, cookie: string, i: nat, n: nat)
    requires forall a :: a in asked ==> WellFormed(a.q)
    requires cookie in s.sessions && n <= |asked|
    requires forall a :: a in asked ==>
               && !(a.q.Login? && a.q.session == cookie)
               && (a.q.Change? ==> Bound(a.q.newName) != Bound(s.sessions[cookie]))
    ensures var u := StateAt(r, s, asked, n);
            && (cookie in u.sessions ==> u.sessions[cookie] == s.sessions[cookie])
            && (n < |asked| ==> !Foreign(r, u, cookie, i, asked[n].cookie, asked[n].now, asked[n].q))
  {
    hide Handle, WellFormed, Bound, Granted, StateAt;
    if n == 0 {
      StateStart(r, s, asked);
    } else {
      Quiet(r, s, asked, cookie, i, n - 1);
      StateStep(r, s, asked, n - 1);
      var a := asked[n - 1];
      assert a in asked;
      SessionsStep(r, StateAt(r, s, asked, n - 1), a.cookie, a.now, a.q, cookie);
    }
    if n < |asked| {
      assert asked[n] in asked;
    }
  }

  /**
   * A cookie can change hands: account i gives its name up, account j takes it, and the cookie
   * of i speaks for j, so that a change of details through it changes row j.
   */
  lemma ChangesHands(r: Rendering, s: State, a: string, c: string, now: int, i: nat, j: nat,
                     name: string, h1: string, h2: string, h3: string, nickname: string)
    requires StateOk(r, s) && now - s.past < EXPIRE && Speaks(s, a, i) && Speaks(s, c, j) && i != j
    requires s.sessions[a] != "" && name != "" && CountUsers(s.users, Bound(name)) == 0
    ensures var owner, nick := s.sessions[a], Bound(nickname);
            var x := s.users[i := Saved(s.users[i], Bound(name), h1, nick)];
            var y := x[j := Saved(x[j], Bound(owner), h2, nick)];
            var z := y[j := Saved(y[j], Bound(owner), h3, nick)];
            var t, u := s.(users := x), s.(users := y);
            && Handle(r, s, a, now, Change(name, h1, nickname)) == (t, Success)
            && !IsLoggedIn(t, a, now)
            && Handle(r, t, c, now, Change(owner, h2, nickname)) == (u, Success)
            && IsLoggedIn(u, a, now) && Speaks(u, a, j) && !Speaks(u, a, i)
            && Handle(r, u, a, now, Change(owner, h3, nickname)) == (s.(users := z), Success)
  {
    hide TableOk, CacheOk, CountUsers, Bound, Handle, IsLoggedIn;
    var owner, nick := s.sessions[a], Bound(nickname);
    CountUsersZero(s.users, Bound(name));
    var x := s.users[i := Saved(s.users[i], Bound(name), h1, nick)];
    var y := x[j := Saved(x[j], Bound(owner), h2, nick)];
    var t, u := s.(users := x), s.(users := y);
    ChangeEffect(r, s, a, now, i, name, h1, nickname);
    HandleOk(r, s, a, now, Change(name, h1, nickname));
    LiveIff(t, a, now);
    ChangeEffect(r, t, c, now, j, owner, h2, nickname);
    HandleOk(r, t, c, now, Change(owner, h2, nickname));
    LiveIff(u, a, now);
    ChangeEffect(r, u, a, now, j, owner, h3, nickname);
  }
}
