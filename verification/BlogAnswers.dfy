/**
 * What single requests are answered and leave behind in any sound state, in terms of the rows, the sessions and
 * the cache: who may log in, what a request without a session gets, and what the views show and store.
 */
module BlogAnswers {
  import opened BlogSpec
  import opened BlogSafety
  import CStrings
  import Decimal
  import TitleCodec

  /** What the database sees of a text: its longest prefix without NUL. */
  lemma BoundPrefix(s: string)
    ensures var b := Bound(s);
            |b| <= |s| && b == s[..|b|] && '\0' !in b && (|b| < |s| ==> s[|b|] == '\0')
  {
    CStrings.CStrPrefix(s);
    CutAtNul(s, 0);
  }

  lemma {:induction false} CutAtNul(s: string, i: nat)
    requires i <= |s|
    ensures var n := i + |CStrings.CStr(s, i)|; n <= |s| && (n < |s| ==> s[n] == '\0')
    decreases |s| - i
  {
    if i < |s| && s[i] != '\0' {
      CutAtNul(s, i + 1);
    }
  }

  // Logging in.

  /** With distinct names the stored hash of a name is that of its row. */
  lemma {:induction false} PassRow(users: seq<User>, i: nat)
    requires UsersOk(users) && i < |users|
    ensures CountUsers(users, users[i].username) == 1 && PassOf(users, users[i].username) == users[i].pass
  {
    CountUsersOne(users, users[i].username);
    CountUsersZero(users, users[i].username);
    if i < |users| - 1 {
      PassRow(users[..|users| - 1], i);
    }
  }

  /** Row i is the one named, and its hash matches the password. */
  predicate Admits(r: Rendering, s: State, i: nat, name: string, password: string)
  {
    i < |s.users| && s.users[i].username == Bound(name) && r.check(s.users[i].pass, Bound(password))
  }

  /**
   * A login is granted if and only if the row of that name holds a hash that the password matches. It then replaces
   * the sessions of the name by the new one and renews the time; a refused login changes nothing.
   */
  lemma LoginEffect(r: Rendering, s: State, cookie: string, now: int, name: string, password: string, session: string)
    requires StateOk(r, s)
    ensures var a := Handle(r, s, cookie, now, Login(name, password, session));
            var kept := map k | k in s.sessions && s.sessions[k] != name :: s.sessions[k];
            && (a.1 == LoggedIn(session) <==> exists i :: Admits(r, s, i, name, password))
            && (a.1 == LoggedIn(session) ==> a.0 == s.(sessions := kept[session := name], past := now))
            && (a.1 != LoggedIn(session) ==> a == (s, WrongPassword))
  {
    hide TableOk, CacheOk, CountUsers, PassOf, Bound;
    CountUsersZero(s.users, Bound(name));
    forall i: nat | i < |s.users| && s.users[i].username == Bound(name)
      ensures Granted(r, s.users, name, password) <==> r.check(s.users[i].pass, Bound(password))
    {
      PassRow(s.users, i);
    }
    if Granted(r, s.users, name, password) {
      var i := FindUser(s.users, Bound(name));
      assert Admits(r, s, i, name, password);
    }
  }

  // Without a session.

  /** What asking for the session does: expiry after 1800 seconds, and dropping the cookie of a vanished user. */
  lemma CheckedEffect(s: State, cookie: string, now: int)
    requires UsersOk(s.users) && AtMostOne(s.sessions)
    ensures Checked(s, cookie, now)
         == if now - s.past >= 1800 then s.(sessions := map[], past := now)
            else if cookie in s.sessions && forall u :: u in s.users ==> u.username != Bound(s.sessions[cookie]) then
              s.(sessions := s.sessions - {cookie})
            else s
  {
    hide CountUsers, Bound;
    if cookie in s.sessions {
      CountUsersZero(s.users, Bound(s.sessions[cookie]));
      CountUsersOne(s.users, Bound(s.sessions[cookie]));
      WithoutIsRemoval(s.sessions, cookie);
      var t := s.(sessions := s.sessions - {cookie});
      assert t == s.(sessions := Without(s.sessions, s.sessions[cookie]));
    }
  }

  /** Whatever would change something is refused without a session; posts, users and cache stay as they are. */
  lemma Refused(r: Rendering, s: State, cookie: string, now: int, q: Request)
    requires StateOk(r, s) && WellFormed(q) && !IsView(q) && !q.Login? && !IsLoggedIn(s, cookie, now)
    ensures var a := Handle(r, s, cookie, now, q);
            && a == (Checked(s, cookie, now), NoLogin)
            && a.0 == s.(sessions := a.0.sessions, past := a.0.past)
            && forall k :: k in a.0.sessions ==> k in s.sessions && a.0.sessions[k] == s.sessions[k]
  {
    hide TableOk, CacheOk, UsersOk, CountUsers, Bound, Act, WellFormed;
    CheckedOk(s, cookie, now);
    CheckedTables(s, cookie, now);
  }

  /** Reloading empties the cache and does nothing else. */
  lemma ReloadEffect(r: Rendering, s: State, cookie: string, now: int)
    requires StateOk(r, s) && IsLoggedIn(s, cookie, now)
    ensures Handle(r, s, cookie, now, Reload) == (s.(cache := map[]), CacheCleared)
  {
    hide TableOk, CacheOk, UsersOk, CountUsers, Bound;
  }

  // Views.

  /** What a logged-in reader of a post also gets, and of any other page. */
  function PostExtra(r: Rendering, s: State, cookie: string, now: int, p: Post): string
  {
    if IsLoggedIn(s, cookie, now) && cookie in s.sessions then r.postControls(s.sessions[cookie], s.users, p) else ""
  }

  function Extra(r: Rendering, s: State, cookie: string, now: int): string
  {
    if IsLoggedIn(s, cookie, now) && cookie in s.sessions then r.controls(s.sessions[cookie], s.users) else ""
  }

  lemma GetPostAnswer(r: Rendering, s: State, cookie: string, now: int, id: string)
    requires StateOk(r, s)
    ensures var a, t := GetPost(r, s, cookie, now, id), Checked(s, cookie, now);
            && (forall i :: 0 <= i < |s.posts| && s.posts[i].postid == id ==>
                  a == (t.(cache := s.cache[id := r.compress(r.post(s.posts[i]))]),
                        Page(r.post(s.posts[i]) + PostExtra(r, s, cookie, now, s.posts[i]))))
            && ((forall i :: 0 <= i < |s.posts| ==> s.posts[i].postid != id) ==>
                  a == (t.(cache := s.cache - {id}), Page(Extra(r, s, cookie, now) + "{notfound}")))
  {
    hide CacheOk, UsersOk, CountUsers, Bound, CountIds;
    CheckedOk(s, cookie, now);
    CountIdsZero(s.posts, id);
    CountIdsOne(s.posts, id);
    hide AtMostOne;
  }

  lemma GetHomeAnswer(r: Rendering, s: State, cookie: string, now: int, n: nat)
    requires StateOk(r, s)
    ensures var a, t := GetHome(r, s, cookie, now, n), Checked(s, cookie, now);
            var stored := "home" + Decimal.ToString(n);
            a == if s.posts == [] then (t.(cache := s.cache - {stored}), Page(Extra(r, s, cookie, now)))
                 else (t.(cache := s.cache[stored := r.compress(r.home(s.posts, n))]),
                       Page(r.home(s.posts, n) + Extra(r, s, cookie, now)))
  {
    hide CacheOk, UsersOk, CountUsers, Bound, TableOk;
    CheckedOk(s, cookie, now);
    assert HomeKey(n) == "home" + Decimal.ToString(n);
    hide HomeKey, AtMostOne;
  }

  /** Asking twice for the session is asking once. */
  lemma AskedOnce(r: Rendering, s: State, cookie: string, now: int)
    requires StateOk(r, s)
    ensures var t := Checked(s, cookie, now);
            && StateOk(r, t) && t == s.(sessions := t.sessions, past := t.past) && Checked(t, cookie, now) == t
            && (IsLoggedIn(t, cookie, now) <==> IsLoggedIn(s, cookie, now))
            && Extra(r, t, cookie, now) == Extra(r, s, cookie, now)
            && forall p :: PostExtra(r, t, cookie, now, p) == PostExtra(r, s, cookie, now, p)
  {
    hide CacheOk, UsersOk, CountUsers, Bound, TableOk;
    CheckedOk(s, cookie, now);
    SameTables(r, s, Checked(s, cookie, now));
    hide AtMostOne;
  }

  /**
   * A reader without a session gets a cached page as it is. Otherwise the page is that of the row with the id, which
   * is then cached without the controls, or the not-found page, and then nothing stays cached under the id.
   */
  lemma ViewPostEffect(r: Rendering, s: State, cookie: string, now: int, id: string)
    requires StateOk(r, s) && InPath(id)
    ensures var a, t := Handle(r, s, cookie, now, ViewPost(id)), Checked(s, cookie, now);
            if id in s.cache && !IsLoggedIn(s, cookie, now) then
              a == (t, Gzipped(s.cache[id]))
            else
              && (forall i :: 0 <= i < |s.posts| && s.posts[i].postid == id ==>
                    a == (t.(cache := s.cache[id := r.compress(r.post(s.posts[i]))]),
                          Page(r.post(s.posts[i]) + PostExtra(r, s, cookie, now, s.posts[i]))))
              && ((forall i :: 0 <= i < |s.posts| ==> s.posts[i].postid != id) ==>
                    a == (t.(cache := s.cache - {id}), Page(Extra(r, s, cookie, now) + "{notfound}")))
  {
    hide StateOk, InPath, GetPost, Checked, IsLoggedIn, Extra, PostExtra;
    AskedOnce(r, s, cookie, now);
    GetPostAnswer(r, s, cookie, now, id);
    GetPostAnswer(r, Checked(s, cookie, now), cookie, now, id);
  }

  lemma HomeKeys(q: Request)
    requires q.ViewHome? || q.ViewSpecificHome?
    ensures Key(q) == if q.ViewHome? then "home0" else "home" + q.digits
  {
  }

  /**
   * A home page is looked up under `home` and the digits of the request and stored under `home` and the canonical
   * numeral of its number.
   */
  lemma ViewHomeEffect(r: Rendering, s: State, cookie: string, now: int, q: Request)
    requires StateOk(r, s) && WellFormed(q) && (q.ViewHome? || q.ViewSpecificHome?)
    ensures var looked := if q.ViewHome? then "home0" else "home" + q.digits;
            var n := if q.ViewHome? then 0 else Decimal.ToInt(q.digits);
            var stored := "home" + Decimal.ToString(n);
            var a, t := Handle(r, s, cookie, now, q), Checked(s, cookie, now);
            a == if looked in s.cache && !IsLoggedIn(s, cookie, now) then (t, Gzipped(s.cache[looked]))
                 else if s.posts == [] then (t.(cache := s.cache - {stored}), Page(Extra(r, s, cookie, now)))
                 else (t.(cache := s.cache[stored := r.compress(r.home(s.posts, n))]),
                       Page(r.home(s.posts, n) + Extra(r, s, cookie, now)))
  {
    hide StateOk, GetHome, Checked, IsLoggedIn, Extra, PostExtra;
    var n := if q.ViewHome? then 0 else Decimal.ToInt(q.digits);
    HomeKeys(q);
    hide Key;
    AskedOnce(r, s, cookie, now);
    GetHomeAnswer(r, s, cookie, now, n);
    GetHomeAnswer(r, Checked(s, cookie, now), cookie, now, n);
  }
}
