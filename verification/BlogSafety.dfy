/** What every reachable state of the blog satisfies, and when its cache can be trusted. */
module BlogSafety {
  import opened BlogSpec
  import Decimal
  import TitleCodec

  datatype Asked = Asked(cookie: string, now: int, q: Request)

  // Invariants.

  ghost predicate TableOk(posts: seq<Post>, nextId: nat)
  {
    && (forall i :: 0 <= i < |posts| ==> posts[i].id < nextId)
    && (forall i, j :: 0 <= i < j < |posts| ==> posts[i].id < posts[j].id)
    && (forall i, j :: 0 <= i < j < |posts| ==> posts[i].postid != posts[j].postid)
    && (forall i :: 0 <= i < |posts| ==> IsSaved(posts[i]))
  }

  /** The row was saved under some title: its id encodes all of it, its title is what the binding left. */
  ghost predicate IsSaved(p: Post)
  {
    exists t :: TitleCodec.Bytes(t) && p.postid == TitleCodec.Encode(t) && p.title == Bound(t)
  }

  ghost predicate UsersOk(users: seq<User>)
  {
    forall i, j :: 0 <= i < j < |users| ==> users[i].username != users[j].username
  }

  ghost predicate HomeEntry(r: Rendering, posts: seq<Post>, k: string, v: string)
  {
    posts != [] && exists n: nat :: n < PAGES && k == HomeKey(n) && v == r.compress(r.home(posts, n))
  }

  predicate PostEntry(r: Rendering, posts: seq<Post>, k: string, v: string)
  {
    CountIds(posts, k) == 1 && v == r.compress(r.post(posts[RowOf(posts, k)]))
  }

  /** Every cached page is the compressed rendering of the tables as they are now. */
  ghost predicate CacheOk(r: Rendering, posts: seq<Post>, cache: map<string, string>)
  {
    forall k :: k in cache ==> HomeEntry(r, posts, k, cache[k]) || PostEntry(r, posts, k, cache[k])
  }

  ghost predicate StateOk(r: Rendering, s: State)
  {
    TableOk(s.posts, s.nextId) && UsersOk(s.users) && AtMostOne(s.sessions) && CacheOk(r, s.posts, s.cache)
  }

  // Counting.

  lemma {:induction false} CountIdsZero(posts: seq<Post>, id: string)
    ensures CountIds(posts, id) == 0 <==> forall i :: 0 <= i < |posts| ==> posts[i].postid != id
  {
    if posts != [] {
      CountIdsZero(posts[..|posts| - 1], id);
      assert forall i :: 0 <= i < |posts| - 1 ==> posts[..|posts| - 1][i] == posts[i];
    }
  }

  lemma {:induction false} CountIdsOne(posts: seq<Post>, id: string)
    requires forall i, j :: 0 <= i < j < |posts| ==> posts[i].postid != posts[j].postid
    ensures CountIds(posts, id) <= 1
  {
    if posts != [] {
      CountIdsOne(posts[..|posts| - 1], id);
      CountIdsZero(posts[..|posts| - 1], id);
    }
  }

  lemma {:induction false} CountUsersZero(users: seq<User>, name: string)
    ensures CountUsers(users, name) == 0 <==> forall i :: 0 <= i < |users| ==> users[i].username != name
  {
    if users != [] {
      CountUsersZero(users[..|users| - 1], name);
      assert forall i :: 0 <= i < |users| - 1 ==> users[..|users| - 1][i] == users[i];
    }
  }

  lemma {:induction false} CountUsersOne(users: seq<User>, name: string)
    requires UsersOk(users)
    ensures CountUsers(users, name) <= 1
  {
    if users != [] {
      CountUsersOne(users[..|users| - 1], name);
      CountUsersZero(users[..|users| - 1], name);
    }
  }

  // Sessions.

  lemma CheckedOk(s: State, cookie: string, now: int)
    requires AtMostOne(s.sessions)
    ensures var t := Checked(s, cookie, now);
            && t == s.(sessions := t.sessions, past := t.past) && AtMostOne(t.sessions)
            && (HasSession(t, cookie) <==> IsLoggedIn(s, cookie, now))
            && (HasSession(t, cookie) <==> cookie in t.sessions)
            && Checked(t, cookie, now) == t
  {
  }

  /** Dropping the sessions of the user behind a cookie drops that cookie's session and no other. */
  lemma WithoutIsRemoval(sessions: map<string, string>, cookie: string)
    requires AtMostOne(sessions) && cookie in sessions
    ensures Without(sessions, sessions[cookie]) == sessions - {cookie}
  {
  }

  lemma CreateSessionOk(s: State, name: string, session: string, now: int)
    requires AtMostOne(s.sessions)
    ensures var t := CreateSession(s, name, session, now);
            && AtMostOne(t.sessions) && session in t.sessions && t.sessions[session] == name
            && forall k :: k in t.sessions && t.sessions[k] == name ==> k == session
  {
  }

  // What views leave alone.

  lemma CheckedTables(s: State, asker: string, now: int)
    ensures var t := Checked(s, asker, now);
            && t == s.(sessions := t.sessions, past := t.past)
            && forall k :: k in t.sessions ==> k in s.sessions && t.sessions[k] == s.sessions[k]
  {
    hide CountUsers, Bound;
  }

  /** A view changes the sessions as the check does, and the cache. */
  lemma ViewTables(r: Rendering, s: State, asker: string, now: int, q: Request)
    requires IsView(q) && WellFormed(q)
    ensures var t := View(r, s, asker, now, q).0;
            && t == s.(sessions := t.sessions, past := t.past, cache := t.cache)
            && forall k :: k in t.sessions ==> k in s.sessions && t.sessions[k] == s.sessions[k]
  {
    hide Checked, CountIds, RowOf, HomeKey, HasSession, WellFormed, Key, IsLoggedIn;
    CheckedTables(s, asker, now);
    CheckedTables(Checked(s, asker, now), asker, now);
  }

  // The cache.

  lemma GetPostOk(r: Rendering, s: State, cookie: string, now: int, id: string)
    requires StateOk(r, s)
    ensures StateOk(r, GetPost(r, s, cookie, now, id).0)
  {
    CheckedOk(s, cookie, now);
  }

  lemma GetHomeOk(r: Rendering, s: State, cookie: string, now: int, n: nat)
    requires StateOk(r, s) && n < PAGES
    ensures StateOk(r, GetHome(r, s, cookie, now, n).0)
  {
    CheckedOk(s, cookie, now);
    var t := GetHome(r, s, cookie, now, n).0;
    forall k | k in t.cache
      ensures HomeEntry(r, s.posts, k, t.cache[k]) || PostEntry(r, s.posts, k, t.cache[k])
    {
    }
  }

  lemma ViewOk(r: Rendering, s: State, cookie: string, now: int, q: Request)
    requires StateOk(r, s) && IsView(q) && WellFormed(q)
    ensures StateOk(r, View(r, s, cookie, now, q).0)
  {
    hide TableOk, CacheOk, UsersOk, GetPost, GetHome, Checked;
    CheckedOk(s, cookie, now);
    var t := if Key(q) in s.cache && IsLoggedIn(s, cookie, now) then Checked(s, cookie, now) else s;
    RenderedOk(r, s, cookie, now, q);
    SameTables(r, s, Checked(s, cookie, now));
    RenderedOk(r, Checked(s, cookie, now), cookie, now, q);
  }

  lemma SameTables(r: Rendering, s: State, t: State)
    requires StateOk(r, s) && t == s.(sessions := t.sessions, past := t.past) && AtMostOne(t.sessions)
    ensures StateOk(r, t)
  {
  }

  lemma RenderedOk(r: Rendering, s: State, cookie: string, now: int, q: Request)
    requires StateOk(r, s) && IsView(q) && WellFormed(q)
    ensures StateOk(r, Rendered(r, s, cookie, now, q).0)
  {
    hide StateOk, GetPost, GetHome;
    match q
    case ViewPost(id) => GetPostOk(r, s, cookie, now, id);
    case ViewHome => GetHomeOk(r, s, cookie, now, 0);
    case ViewSpecificHome(digits) =>
      NumeralBound(digits);
      GetHomeOk(r, s, cookie, now, Decimal.ToInt(digits));
  }

  // The changes.

  lemma InsertStep(s: State, title: string, content: string, date: string, author: string, n: nat)
    requires TitleCodec.Bytes(title) && n <= |s.users|
    ensures Insert(s, title, content, date, author, 0) == s
    ensures n < |s.users| ==>
              var t := Insert(s, title, content, date, author, n);
              Insert(s, title, content, date, author, n + 1)
              == if s.users[n].username != Bound(author) then t
                 else t.(posts := t.posts + [NewRow(t.nextId, title, content, date, s.users[n].nickname)],
                         nextId := t.nextId + 1, cache := map[])
  {
    hide Bound, NewRow;
  }

  /** With one user of that name exactly one row is inserted. */
  lemma {:induction false} InsertOne(s: State, title: string, content: string, date: string, author: string,
                                     n: nat, i: nat)
    requires TitleCodec.Bytes(title) && n <= |s.users| && UsersOk(s.users)
    requires i < |s.users| && s.users[i].username == Bound(author)
    ensures Insert(s, title, content, date, author, n) ==
            if n <= i then s
            else s.(posts := s.posts + [NewRow(s.nextId, title, content, date, s.users[i].nickname)],
                    nextId := s.nextId + 1, cache := map[])
  {
    if n > 0 {
      InsertOne(s, title, content, date, author, n - 1, i);
    }
  }

  lemma {:induction false} InsertKeeps(s: State, title: string, content: string, date: string, author: string, n: nat)
    requires TitleCodec.Bytes(title) && n <= |s.users|
    ensures var t := Insert(s, title, content, date, author, n);
            t.users == s.users && t.sessions == s.sessions && t.past == s.past
  {
    if n > 0 {
      InsertKeeps(s, title, content, date, author, n - 1);
    }
  }

  lemma FindUser(users: seq<User>, name: string) returns (i: nat)
    requires CountUsers(users, name) == 1
    ensures i < |users| && users[i].username == name
  {
    CountUsersZero(users, name);
    i :| 0 <= i < |users| && users[i].username == name;
  }

  lemma NewRowSaved(id: nat, title: string, content: string, date: string, author: string)
    requires TitleCodec.Bytes(title)
    ensures IsSaved(NewRow(id, title, content, date, author))
  {
  }

  lemma CreatePostOk(r: Rendering, s: State, title: string, content: string, date: string, author: string)
    requires StateOk(r, s) && TitleCodec.Bytes(title) && CountUsers(s.users, Bound(author)) == 1
    ensures StateOk(r, CreatePost(s, title, content, date, author).0)
  {
    hide CacheOk, TitleCodec.Encode, TitleCodec.Bytes, CountUsers, CountIds, IsSaved;
    if CreatePost(s, title, content, date, author).1 == Success {
      var i := FindUser(s.users, Bound(author));
      InsertOne(s, title, content, date, author, |s.users|, i);
      CountIdsZero(s.posts, TitleCodec.Encode(title));
      NewRowSaved(s.nextId, title, content, date, s.users[i].nickname);
      NothingCached(r, CreatePost(s, title, content, date, author).0.posts);
    }
  }

  lemma NothingCached(r: Rendering, posts: seq<Post>)
    ensures CacheOk(r, posts, map[])
  {
  }

  lemma UpdatePostOk(r: Rendering, s: State, id: nat, title: string, content: string, date: string)
    requires StateOk(r, s) && TitleCodec.Bytes(title)
    ensures StateOk(r, UpdatePost(s, id, title, content, date).0)
  {
    hide CacheOk, TitleCodec.Encode, TitleCodec.Bytes, CountUsers, CountIds, IsSaved;
    CountIdsZero(s.posts, TitleCodec.Encode(title));
    forall i | 0 <= i < |s.posts|
      ensures IsSaved(NewRow(id, title, content, date, s.posts[i].author))
    {
      NewRowSaved(id, title, content, date, s.posts[i].author);
    }
    NothingCached(r, Rewritten(s.posts, id, title, content, date));
  }

  lemma {:induction false} RemovedNone(posts: seq<Post>, id: nat)
    requires forall i :: 0 <= i < |posts| ==> posts[i].id != id
    ensures Removed(posts, id) == posts
  {
    if posts != [] {
      RemovedNone(posts[..|posts| - 1], id);
    }
  }

  lemma {:induction false} RemovedAt(posts: seq<Post>, i: nat)
    requires i < |posts| && forall k :: 0 <= k < |posts| && k != i ==> posts[k].id != posts[i].id
    ensures Removed(posts, posts[i].id) == posts[..i] + posts[i + 1..]
  {
    var n := |posts| - 1;
    if i < n {
      RemovedAt(posts[..n], i);
      assert posts[..n][..i] == posts[..i] && posts[..n][i + 1..] + [posts[n]] == posts[i + 1..];
    } else {
      RemovedNone(posts[..n], posts[i].id);
    }
  }

  lemma CutOk(posts: seq<Post>, nextId: nat, i: nat)
    requires TableOk(posts, nextId) && i < |posts|
    ensures TableOk(posts[..i] + posts[i + 1..], nextId)
  {
    hide IsSaved;
    var r := posts[..i] + posts[i + 1..];
    assert forall k :: 0 <= k < |r| ==> r[k] == posts[if k < i then k else k + 1];
  }

  lemma DeletePostOk(r: Rendering, s: State, id: nat)
    requires StateOk(r, s)
    ensures StateOk(r, DeletePost(s, id).0)
  {
    hide CacheOk, Removed, IsSaved, UsersOk;
    if HasRow(s.posts, id) {
      var i :| 0 <= i < |s.posts| && s.posts[i].id == id;
      RemovedAt(s.posts, i);
      NothingCached(r, Removed(s.posts, id));
      CutOk(s.posts, s.nextId, i);
    }
  }

  /** With distinct ids an update writes one row and keeps all others in place. */
  lemma RewrittenOne(posts: seq<Post>, nextId: nat, i: nat, title: string, content: string, date: string)
    requires TableOk(posts, nextId) && i < |posts| && TitleCodec.Bytes(title)
    ensures Rewritten(posts, posts[i].id, title, content, date)
         == posts[i := NewRow(posts[i].id, title, content, date, posts[i].author)]
  {
    hide IsSaved, NewRow;
  }

  /** With distinct names so does a change of a user's details. */
  lemma RenamedOne(users: seq<User>, i: nat, name: string, hash: string, nickname: string)
    requires UsersOk(users) && i < |users|
    ensures Renamed(users, users[i].username, name, hash, nickname) == users[i := Saved(users[i], name, hash, nickname)]
  {
    hide Saved;
  }

  lemma RenamedOk(users: seq<User>, oldName: string, name: string, hash: string, nickname: string)
    requires UsersOk(users) && (name == oldName || CountUsers(users, name) == 0)
    ensures UsersOk(Renamed(users, oldName, name, hash, nickname))
  {
    hide CountUsers;
    CountUsersZero(users, name);
  }

  lemma ActOk(r: Rendering, t: State, cookie: string, q: Request)
    requires StateOk(r, t) && WellFormed(q) && HasSession(t, cookie) && !IsView(q) && !q.Login?
    ensures StateOk(r, Act(t, cookie, q).0)
  {
    hide TableOk, CacheOk, UsersOk, Renamed, CreatePost, UpdatePost, DeletePost, CountUsers, TitleCodec.Bytes;
    var name := t.sessions[cookie];
    NothingCached(r, t.posts);
    match q
    case Logout => WithoutIsRemoval(t.sessions, cookie);
    case Create(title, content, date) => CreatePostOk(r, t, title, content, date, name);
    case Update(id, title, content, date) => UpdatePostOk(r, t, id, title, content, date);
    case Delete(id) => DeletePostOk(r, t, id);
    case Change(newName, hash, nickname) =>
      if ChangeUser(t, name, newName, hash, nickname).1 == Success {
        RenamedOk(t.users, Bound(name), Bound(newName), hash, Bound(nickname));
      }
    case Reload =>
  }

  lemma HandleOk(r: Rendering, s: State, cookie: string, now: int, q: Request)
    requires StateOk(r, s) && WellFormed(q)
    ensures StateOk(r, Handle(r, s, cookie, now, q).0)
  {
    hide TableOk, CacheOk, UsersOk, View, Act, Checked, CreateSession, WellFormed, AtMostOne;
    if IsView(q) {
      ViewOk(r, s, cookie, now, q);
    } else if q.Login? {
      CreateSessionOk(s, q.username, q.session, now);
      LoginTables(s, q.username, q.session, now);
      SameTables(r, s, CreateSession(s, q.username, q.session, now));
    } else {
      CheckedOk(s, cookie, now);
      var t := Checked(s, cookie, now);
      SameTables(r, s, t);
      if HasSession(t, cookie) {
        ActOk(r, t, cookie, q);
      }
    }
  }

  lemma LoginTables(s: State, name: string, session: string, now: int)
    ensures var t := CreateSession(s, name, session, now); t == s.(sessions := t.sessions, past := t.past)
  {
  }

  function Run(r: Rendering, s: State, asked: seq<Asked>): State
    requires forall a :: a in asked ==> WellFormed(a.q)
  {
    if asked == [] then s
    else
      var a := asked[|asked| - 1];
      Handle(r, Run(r, s, asked[..|asked| - 1]), a.cookie, a.now, a.q).0
  }

  /** Every reachable state is sound: table, users, at most one session per name, and the cache. */
  lemma {:induction false} RunOk(r: Rendering, s: State, asked: seq<Asked>)
    requires StateOk(r, s) && forall a :: a in asked ==> WellFormed(a.q)
    ensures StateOk(r, Run(r, s, asked))
  {
    hide StateOk, Handle, WellFormed;
    if asked != [] {
      var n := |asked| - 1;
      RunOk(r, s, asked[..n]);
      HandleOk(r, Run(r, s, asked[..n]), asked[n].cookie, asked[n].now, asked[n].q);
    }
  }
}
