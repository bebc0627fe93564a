/**
 * The blog object (src/blog.cpp, src/main.cpp): handlers that update the session map, the page cache
 * and the tables in place. Each one does to the fields what the state machine says. SQL statements are
 * the query functions on rows.
 */
module Blog {
  import opened BlogSpec
  import opened BlogSafety
  import opened BlogEffects
  import Decimal
  import TitleCodec

  class BlogSystem {
    const r: Rendering
    var posts: seq<Post>
    var nextId: nat
    var users: seq<User>
    var sessions: map<string, string>
    var cache: map<string, string>
    var past: int

    ghost function Abstract(): State
      reads this
    {
      State(posts, nextId, users, sessions, cache, past)
    }

    ghost predicate Valid()
      reads this
    {
      StateOk(r, Abstract())
    }

    /** A fresh process over existing tables: no sessions, no cached pages. */
    constructor (r: Rendering, posts: seq<Post>, nextId: nat, users: seq<User>)
      requires TableOk(posts, nextId) && UsersOk(users)
      ensures Valid() && this.r == r && Abstract() == State(posts, nextId, users, map[], map[], 0)
    {
      hide TableOk, UsersOk, HomeEntry, PostEntry;
      this.r := r;
      this.posts, this.nextId, this.users := posts, nextId, users;
      sessions, cache, past := map[], map[], 0;
    }

    // Sessions.

    /** Erases the first entry with that name; in whatever order the map is walked, there is at most one. */
    method Loggout(username: string)
      requires AtMostOne(sessions)
      modifies this`sessions
      ensures sessions == Without(old(sessions), username)
    {
      var items := sessions.Keys;
      while items != {}
        invariant items <= sessions.Keys && sessions == old(sessions)
        invariant forall k :: k in sessions && k !in items ==> sessions[k] != username
        decreases |items|
      {
        var k :| k in items;
        if sessions[k] == username {
          WithoutIsRemoval(sessions, k);
          sessions := sessions - {k};
          return;
        }
        items := items - {k};
      }
      assert Without(sessions, username) == sessions;
    }

    method IsLoggedIn(cookie: string, now: int) returns (yes: bool)
      requires AtMostOne(sessions)
      modifies this`sessions, this`past
      ensures Abstract() == Checked(old(Abstract()), cookie, now) && yes == HasSession(Abstract(), cookie)
      ensures AtMostOne(sessions)
    {
      ghost var s := Abstract();
      CheckedOk(s, cookie, now);
      if now - past >= EXPIRE {
        past := now;
        sessions := map[];
      }
      if cookie in sessions {
        if CountUsers(users, Bound(sessions[cookie])) == 1 {
          return true;
        } else {
          Loggout(sessions[cookie]);
        }
      }
      return false;
    }

    method CreateSession(username: string, session: string, now: int)
      requires AtMostOne(sessions)
      modifies this`sessions, this`past
      ensures Abstract() == BlogSpec.CreateSession(old(Abstract()), username, session, now)
    {
      Loggout(username);
      past := now;
      sessions := sessions[session := username];
    }

    // Pages.

    method AddControls(cookie: string, now: int, page: string) returns (full: string)
      requires AtMostOne(sessions)
      modifies this`sessions, this`past
      ensures Abstract() == Checked(old(Abstract()), cookie, now) && full == page + Controls(r, Abstract(), cookie)
    {
      var yes := IsLoggedIn(cookie, now);
      full := page;
      if yes {
        full := full + r.controls(sessions[cookie], users);
      }
    }

    method GetPosts(cookie: string, now: int, page: nat) returns (reply: Reply)
      requires AtMostOne(sessions)
      modifies this`sessions, this`past, this`cache
      ensures (Abstract(), reply) == GetHome(r, old(Abstract()), cookie, now, page)
    {
      if |posts| <= 0 {
        var full := AddControls(cookie, now, "");
        assert full == Controls(r, Abstract(), cookie);
        cache := cache - {CACHEHOME + Decimal.ToString(page)};
        return Page(full);
      }
      var text := r.home(posts, page);
      cache := cache[CACHEHOME + Decimal.ToString(page) := r.compress(text)];
      var full := AddControls(cookie, now, text);
      return Page(full);
    }

    method GetThisPost(cookie: string, now: int, id: string) returns (reply: Reply)
      requires AtMostOne(sessions)
      modifies this`sessions, this`past, this`cache
      ensures (Abstract(), reply) == GetPost(r, old(Abstract()), cookie, now, id)
    {
      if CountIds(posts, id) != 1 {
        var full := AddControls(cookie, now, "");
        assert full == Controls(r, Abstract(), cookie);
        cache := cache - {id};
        return Page(full + NOTFOUND);
      }
      var row := posts[RowOf(posts, id)];
      var text := r.post(row);
      cache := cache[id := r.compress(text)];
      var yes := IsLoggedIn(cookie, now);
      if yes {
        text := text + r.postControls(sessions[cookie], users, row);
      }
      assert r.post(row) + "" == r.post(row);
      return Page(text);
    }

    /** The three page handlers: the cache is asked before the session. */
    method ViewPage(cookie: string, now: int, q: Request) returns (reply: Reply)
      requires AtMostOne(sessions) && IsView(q) && WellFormed(q)
      modifies this`sessions, this`past, this`cache
      ensures (Abstract(), reply) == View(r, old(Abstract()), cookie, now, q)
    {
      var render := Key(q) !in cache;
      if !render {
        render := IsLoggedIn(cookie, now);
      }
      if !render {
        return Gzipped(cache[Key(q)]);
      }
      match q {
        case ViewPost(id) => reply := GetThisPost(cookie, now, id);
        case ViewHome => reply := GetPosts(cookie, now, 0);
        case ViewSpecificHome(digits) => reply := GetPosts(cookie, now, Decimal.ToInt(digits));
      }
    }

    // Changes.

    method CreatePost(title: string, content: string, date: string, author: string) returns (reply: Reply)
      requires TitleCodec.Bytes(title)
      modifies this`posts, this`nextId, this`cache
      ensures (Abstract(), reply) == BlogSpec.CreatePost(old(Abstract()), title, content, date, author)
    {
      if title == "" || content == "" { return FieldsError; }
      var postid := TitleCodec.TitleEncode(title);
      if CountIds(posts, postid) != 0 { return TitleTaken; }
      hide Insert, Bound, TitleCodec.Encode, TitleCodec.Bytes, CountIds;
      var i := 0;
      InsertStep(Abstract(), title, content, date, author, 0);
      while i < |users|
        invariant i <= |users| && users == old(users)
        invariant Abstract() == Insert(old(Abstract()), title, content, date, author, i)
      {
        InsertStep(old(Abstract()), title, content, date, author, i);
        if users[i].username == Bound(author) {
          posts := posts + [Post(nextId, Bound(title), Bound(content), postid, date, users[i].nickname)];
          nextId := nextId + 1;
          cache := map[];
        }
        i := i + 1;
      }
      return Success;
    }

    /**
     * One row is rewritten, keeping its id, its author and its place, or none is. The title is taken if any
     * row, the written one included, was saved under a title of the same normal form.
     */
    method UpdatePost(id: nat, title: string, content: string, date: string) returns (reply: Reply)
      requires Valid() && TitleCodec.Bytes(title)
      modifies this`posts, this`cache
      ensures Valid() && (Abstract(), reply) == BlogSpec.UpdatePost(old(Abstract()), id, title, content, date)
      ensures reply == FieldsError <==> title == "" || content == ""
      ensures reply == NotFound <==> reply != FieldsError && forall p :: p in old(posts) ==> p.id != id
      ensures reply == TitleTaken <==> reply != FieldsError && reply != NotFound && IsTaken(old(posts), title)
      ensures reply != Success ==> posts == old(posts) && cache == old(cache)
      ensures reply == Success ==>
                && cache == map[]
                && exists i :: 0 <= i < |old(posts)| && old(posts)[i].id == id
                     && posts == old(posts)[i := Post(id, Bound(title), Bound(content), TitleCodec.Encode(title), date,
                                                      old(posts)[i].author)]
    {
      hide TitleCodec.Encode, TitleCodec.Bytes, CacheOk, UsersOk, AtMostOne, CountIds, TableOk;
      hide IsTaken, Bound, Rewritten;
      UpdatePostOk(r, Abstract(), id, title, content, date);
      TakenIff(posts, nextId, title);
      if title == "" || content == "" { return FieldsError; }
      if HasRow(posts, id) {  // the column is the primary key, so there is at most one
        var postid := TitleCodec.TitleEncode(title);
        if CountIds(posts, postid) != 0 { return TitleTaken; }
        ghost var i :| 0 <= i < |posts| && posts[i].id == id;
        RewrittenOne(posts, nextId, i, title, content, date);
        posts := Rewritten(posts, id, title, content, date);
        cache := map[];
        return Success;
      }
      return NotFound;
    }

    /** One row is taken out and the others close up in order, or there is no such row. */
    method DeletePost(id: nat) returns (reply: Reply)
      requires Valid()
      modifies this`posts, this`cache
      ensures Valid() && (Abstract(), reply) == BlogSpec.DeletePost(old(Abstract()), id)
      ensures reply == Success || reply == NotFound
      ensures reply == NotFound <==> forall p :: p in old(posts) ==> p.id != id
      ensures reply == NotFound ==> posts == old(posts) && cache == old(cache)
      ensures reply == Success ==>
                && cache == map[]
                && exists i :: 0 <= i < |old(posts)| && old(posts)[i].id == id
                     && posts == old(posts)[..i] + old(posts)[i + 1..]
    {
      hide CacheOk, UsersOk, AtMostOne, Removed, IsSaved;
      DeletePostOk(r, Abstract(), id);
      if HasRow(posts, id) {  // the column is the primary key, so there is at most one
        ghost var i :| 0 <= i < |posts| && posts[i].id == id;
        RemovedAt(posts, i);
        posts := Removed(posts, id);
        cache := map[];
        return Success;
      }
      return NotFound;
    }

    /**
     * The row of the session's account is rewritten in place, with a new name only if no row has it. An empty
     * hash stands for an empty password field. The sessions keep the old name.
     */
    method ChangeUserDetails(cookie: string, name: string, hash: string, nickname: string) returns (reply: Reply)
      requires Valid() && HasSession(Abstract(), cookie)
      modifies this`users
      ensures Valid() && (Abstract(), reply) == ChangeUser(old(Abstract()), sessions[cookie], name, hash, nickname)
      ensures reply == FieldsError <==> name == ""
      ensures reply == UsernameTaken
         <==> name != "" && name != sessions[cookie] && exists u :: u in old(users) && u.username == Bound(name)
      ensures reply != Success ==> users == old(users)
      ensures reply == Success ==>
                exists i :: 0 <= i < |old(users)| && old(users)[i].username == Bound(sessions[cookie])
                  && users == old(users)[i := User(Bound(name), if hash == "" then old(users)[i].pass else hash,
                                                   Bound(nickname))]
    {
      hide TableOk, CacheOk, AtMostOne, CountUsers, Renamed, Bound;
      var original := sessions[cookie];
      ghost var i := FindUser(users, Bound(original));
      CountUsersZero(users, Bound(name));
      RenamedOne(users, i, Bound(name), hash, Bound(nickname));
      if |name| == 0 { return FieldsError; }
      if name != original {
        if CountUsers(users, Bound(name)) != 0 { return UsernameTaken; }
      }
      RenamedOk(users, Bound(original), Bound(name), hash, Bound(nickname));
      users := Renamed(users, Bound(original), Bound(name), hash, Bound(nickname));
      return Success;
    }

    // Handlers.

    method LogoutGet(cookie: string, now: int) returns (reply: Reply)
      requires AtMostOne(sessions)
      modifies this`sessions, this`past
      ensures (Abstract(), reply) == Handle(r, old(Abstract()), cookie, now, Logout)
    {
      var yes := IsLoggedIn(cookie, now);
      if yes {
        Loggout(sessions[cookie]);
        return LoggedOut;
      }
      return NoLogin;
    }

    method LoginPost(username: string, password: string, session: string, now: int) returns (reply: Reply)
      requires AtMostOne(sessions)
      modifies this`sessions, this`past
      ensures forall cookie ::
                (Abstract(), reply) == Handle(r, old(Abstract()), cookie, now, Login(username, password, session))
    {
      if CountUsers(users, Bound(username)) == 1 && r.check(PassOf(users, Bound(username)), Bound(password)) {
        CreateSession(username, session, now);
        return LoggedIn(session);
      }
      return WrongPassword;
    }

    method ReloadGet(cookie: string, now: int) returns (reply: Reply)
      requires AtMostOne(sessions)
      modifies this`sessions, this`past, this`cache
      ensures (Abstract(), reply) == Handle(r, old(Abstract()), cookie, now, Reload)
    {
      var yes := IsLoggedIn(cookie, now);
      if yes {
        cache := map[];
        return CacheCleared;
      }
      return NoLogin;
    }

    /** Any request: the state machine's step, which keeps the state sound. */
    method Serve(cookie: string, now: int, q: Request) returns (reply: Reply)
      requires Valid() && WellFormed(q)
      modifies this
      ensures (Abstract(), reply) == Handle(r, old(Abstract()), cookie, now, q)
      ensures Valid()
    {
      hide TableOk, UsersOk, CacheOk, AtMostOne, View, Act, Checked, CountUsers;
      HandleOk(r, Abstract(), cookie, now, q);
      if q.Logout? {
        reply := LogoutGet(cookie, now);
      } else if q.Reload? {
        reply := ReloadGet(cookie, now);
      } else if q.Login? {
        reply := LoginPost(q.username, q.password, q.session, now);
      } else if IsView(q) {
        reply := ViewPage(cookie, now, q);
      } else {
        var yes := IsLoggedIn(cookie, now);
        if !yes { return NoLogin; }
        SameTables(r, old(Abstract()), Abstract());
        reply := Edit(cookie, q);
      }
    }

    method Edit(cookie: string, q: Request) returns (reply: Reply)
      requires Valid() && WellFormed(q) && HasSession(Abstract(), cookie)
      requires q.Create? || q.Update? || q.Delete? || q.Change?
      modifies this`posts, this`nextId, this`cache, this`users
      ensures (Abstract(), reply) == Act(old(Abstract()), cookie, q)
    {
      hide BlogSpec.CreatePost, BlogSpec.UpdatePost, BlogSpec.DeletePost, ChangeUser, CountUsers;
      if q.Create? {
        reply := CreatePost(q.title, q.content, q.date, sessions[cookie]);
      } else if q.Update? {
        reply := UpdatePost(q.postId, q.newTitle, q.newContent, q.newDate);
      } else if q.Delete? {
        reply := DeletePost(q.oldId);
      } else {
        reply := ChangeUserDetails(cookie, q.newName, q.hash, q.nickname);
      }
    }
  }
}
