/**
 * The blog as a state machine on values: what each request does to the tables, the sessions and
 * the page cache, and what it answers. Rendering, gzip and the password check are arbitrary
 * functions; the clock, the names of new sessions and the hash of a new password are inputs.
 */
module BlogSpec {
  import CStrings
  import Decimal
  import TitleCodec

  datatype Post = Post(id: nat, title: string, content: string, postid: string, postdate: string, author: string)

  datatype User = User(username: string, pass: string, nickname: string)

  datatype Rendering = Rendering(
    post: Post -> string,                                // the page of one post
    home: (seq<Post>, nat) -> string,                    // one home page of a non-empty blog
    controls: (string, seq<User>) -> string,             // what a logged-in user also gets
    postControls: (string, seq<User>, Post) -> string,   // the same on the page of a post
    compress: string -> string,
    check: (string, string) -> bool)                     // does the password match the stored hash

  datatype State = State(
    posts: seq<Post>,               // in the order of their ids
    nextId: nat,
    users: seq<User>,
    sessions: map<string, string>,  // session name to username
    cache: map<string, string>,     // page key to compressed page
    past: int)                      // when the sessions were last renewed

  const EXPIRE: int := 1800
  const CACHEHOME: string := "home"
  const PAGES: nat := 1_000_000_000  // home pages are numbered below this
  const NOTFOUND: string := "{notfound}"

  datatype Reply =
    | Page(text: string)
    | Gzipped(blob: string)
    | LoggedIn(session: string)
    | WrongPassword
    | LoggedOut
    | NoLogin
    | FieldsError
    | TitleTaken
    | UsernameTaken
    | NotFound
    | Success
    | CacheCleared

  datatype Request =
    | ViewPost(id: string)
    | ViewHome
    | ViewSpecificHome(digits: string)
    | Login(username: string, password: string, session: string)
    | Logout
    | Create(title: string, content: string, date: string)
    | Update(postId: nat, newTitle: string, newContent: string, newDate: string)
    | Delete(oldId: nat)
    | Change(newName: string, hash: string, nickname: string)
    | Reload

  // The queries.

  /** Text is bound to a statement as a C string, so the database sees the part before the first NUL. */
  function Bound(s: string): (b: string)
    ensures '\0' !in b
  {
    CStrings.CStr(s, 0)
  }

  function CountIds(posts: seq<Post>, postid: string): nat
  {
    if posts == [] then 0
    else CountIds(posts[..|posts| - 1], postid) + if posts[|posts| - 1].postid == postid then 1 else 0
  }

  function CountUsers(users: seq<User>, name: string): nat
  {
    if users == [] then 0
    else CountUsers(users[..|users| - 1], name) + if users[|users| - 1].username == name then 1 else 0
  }

  /** The last row with that id; the queries are used where there is exactly one. */
  function RowOf(posts: seq<Post>, postid: string): (i: nat)
    requires CountIds(posts, postid) > 0
    ensures i < |posts| && posts[i].postid == postid
  {
    if posts[|posts| - 1].postid == postid then |posts| - 1 else RowOf(posts[..|posts| - 1], postid)
  }

  // Sessions.

  predicate AtMostOne(sessions: map<string, string>)
  {
    forall a, b :: a in sessions && b in sessions && sessions[a] == sessions[b] ==> a == b
  }

  function Without(sessions: map<string, string>, name: string): map<string, string>
  {
    map k | k in sessions && sessions[k] != name :: sessions[k]
  }

  function Expired(s: State, now: int): State
  {
    if now - s.past >= EXPIRE then s.(past := now, sessions := map[]) else s
  }

  predicate HasSession(s: State, cookie: string)
  {
    cookie in s.sessions && CountUsers(s.users, Bound(s.sessions[cookie])) == 1
  }

  /** What asking whether a request is logged in does to the sessions. */
  function Checked(s: State, cookie: string, now: int): State
  {
    var t := Expired(s, now);
    if cookie in t.sessions && !HasSession(t, cookie) then t.(sessions := Without(t.sessions, t.sessions[cookie]))
    else t
  }

  predicate IsLoggedIn(s: State, cookie: string, now: int)
  {
    HasSession(Expired(s, now), cookie)
  }

  // Pages.

  function HomeKey(n: nat): string { CACHEHOME + Decimal.ToString(n) }

  function Controls(r: Rendering, s: State, cookie: string): string
  {
    if HasSession(s, cookie) then r.controls(s.sessions[cookie], s.users) else ""
  }

  /** Rendering a post from the tables, which also fills the cache. */
  function GetPost(r: Rendering, s: State, cookie: string, now: int, id: string): (State, Reply)
  {
    var t := Checked(s, cookie, now);
    if CountIds(s.posts, id) != 1 then
      (t.(cache := t.cache - {id}), Page(Controls(r, t, cookie) + NOTFOUND))
    else
      var p := s.posts[RowOf(s.posts, id)];
      var page := r.post(p);
      (t.(cache := t.cache[id := r.compress(page)]),
       Page(page + if HasSession(t, cookie) then r.postControls(t.sessions[cookie], t.users, p) else ""))
  }

  function GetHome(r: Rendering, s: State, cookie: string, now: int, n: nat): (State, Reply)
  {
    var t := Checked(s, cookie, now);
    if s.posts == [] then
      (t.(cache := t.cache - {HomeKey(n)}), Page(Controls(r, t, cookie)))
    else
      var page := r.home(s.posts, n);
      (t.(cache := t.cache[HomeKey(n) := r.compress(page)]), Page(page + Controls(r, t, cookie)))
  }

  /** The key under which a view looks in the cache. */
  function Key(q: Request): string
    requires IsView(q)
  {
    match q
    case ViewPost(id) => id
    case ViewHome => CACHEHOME + "0"
    case ViewSpecificHome(digits) => CACHEHOME + digits
  }

  predicate IsView(q: Request) { q.ViewPost? || q.ViewHome? || q.ViewSpecificHome? }

  /** Rendering the page of a view from the tables. */
  function Rendered(r: Rendering, s: State, cookie: string, now: int, q: Request): (State, Reply)
    requires IsView(q) && WellFormed(q)
  {
    match q
    case ViewPost(id) => GetPost(r, s, cookie, now, id)
    case ViewHome => GetHome(r, s, cookie, now, 0)
    case ViewSpecificHome(digits) => GetHome(r, s, cookie, now, Decimal.ToInt(digits))
  }

  /** A view is answered from the cache unless the key is missing or the reader is logged in. */
  function View(r: Rendering, s: State, cookie: string, now: int, q: Request): (State, Reply)
    requires IsView(q) && WellFormed(q)
  {
    if Key(q) !in s.cache then Rendered(r, s, cookie, now, q)
    else if IsLoggedIn(s, cookie, now) then Rendered(r, Checked(s, cookie, now), cookie, now, q)
    else (Checked(s, cookie, now), Gzipped(s.cache[Key(q)]))
  }

  // Changes.

  function CreateSession(s: State, name: string, session: string, now: int): State
  {
    s.(sessions := Without(s.sessions, name)[session := name], past := now)
  }

  /** A row as it is stored: the id comes from the whole title, the title itself is cut by the binding. */
  function NewRow(id: nat, title: string, content: string, date: string, author: string): Post
    requires TitleCodec.Bytes(title)
  {
    Post(id, Bound(title), Bound(content), TitleCodec.Encode(title), date, author)
  }

  /** The rows inserted: one for every user row with the author's name. */
  function Insert(s: State, title: string, content: string, date: string, author: string, n: nat): State
    requires TitleCodec.Bytes(title) && n <= |s.users|
  {
    if n == 0 then s
    else
      var t := Insert(s, title, content, date, author, n - 1);
      if s.users[n - 1].username != Bound(author) then t
      else
        var row := NewRow(t.nextId, title, content, date, s.users[n - 1].nickname);
        t.(posts := t.posts + [row], nextId := t.nextId + 1, cache := map[])
  }

  function CreatePost(s: State, title: string, content: string, date: string, author: string): (State, Reply)
    requires TitleCodec.Bytes(title)
  {
    if title == "" || content == "" then (s, FieldsError)
    else if CountIds(s.posts, TitleCodec.Encode(title)) != 0 then (s, TitleTaken)
    else (Insert(s, title, content, date, author, |s.users|), Success)
  }

  predicate HasRow(posts: seq<Post>, id: nat)
  {
    exists i :: 0 <= i < |posts| && posts[i].id == id
  }

  function UpdatePost(s: State, id: nat, title: string, content: string, date: string): (State, Reply)
    requires TitleCodec.Bytes(title)
  {
    if title == "" || content == "" then (s, FieldsError)
    else if !HasRow(s.posts, id) then (s, NotFound)
    else if CountIds(s.posts, TitleCodec.Encode(title)) != 0 then (s, TitleTaken)
    else (s.(posts := Rewritten(s.posts, id, title, content, date), cache := map[]), Success)
  }

  function Rewritten(posts: seq<Post>, id: nat, title: string, content: string, date: string): (r: seq<Post>)
    requires TitleCodec.Bytes(title)
    ensures |r| == |posts|
  {
    seq(|posts|, i requires 0 <= i < |posts| =>
      if posts[i].id == id then NewRow(id, title, content, date, posts[i].author) else posts[i])
  }

  function DeletePost(s: State, id: nat): (State, Reply)
  {
    if HasRow(s.posts, id) then (s.(posts := Removed(s.posts, id), cache := map[]), Success) else (s, NotFound)
  }

  function Removed(posts: seq<Post>, id: nat): seq<Post>
  {
    if posts == [] then []
    else Removed(posts[..|posts| - 1], id) + if posts[|posts| - 1].id == id then [] else [posts[|posts| - 1]]
  }

  /** An empty hash stands for an empty password field, which keeps the stored hash. */
  function ChangeUser(s: State, oldName: string, name: string, hash: string, nickname: string): (State, Reply)
  {
    if name == "" then (s, FieldsError)
    else if name != oldName && CountUsers(s.users, Bound(name)) != 0 then (s, UsernameTaken)
    else (s.(users := Renamed(s.users, Bound(oldName), Bound(name), hash, Bound(nickname))), Success)
  }

  function Saved(u: User, name: string, hash: string, nickname: string): User
  {
    User(name, if hash == "" then u.pass else hash, nickname)
  }

  function Renamed(users: seq<User>, oldName: string, name: string, hash: string, nickname: string): (r: seq<User>)
    ensures |r| == |users|
  {
    seq(|users|, i requires 0 <= i < |users| =>
      if users[i].username == oldName then Saved(users[i], name, hash, nickname) else users[i])
  }

  /** The stored hash of a user. */
  function PassOf(users: seq<User>, name: string): string
    requires CountUsers(users, name) > 0
  {
    if users[|users| - 1].username == name then users[|users| - 1].pass else PassOf(users[..|users| - 1], name)
  }

  /** The user exists once and the password, as a C string, matches the stored hash. */
  predicate Granted(r: Rendering, users: seq<User>, name: string, password: string)
  {
    CountUsers(users, Bound(name)) == 1 && r.check(PassOf(users, Bound(name)), Bound(password))
  }

  // One request.

  lemma NumeralBound(d: string)
    requires IsNumeral(d)
    ensures Decimal.ToInt(d) < PAGES
  {
    Decimal.NineDigits();
    Decimal.ToIntBound(d, 9);
  }

  lemma PageNumeral(n: nat)
    requires n < PAGES
    ensures IsNumeral(Decimal.ToString(n))
  {
    Decimal.NineDigits();
    Decimal.ToStringLength(n, 9);
  }

  /** The numerals that the route of a home page admits: one to nine digits. */
  predicate IsNumeral(d: string)
  {
    Decimal.Digits(d) && |d| <= 9
  }

  /** One or more of the characters that the route of a post admits. */
  predicate InPath(s: string)
  {
    s != "" && forall i :: 0 <= i < |s| ==> TitleCodec.IsAlnum(s[i]) || s[i] in ",_%-+"
  }

  predicate WellFormed(q: Request)
  {
    && (q.ViewPost? ==> InPath(q.id))
    && (q.ViewSpecificHome? ==> IsNumeral(q.digits))
    && (q.Create? ==> TitleCodec.Bytes(q.title))
    && (q.Update? ==> TitleCodec.Bytes(q.newTitle))
  }

  function Handle(r: Rendering, s: State, cookie: string, now: int, q: Request): (State, Reply)
    requires WellFormed(q)
  {
    if IsView(q) then View(r, s, cookie, now, q)
    else if q.Login? then
      if Granted(r, s.users, q.username, q.password) then
        (CreateSession(s, q.username, q.session, now), LoggedIn(q.session))
      else (s, WrongPassword)
    else
      var t := Checked(s, cookie, now);
      if !HasSession(t, cookie) then (t, NoLogin) else Act(t, cookie, q)
  }

  /** The requests of a logged-in user. */
  function Act(t: State, cookie: string, q: Request): (State, Reply)
    requires WellFormed(q) && HasSession(t, cookie) && !IsView(q) && !q.Login?
  {
    var name := t.sessions[cookie];
    match q
    case Logout => (t.(sessions := Without(t.sessions, name)), LoggedOut)
    case Create(title, content, date) => CreatePost(t, title, content, date, name)
    case Update(id, title, content, date) => UpdatePost(t, id, title, content, date)
    case Delete(id) => DeletePost(t, id)
    case Change(newName, hash, nickname) => ChangeUser(t, name, newName, hash, nickname)
    case Reload => (t.(cache := map[]), CacheCleared)
  }
}
