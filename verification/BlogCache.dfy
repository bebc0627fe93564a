/**
 * When the page cache can be trusted: exactly when the key of a view cannot also belong to a page
 * of the other kind. Then a blog with the cache answers like one that renders every page anew.
 */
module BlogCache {
  import opened BlogSpec
  import opened BlogSafety
  import Decimal
  import TitleCodec

  // What a reader without a session should see.

  function PageNumber(q: Request): (n: nat)
    requires (q.ViewHome? || q.ViewSpecificHome?) && WellFormed(q)
    ensures n < PAGES
  {
    if q.ViewHome? then 0
    else
      NumeralBound(q.digits);
      Decimal.ToInt(q.digits)
  }

  function Wanted(r: Rendering, posts: seq<Post>, q: Request): string
    requires IsView(q) && WellFormed(q)
  {
    if q.ViewPost? then
      if CountIds(posts, q.id) == 1 then r.post(posts[RowOf(posts, q.id)]) else NOTFOUND
    else
      if posts == [] then "" else r.home(posts, PageNumber(q))
  }

  /** What a cache may hold under a key while the table has these rows. */
  ghost predicate Allowed(r: Rendering, posts: seq<Post>, k: string, v: string)
  {
    HomeEntry(r, posts, k, v) || PostEntry(r, posts, k, v)
  }

  // A key that both kinds of pages claim.

  ghost predicate IsHomeKey(k: string)
  {
    exists n: nat :: n < PAGES && k == HomeKey(n)
  }

  /** A view of a post whose id is a home key, or of a home page whose key is the id of a post. */
  ghost predicate Clash(posts: seq<Post>, q: Request)
    requires IsView(q)
  {
    if q.ViewPost? then posts != [] && IsHomeKey(q.id) else CountIds(posts, Key(q)) == 1
  }

  /** The page of the other kind. */
  ghost function Other(r: Rendering, posts: seq<Post>, q: Request): string
    requires IsView(q) && Clash(posts, q)
  {
    if q.ViewPost? then
      var n: nat :| n < PAGES && q.id == HomeKey(n);
      r.home(posts, n)
    else
      r.post(posts[RowOf(posts, Key(q))])
  }

  lemma HomeKeyIs(k: string, n: nat)
    requires k == HomeKey(n)
    ensures k[|CACHEHOME|..] == Decimal.ToString(n) && Decimal.ToInt(k[|CACHEHOME|..]) == n
  {
    Decimal.RoundTrip(n);
    assert k[|CACHEHOME|..] == Decimal.ToString(n);
  }

  lemma HomeKeyInjective(m: nat, n: nat)
    requires HomeKey(m) == HomeKey(n)
    ensures m == n
  {
    HomeKeyIs(HomeKey(m), m);
    HomeKeyIs(HomeKey(n), n);
  }

  /** Only the keys of page numbers that the route can spell are home keys. */
  lemma HomeKeyBound(n: nat)
    ensures IsHomeKey(HomeKey(n)) <==> n < PAGES
  {
    hide HomeKey;
    if m: nat :| m < PAGES && HomeKey(n) == HomeKey(m) {
      HomeKeyInjective(m, n);
    }
  }

  /** The key of a home view can only be the home key of the page it asks for. */
  lemma KeyNumber(q: Request, n: nat)
    requires (q.ViewHome? || q.ViewSpecificHome?) && WellFormed(q) && Key(q) == HomeKey(n)
    ensures PageNumber(q) == n
  {
    HomeKeyIs(Key(q), n);
    var d := if q.ViewHome? then "0" else q.digits;
    assert Key(q)[|CACHEHOME|..] == d;
    assert Decimal.ToInt("0") == 0 by { Decimal.RoundTrip(0); assert Decimal.ToString(0) == "0"; }
  }

  /** A cached page is the wanted one, or in case of a clash the other one. */
  lemma CachedPage(r: Rendering, posts: seq<Post>, q: Request, v: string)
    requires IsView(q) && WellFormed(q) && Allowed(r, posts, Key(q), v)
    ensures v == r.compress(Wanted(r, posts, q)) || (Clash(posts, q) && v == r.compress(Other(r, posts, q)))
  {
    hide HomeKey, CountIds, RowOf;
    if HomeEntry(r, posts, Key(q), v) {
      var n: nat :| n < PAGES && Key(q) == HomeKey(n) && v == r.compress(r.home(posts, n));
      if q.ViewPost? {
        var m: nat :| m < PAGES && q.id == HomeKey(m) && Other(r, posts, q) == r.home(posts, m);
        HomeKeyInjective(m, n);
      } else {
        KeyNumber(q, n);
      }
    }
  }

  /** In a clash the other page may well be the one that is cached. */
  lemma OtherAllowed(r: Rendering, posts: seq<Post>, q: Request)
    requires IsView(q) && WellFormed(q) && Clash(posts, q)
    ensures Allowed(r, posts, Key(q), r.compress(Other(r, posts, q)))
  {
    hide HomeKey, CountIds, RowOf;
    if q.ViewPost? {
      var m: nat :| m < PAGES && q.id == HomeKey(m) && Other(r, posts, q) == r.home(posts, m);
      assert HomeEntry(r, posts, Key(q), r.compress(r.home(posts, m)));
    }
  }

  /** Every sound cache can be trusted for a view if and only if there is no clash, or it is harmless. */
  lemma TrustedIff(r: Rendering, posts: seq<Post>, q: Request)
    requires IsView(q) && WellFormed(q)
    ensures (forall v :: Allowed(r, posts, Key(q), v) ==> v == r.compress(Wanted(r, posts, q)))
       <==> (Clash(posts, q) ==> r.compress(Other(r, posts, q)) == r.compress(Wanted(r, posts, q)))
  {
    hide Allowed, Wanted, Clash, Other;
    forall v | Allowed(r, posts, Key(q), v)
      ensures v == r.compress(Wanted(r, posts, q)) || (Clash(posts, q) && v == r.compress(Other(r, posts, q)))
    {
      CachedPage(r, posts, q, v);
    }
    if Clash(posts, q) {
      OtherAllowed(r, posts, q);
    }
  }

  /** Without posts named like home pages, only a view of such a name can clash. */
  lemma NoClash(posts: seq<Post>, q: Request)
    requires IsView(q) && WellFormed(q) && (q.ViewPost? ==> !IsHomeKey(q.id))
    requires forall i, d :: 0 <= i < |posts| && IsNumeral(d) ==> posts[i].postid != CACHEHOME + d
    ensures !Clash(posts, q)
  {
    if !q.ViewPost? {
      var d := if q.ViewHome? then "0" else q.digits;
      assert IsNumeral(d) && Key(q) == CACHEHOME + d;
      CountIdsZero(posts, Key(q));
    }
  }

  // The blog with the cache against one that always renders.

  /** The same page, sent as it is or compressed. */
  predicate SameReply(r: Rendering, a: Reply, b: Reply)
  {
    a == b || (a.Gzipped? && b.Page? && a.blob == r.compress(b.text))
  }

  predicate SameButCache(s: State, t: State)
  {
    s == t.(cache := s.cache)
  }

  lemma CheckedAgrees(s: State, u: State, cookie: string, now: int)
    requires SameButCache(s, u)
    ensures SameButCache(Checked(s, cookie, now), Checked(u, cookie, now))
  {
  }

  lemma GetPostAgrees(r: Rendering, s: State, u: State, cookie: string, now: int, id: string)
    requires SameButCache(s, u)
    ensures var a, b := GetPost(r, s, cookie, now, id), GetPost(r, u, cookie, now, id);
            a.1 == b.1 && SameButCache(a.0, b.0)
  {
    hide CountIds, RowOf, Checked;
    CheckedAgrees(s, u, cookie, now);
    CheckedKeeps(s, cookie, now);
  }

  lemma GetHomeAgrees(r: Rendering, s: State, u: State, cookie: string, now: int, n: nat)
    requires SameButCache(s, u)
    ensures var a, b := GetHome(r, s, cookie, now, n), GetHome(r, u, cookie, now, n);
            a.1 == b.1 && SameButCache(a.0, b.0)
  {
    hide HomeKey, Checked;
    CheckedAgrees(s, u, cookie, now);
    CheckedKeeps(s, cookie, now);
  }

  lemma CheckedKeeps(s: State, cookie: string, now: int)
    ensures var t := Checked(s, cookie, now); t == s.(sessions := t.sessions, past := t.past)
  {
  }

  lemma RenderedAgrees(r: Rendering, s: State, u: State, cookie: string, now: int, q: Request)
    requires IsView(q) && WellFormed(q) && SameButCache(s, u)
    ensures var a, b := Rendered(r, s, cookie, now, q), Rendered(r, u, cookie, now, q);
            a.1 == b.1 && SameButCache(a.0, b.0)
  {
    hide GetPost, GetHome, SameButCache;
    match q
    case ViewPost(id) => GetPostAgrees(r, s, u, cookie, now, id);
    case ViewHome => GetHomeAgrees(r, s, u, cookie, now, 0);
    case ViewSpecificHome(digits) => GetHomeAgrees(r, s, u, cookie, now, Decimal.ToInt(digits));
  }

  lemma RenderedChecked(r: Rendering, s: State, cookie: string, now: int, q: Request)
    requires IsView(q) && WellFormed(q) && AtMostOne(s.sessions)
    ensures Rendered(r, Checked(s, cookie, now), cookie, now, q) == Rendered(r, s, cookie, now, q)
  {
    hide CountIds, RowOf, HomeKey, Checked, HasSession, AtMostOne;
    CheckedOk(s, cookie, now);
  }

  /** A reader without a session gets the wanted page and nothing else. */
  lemma LoggedOutPage(r: Rendering, s: State, cookie: string, now: int, q: Request)
    requires IsView(q) && WellFormed(q) && AtMostOne(s.sessions) && !IsLoggedIn(s, cookie, now)
    ensures var a := Rendered(r, s, cookie, now, q);
            a.1 == Page(Wanted(r, s.posts, q)) && SameButCache(a.0, Checked(s, cookie, now))
  {
    hide CountIds, RowOf, HomeKey, Checked, HasSession, AtMostOne, IsLoggedIn;
    CheckedOk(s, cookie, now);
  }

  lemma ViewAgrees(r: Rendering, s: State, u: State, cookie: string, now: int, q: Request)
    requires IsView(q) && WellFormed(q) && StateOk(r, s) && u == s.(cache := map[]) && !Clash(s.posts, q)
    ensures var a, b := View(r, s, cookie, now, q), View(r, u, cookie, now, q);
            SameReply(r, a.1, b.1) && SameButCache(a.0, b.0)
  {
    hide Rendered, Checked, Clash, Wanted, IsLoggedIn, HomeEntry, PostEntry, TableOk, UsersOk, AtMostOne, Key;
    hide WellFormed;
    RenderedAgrees(r, s, u, cookie, now, q);
    RenderedChecked(r, s, cookie, now, q);
    if Key(q) in s.cache && !IsLoggedIn(s, cookie, now) {
      CachedPage(r, s.posts, q, s.cache[Key(q)]);
      LoggedOutPage(r, s, cookie, now, q);
    }
  }

  /** The always-rendering blog: its cache is forgotten before every request. */
  function Uncached(s: State): State { s.(cache := map[]) }

  ghost predicate MayAsk(s: State, q: Request)
  {
    WellFormed(q) && (IsView(q) ==> !Clash(s.posts, q))
  }

  lemma {:induction false} InsertAgrees(s: State, u: State, title: string, content: string, date: string,
                                        author: string, n: nat)
    requires SameButCache(s, u) && TitleCodec.Bytes(title) && n <= |s.users|
    ensures SameButCache(Insert(s, title, content, date, author, n), Insert(u, title, content, date, author, n))
  {
    if n > 0 {
      InsertAgrees(s, u, title, content, date, author, n - 1);
    }
  }

  lemma ActAgrees(s: State, u: State, cookie: string, q: Request)
    requires SameButCache(s, u) && WellFormed(q) && HasSession(s, cookie) && !IsView(q) && !q.Login?
    ensures Act(s, cookie, q).1 == Act(u, cookie, q).1 && SameButCache(Act(s, cookie, q).0, Act(u, cookie, q).0)
  {
    hide Insert, CountIds, CountUsers, TitleCodec.Encode, TitleCodec.Bytes, HasRow, Removed, Rewritten, Renamed;
    if q.Create? {
      InsertAgrees(s, u, q.title, q.content, q.date, s.sessions[cookie], |s.users|);
    }
  }

  lemma HandleAgrees(r: Rendering, s: State, u: State, cookie: string, now: int, q: Request)
    requires StateOk(r, s) && MayAsk(s, q) && SameButCache(s, u)
    ensures var a, b := Handle(r, s, cookie, now, q), Handle(r, Uncached(u), cookie, now, q);
            SameReply(r, a.1, b.1) && SameButCache(a.0, b.0)
  {
    hide View, Act, Checked, Clash, WellFormed, StateOk, CountUsers, PassOf;
    assert Uncached(u) == s.(cache := map[]);
    if IsView(q) {
      ViewAgrees(r, s, Uncached(u), cookie, now, q);
    } else if !q.Login? {
      var t, v := Checked(s, cookie, now), Checked(Uncached(u), cookie, now);
      CheckedAgrees(s, Uncached(u), cookie, now);
      if HasSession(t, cookie) {
        ActAgrees(t, v, cookie, q);
      }
    }
  }

  // Whole runs.

  /** No request of the run clashes with the table it finds. */
  ghost predicate MayAskAll(r: Rendering, s: State, asked: seq<Asked>)
    decreases |asked|
  {
    asked == [] || (MayAsk(s, asked[0].q)
                    && MayAskAll(r, Handle(r, s, asked[0].cookie, asked[0].now, asked[0].q).0, asked[1..]))
  }

  function Replies(r: Rendering, s: State, asked: seq<Asked>): (a: seq<Reply>)
    requires forall x :: x in asked ==> WellFormed(x.q)
    ensures |a| == |asked|
    decreases |asked|
  {
    if asked == [] then []
    else
      var step := Handle(r, s, asked[0].cookie, asked[0].now, asked[0].q);
      [step.1] + Replies(r, step.0, asked[1..])
  }

  function RepliesUncached(r: Rendering, s: State, asked: seq<Asked>): (a: seq<Reply>)
    requires forall x :: x in asked ==> WellFormed(x.q)
    ensures |a| == |asked|
    decreases |asked|
  {
    if asked == [] then []
    else
      var step := Handle(r, Uncached(s), asked[0].cookie, asked[0].now, asked[0].q);
      [step.1] + RepliesUncached(r, step.0, asked[1..])
  }

  /** Over a whole run the blog with the cache answers every request like the one that always renders. */
  lemma {:induction false} Indistinguishable(r: Rendering, s: State, u: State, asked: seq<Asked>)
    requires StateOk(r, s) && SameButCache(s, u) && MayAskAll(r, s, asked)
    requires forall x :: x in asked ==> WellFormed(x.q)
    ensures forall i :: 0 <= i < |asked| ==> SameReply(r, Replies(r, s, asked)[i], RepliesUncached(r, u, asked)[i])
    decreases |asked|
  {
    hide Handle, StateOk, SameButCache, SameReply, MayAsk, WellFormed;
    if asked != [] {
      var a := asked[0];
      var s', u' := Handle(r, s, a.cookie, a.now, a.q), Handle(r, Uncached(u), a.cookie, a.now, a.q);
      HandleOk(r, s, a.cookie, a.now, a.q);
      HandleAgrees(r, s, u, a.cookie, a.now, a.q);
      Indistinguishable(r, s'.0, u'.0, asked[1..]);
    }
  }

  // A condition that can be checked before the run.

  /** A name like that of a home page, under any numeral the route admits. */
  ghost predicate IsHomeLike(k: string)
  {
    exists d :: IsNumeral(d) && k == CACHEHOME + d
  }

  ghost predicate PlainTable(posts: seq<Post>)
  {
    forall p :: p in posts ==> !IsHomeLike(p.postid)
  }

  /** No view of a post with a home key, no title that encodes to a name like that of a home page. */
  ghost predicate PlainRequest(q: Request)
  {
    && WellFormed(q) && (q.ViewPost? ==> !IsHomeKey(q.id))
    && (q.Create? ==> !IsHomeLike(TitleCodec.Encode(q.title)))
    && (q.Update? ==> !IsHomeLike(TitleCodec.Encode(q.newTitle)))
  }

  lemma {:induction false} InsertPlain(s: State, title: string, content: string, date: string, author: string, n: nat)
    requires TitleCodec.Bytes(title) && n <= |s.users|
    requires PlainTable(s.posts) && !IsHomeLike(TitleCodec.Encode(title))
    ensures PlainTable(Insert(s, title, content, date, author, n).posts)
  {
    hide IsHomeLike, TitleCodec.Encode, TitleCodec.Bytes, Bound;
    if n > 0 {
      InsertPlain(s, title, content, date, author, n - 1);
    }
  }

  lemma {:induction false} RemovedPlain(posts: seq<Post>, id: nat)
    requires PlainTable(posts)
    ensures PlainTable(Removed(posts, id))
  {
    hide IsHomeLike;
    if posts != [] {
      RemovedPlain(posts[..|posts| - 1], id);
    }
  }

  lemma RewrittenPlain(posts: seq<Post>, id: nat, title: string, content: string, date: string)
    requires PlainTable(posts) && TitleCodec.Bytes(title) && !IsHomeLike(TitleCodec.Encode(title))
    ensures PlainTable(Rewritten(posts, id, title, content, date))
  {
    hide IsHomeLike, TitleCodec.Encode, TitleCodec.Bytes, Bound;
    var w := Rewritten(posts, id, title, content, date);
    forall p | p in w
      ensures !IsHomeLike(p.postid)
    {
      var i :| 0 <= i < |w| && w[i] == p;
      assert posts[i] in posts;
    }
  }

  lemma HandlePlain(r: Rendering, s: State, cookie: string, now: int, q: Request)
    requires PlainTable(s.posts) && PlainRequest(q)
    ensures PlainTable(Handle(r, s, cookie, now, q).0.posts)
  {
    hide PlainTable, IsHomeLike, IsHomeKey, View, Checked, Insert, Removed, Rewritten, Renamed, Bound, CountIds;
    hide CountUsers, Granted, HasRow, TitleCodec.Encode, TitleCodec.Bytes;
    CheckedTables(s, cookie, now);
    var t := Checked(s, cookie, now);
    if IsView(q) {
      ViewTables(r, s, cookie, now, q);
    } else if q.Create? && HasSession(t, cookie) {
      InsertPlain(t, q.title, q.content, q.date, t.sessions[cookie], |t.users|);
    } else if q.Update? {
      RewrittenPlain(s.posts, q.postId, q.newTitle, q.newContent, q.newDate);
    } else if q.Delete? {
      RemovedPlain(s.posts, q.oldId);
    }
  }

  /** A run of plain requests over a plain table clashes nowhere, whoever asks and whenever. */
  lemma {:induction false} PlainRun(r: Rendering, s: State, asked: seq<Asked>)
    requires PlainTable(s.posts) && forall a :: a in asked ==> PlainRequest(a.q)
    ensures MayAskAll(r, s, asked)
    decreases |asked|
  {
    hide Handle, IsHomeLike, Clash, WellFormed, IsHomeKey;
    if asked != [] {
      var a := asked[0];
      if IsView(a.q) {
        PlainView(s.posts, a.q);
      }
      HandlePlain(r, s, a.cookie, a.now, a.q);
      PlainRun(r, Handle(r, s, a.cookie, a.now, a.q).0, asked[1..]);
    }
  }

  lemma PlainView(posts: seq<Post>, q: Request)
    requires PlainTable(posts) && PlainRequest(q) && IsView(q)
    ensures !Clash(posts, q)
  {
    hide IsHomeKey, Clash;
    forall i, d | 0 <= i < |posts| && IsNumeral(d)
      ensures posts[i].postid != CACHEHOME + d
    {
      assert posts[i] in posts;
    }
    NoClash(posts, q);
  }

  /** So such a run cannot be told from one of the blog that always renders. */
  lemma PlainIndistinguishable(r: Rendering, s: State, asked: seq<Asked>)
    requires StateOk(r, s) && PlainTable(s.posts) && forall a :: a in asked ==> PlainRequest(a.q)
    ensures forall a :: a in asked ==> WellFormed(a.q)
    ensures forall i :: 0 <= i < |asked| ==> SameReply(r, Replies(r, s, asked)[i], RepliesUncached(r, s, asked)[i])
  {
    hide StateOk, PlainTable, IsHomeLike, IsHomeKey, Replies, RepliesUncached, SameReply, WellFormed;
    PlainRun(r, s, asked);
    Indistinguishable(r, s, s, asked);
  }

  // The clash is real: two requests are enough.

  lemma LoggedOutStays(s: State, cookie: string, now: int)
    requires !IsLoggedIn(s, cookie, now)
    ensures forall c :: !IsLoggedIn(Checked(s, cookie, now).(cache := c), cookie, now)
  {
  }

  lemma KeyInPath(q: Request)
    requires IsView(q) && WellFormed(q)
    ensures InPath(Key(q))
  {
    assert forall c :: Decimal.IsDigit(c) ==> TitleCodec.IsAlnum(c);
  }

  lemma SomePost(posts: seq<Post>, id: string)
    requires CountIds(posts, id) == 1
    ensures posts != []
  {
  }

  /**
   * Looking at a home page, under any numeral, makes a view of the post "home<n>" show that page, also
   * where there is no such post.
   */
  lemma HomeThenPost(r: Rendering, s: State, cookie: string, now: int, q: Request)
    requires StateOk(r, s) && s.posts != [] && !IsLoggedIn(s, cookie, now)
    requires (q.ViewHome? || q.ViewSpecificHome?) && WellFormed(q) && Key(q) !in s.cache
    ensures var t := Handle(r, s, cookie, now, q).0; var p := ViewPost(HomeKey(PageNumber(q)));
            && WellFormed(p) && t.posts == s.posts
            && Handle(r, t, cookie, now, p).1 == Gzipped(r.compress(r.home(s.posts, PageNumber(q))))
            && (CountIds(s.posts, p.id) == 0 ==> Handle(r, Uncached(t), cookie, now, p).1 == Page(NOTFOUND))
  {
    hide CountIds, RowOf, CountUsers, TableOk, UsersOk, CacheOk, AtMostOne, Checked, HasSession, IsLoggedIn, InPath;
    hide Decimal.ToInt;
    PageNumeral(PageNumber(q));
    KeyInPath(ViewSpecificHome(Decimal.ToString(PageNumber(q))));
    CheckedOk(s, cookie, now);
    LoggedOutStays(s, cookie, now);
    var t := Handle(r, s, cookie, now, q).0;
    assert Uncached(t) == Checked(s, cookie, now).(cache := map[]);
    LoggedOutPage(r, Uncached(t), cookie, now, ViewPost(HomeKey(PageNumber(q))));
  }

  /** Looking at a post whose id is the key of a home view makes that view show the post. */
  lemma PostThenHome(r: Rendering, s: State, cookie: string, now: int, q: Request)
    requires StateOk(r, s) && !IsLoggedIn(s, cookie, now)
    requires (q.ViewHome? || q.ViewSpecificHome?) && WellFormed(q) && Key(q) !in s.cache
    requires CountIds(s.posts, Key(q)) == 1
    ensures InPath(Key(q))
    ensures var t := Handle(r, s, cookie, now, ViewPost(Key(q))).0;
            && t.posts == s.posts
            && Handle(r, t, cookie, now, q).1 == Gzipped(r.compress(r.post(s.posts[RowOf(s.posts, Key(q))])))
            && Handle(r, Uncached(t), cookie, now, q).1 == Page(r.home(s.posts, PageNumber(q)))
  {
    hide CountIds, RowOf, CountUsers, TableOk, UsersOk, CacheOk, AtMostOne, Checked, HasSession, IsLoggedIn, InPath;
    hide Decimal.ToInt;
    KeyInPath(q);
    CheckedOk(s, cookie, now);
    LoggedOutStays(s, cookie, now);
    var t := Handle(r, s, cookie, now, ViewPost(Key(q))).0;
    assert Uncached(t) == Checked(s, cookie, now).(cache := map[]);
    LoggedOutPage(r, Uncached(t), cookie, now, q);
    SomePost(s.posts, Key(q));
  }

  /** Every clash shows after one more request: the other page is cached and then served. */
  lemma ClashShows(r: Rendering, s: State, cookie: string, now: int, q: Request) returns (p: Request)
    requires StateOk(r, s) && s.cache == map[] && !IsLoggedIn(s, cookie, now)
    requires IsView(q) && WellFormed(q) && Clash(s.posts, q)
    ensures IsView(p) && WellFormed(p)
    ensures var t := Handle(r, s, cookie, now, p).0;
            Handle(r, t, cookie, now, q).1 == Gzipped(r.compress(Other(r, s.posts, q)))
  {
    hide StateOk, Handle, IsLoggedIn, CountIds, HomeKey, InPath;
    if q.ViewPost? {
      var n: nat :| n < PAGES && q.id == HomeKey(n) && Other(r, s.posts, q) == r.home(s.posts, n);
      p := ViewSpecificHome(Decimal.ToString(n));
      Decimal.RoundTrip(n);
      PageNumeral(n);
      HomeThenPost(r, s, cookie, now, p);
    } else {
      p := ViewPost(Key(q));
      PostThenHome(r, s, cookie, now, q);
    }
  }
}
