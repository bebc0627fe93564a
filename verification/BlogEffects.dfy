/** What a user does to the posts with a request, in any reachable state. */
module BlogEffects {
  import opened BlogSpec
  import opened BlogSafety
  import CStrings
  import TitleCodec

  /** The normal form of the title under which a row was saved. */
  function SavedName(p: Post): string { TitleCodec.Decode(p.postid) }

  /**
   * The stored title has the normal form of the saved one up to its first NUL, so the id follows from
   * the stored title if and only if the row was saved under a title without NUL.
   */
  lemma StoredTitle(p: Post)
    requires IsSaved(p)
    ensures TitleCodec.Normal(p.title) == Bound(SavedName(p))
    ensures TitleCodec.Bytes(p.title) && (p.postid == TitleCodec.Encode(p.title) <==> '\0' !in SavedName(p))
  {
    hide TitleCodec.Encode, TitleCodec.Normal, TitleCodec.Decode, CStrings.CStr, TitleCodec.Bytes;
    var t :| TitleCodec.Bytes(t) && p.postid == TitleCodec.Encode(t) && p.title == Bound(t);
    TitleCodec.DecodeEncode(t);
    TitleCodec.NormalCut(t);
    CutBytes(t);
    TitleCodec.SameIdIffSameNormal(p.title, t);
    if '\0' !in t {
      CStrings.CStrWhole(t);
    } else {
      TitleCodec.NormalCut(p.title);
    }
  }

  lemma CutBytes(t: string)
    requires TitleCodec.Bytes(t)
    ensures TitleCodec.Bytes(Bound(t))
  {
    CStrings.CStrPrefix(t);
  }

  /**
   * Two rows never were saved under titles of the same normal form; their stored titles have the same
   * normal form exactly when those agree up to the first NUL.
   */
  lemma TitlesDiffer(posts: seq<Post>, nextId: nat, i: nat, j: nat)
    requires TableOk(posts, nextId) && i < j < |posts|
    ensures SavedName(posts[i]) != SavedName(posts[j])
    ensures TitleCodec.Normal(posts[i].title) == TitleCodec.Normal(posts[j].title)
       <==> Bound(SavedName(posts[i])) == Bound(SavedName(posts[j]))
  {
    hide TitleCodec.Encode, TitleCodec.Normal, TitleCodec.Decode, TitleCodec.Bytes, Bound;
    StoredTitle(posts[i]);
    StoredTitle(posts[j]);
    var s :| TitleCodec.Bytes(s) && posts[i].postid == TitleCodec.Encode(s) && posts[i].title == Bound(s);
    var t :| TitleCodec.Bytes(t) && posts[j].postid == TitleCodec.Encode(t) && posts[j].title == Bound(t);
    TitleCodec.DecodeEncode(s);
    TitleCodec.DecodeEncode(t);
    TitleCodec.SameIdIffSameNormal(s, t);
  }

  ghost predicate IsTaken(posts: seq<Post>, title: string)
  {
    exists i :: 0 <= i < |posts| && SavedName(posts[i]) == TitleCodec.Normal(title)
  }

  /** A title is taken exactly when some row was saved under a title of the same normal form. */
  lemma TakenIff(posts: seq<Post>, nextId: nat, title: string)
    requires TableOk(posts, nextId) && TitleCodec.Bytes(title)
    ensures CountIds(posts, TitleCodec.Encode(title)) != 0 <==> IsTaken(posts, title)
  {
    hide TitleCodec.Encode, TitleCodec.Normal, TitleCodec.Decode, TitleCodec.Bytes, Bound;
    CountIdsZero(posts, TitleCodec.Encode(title));
    forall i | 0 <= i < |posts|
      ensures posts[i].postid == TitleCodec.Encode(title) <==> SavedName(posts[i]) == TitleCodec.Normal(title)
    {
      assert IsSaved(posts[i]);
      var t :| TitleCodec.Bytes(t) && posts[i].postid == TitleCodec.Encode(t) && posts[i].title == Bound(t);
      TitleCodec.DecodeEncode(t);
      TitleCodec.SameIdIffSameNormal(t, title);
    }
  }

  /** As long as no title held a NUL, a title is taken exactly when a stored title has its normal form. */
  lemma TakenPlain(posts: seq<Post>, nextId: nat, title: string)
    requires TableOk(posts, nextId) && forall i :: 0 <= i < |posts| ==> '\0' !in SavedName(posts[i])
    ensures IsTaken(posts, title)
       <==> exists i :: 0 <= i < |posts| && TitleCodec.Normal(posts[i].title) == TitleCodec.Normal(title)
  {
    hide TitleCodec.Normal, TitleCodec.Decode, TitleCodec.Bytes, TitleCodec.Encode;
    forall i | 0 <= i < |posts|
      ensures TitleCodec.Normal(posts[i].title) == SavedName(posts[i])
    {
      StoredTitle(posts[i]);
      CStrings.CStrWhole(SavedName(posts[i]));
    }
  }

  /**
   * Creating succeeds exactly when both fields are filled and the title is not taken; then one row with
   * a new id is added under the author's nickname, every page is forgotten, and the id of the title names
   * that row.
   */
  lemma CreateEffect(r: Rendering, s: State, cookie: string, now: int, title: string, content: string, date: string)
    requires StateOk(r, s) && IsLoggedIn(s, cookie, now) && TitleCodec.Bytes(title)
    ensures var a := Handle(r, s, cookie, now, Create(title, content, date)); var id := TitleCodec.Encode(title);
            && (a.1 == Success <==> title != "" && content != "" && !IsTaken(s.posts, title))
            && (a.1 == FieldsError <==> title == "" || content == "")
            && (a.1 != Success ==> a.0 == s && (a.1 == FieldsError || a.1 == TitleTaken))
            && (a.1 == Success ==>
                  exists i :: 0 <= i < |s.users| && s.users[i].username == Bound(s.sessions[cookie])
                    && a.0 == s.(posts := s.posts + [Post(s.nextId, Bound(title), Bound(content), id, date,
                                                          s.users[i].nickname)],
                                 nextId := s.nextId + 1, cache := map[])
                    && CountIds(a.0.posts, id) == 1 && RowOf(a.0.posts, id) == |s.posts|)
  {
    hide TitleCodec.Encode, TitleCodec.Normal, TitleCodec.Bytes, CacheOk, UsersOk, AtMostOne, CountUsers;
    hide Insert, TableOk, IsTaken, Bound;
    TakenIff(s.posts, s.nextId, title);
    var a := Handle(r, s, cookie, now, Create(title, content, date));
    if a.1 == Success {
      var i := FindUser(s.users, Bound(s.sessions[cookie]));
      InsertOne(s, title, content, date, s.sessions[cookie], |s.users|, i);
      var row := NewRow(s.nextId, title, content, date, s.users[i].nickname);
      assert (s.posts + [row])[..|s.posts|] == s.posts;
    }
  }

  /** Two titles that differ only after a NUL can both be created, and their rows then share one title. */
  lemma TwoRowsOneTitle(r: Rendering, s: State, cookie: string, now: int, x: string, y: string, content: string,
                        date: string)
    requires StateOk(r, s) && IsLoggedIn(s, cookie, now) && TitleCodec.Bytes(x) && TitleCodec.Bytes(y)
    requires x != "" && y != "" && content != "" && !IsTaken(s.posts, x) && !IsTaken(s.posts, y)
    requires Bound(x) == Bound(y) && TitleCodec.Normal(x) != TitleCodec.Normal(y)
    ensures var a := Handle(r, s, cookie, now, Create(x, content, date));
            var b := Handle(r, a.0, cookie, now, Create(y, content, date));
            && a.1 == Success && b.1 == Success && |b.0.posts| == |s.posts| + 2
            && b.0.posts[|s.posts|].title == b.0.posts[|s.posts| + 1].title == Bound(x)
  {
    hide TitleCodec.Encode, TitleCodec.Normal, TitleCodec.Bytes, TitleCodec.Decode, StateOk, Bound, Handle, IsLoggedIn;
    var a := Handle(r, s, cookie, now, Create(x, content, date));
    CreateEffect(r, s, cookie, now, x, content, date);
    HandleOk(r, s, cookie, now, Create(x, content, date));
    StillLoggedIn(r, s, cookie, now, x, content, date);
    TitleCodec.DecodeEncode(x);
    assert forall i :: 0 <= i < |s.posts| ==> a.0.posts[i] == s.posts[i];
    assert !IsTaken(a.0.posts, y);
    CreateEffect(r, a.0, cookie, now, y, content, date);
  }

  /** Such titles exist. */
  lemma NulPair()
    ensures var x, y := "a", "a\0b";
            && TitleCodec.Bytes(x) && TitleCodec.Bytes(y) && x != y
            && Bound(x) == Bound(y) == "a" && TitleCodec.Normal(x) != TitleCodec.Normal(y)
  {
    hide TitleCodec.Normal, CStrings.CStr;
    var y := "a\0b";
    CStrings.CStrWhole("a");
    CStrings.CStrSlice(y, 0, 1);
    TitleCodec.NormalCut("a");
    TitleCodec.NormalCut(y);
    assert y[1] == '\0' && '\0' in y;
  }

  lemma StillLoggedIn(r: Rendering, s: State, cookie: string, now: int, title: string, content: string, date: string)
    requires StateOk(r, s) && IsLoggedIn(s, cookie, now) && TitleCodec.Bytes(title)
    ensures IsLoggedIn(Handle(r, s, cookie, now, Create(title, content, date)).0, cookie, now)
  {
    hide TableOk, CacheOk, UsersOk, TitleCodec.Bytes, TitleCodec.Encode, CountUsers, Insert, CountIds;
    InsertKeeps(s, title, content, date, s.sessions[cookie], |s.users|);
  }

  /**
   * Saving row i succeeds exactly when both fields are filled and the title is not taken, the row's own
   * title included; then just that row changes, keeping its id and author, and every page is forgotten.
   * A refused save changes nothing.
   */
  lemma UpdateEffect(r: Rendering, s: State, cookie: string, now: int, i: nat, title: string, content: string,
                     date: string)
    requires StateOk(r, s) && IsLoggedIn(s, cookie, now) && TitleCodec.Bytes(title) && i < |s.posts|
    ensures var a := Handle(r, s, cookie, now, Update(s.posts[i].id, title, content, date));
            && (a.1 == Success <==> title != "" && content != "" && !IsTaken(s.posts, title))
            && (a.1 == TitleTaken <==> title != "" && content != "" && IsTaken(s.posts, title))
            && (a.1 == FieldsError <==> title == "" || content == "")
            && (a.1 != Success ==> a.0 == s)
            && (a.1 == Success ==>
                  var row := Post(s.posts[i].id, Bound(title), Bound(content), TitleCodec.Encode(title), date,
                                  s.posts[i].author);
                  a.0 == s.(posts := s.posts[i := row], cache := map[]))
  {
    hide TitleCodec.Encode, TitleCodec.Normal, TitleCodec.Bytes, CacheOk, UsersOk, AtMostOne, CountUsers;
    hide TableOk, CountIds, IsTaken, Bound, Rewritten;
    TakenIff(s.posts, s.nextId, title);
    RewrittenOne(s.posts, s.nextId, i, title, content, date);
  }

  /** Saving a row that does not exist is answered so, unless a field is empty, and changes nothing. */
  lemma UpdateMissing(r: Rendering, s: State, cookie: string, now: int, id: nat, title: string, content: string,
                      date: string)
    requires StateOk(r, s) && IsLoggedIn(s, cookie, now) && TitleCodec.Bytes(title)
    requires forall i :: 0 <= i < |s.posts| ==> s.posts[i].id != id
    ensures Handle(r, s, cookie, now, Update(id, title, content, date))
         == (s, if title == "" || content == "" then FieldsError else NotFound)
  {
    hide TableOk, CacheOk, UsersOk, CountUsers, TitleCodec.Bytes, TitleCodec.Encode, CountIds;
  }

  /** In particular a title of the normal form under which the row itself was saved is refused. */
  lemma UpdateNeedsNewTitle(r: Rendering, s: State, cookie: string, now: int, i: nat, title: string, content: string,
                            date: string)
    requires StateOk(r, s) && IsLoggedIn(s, cookie, now) && TitleCodec.Bytes(title) && title != "" && content != ""
    requires i < |s.posts| && TitleCodec.Normal(title) == SavedName(s.posts[i])
    ensures Handle(r, s, cookie, now, Update(s.posts[i].id, title, content, date)) == (s, TitleTaken)
  {
    hide Handle, TitleCodec.Normal, TitleCodec.Decode, TitleCodec.Bytes, StateOk, IsLoggedIn;
    UpdateEffect(r, s, cookie, now, i, title, content, date);
    assert IsTaken(s.posts, title);
  }

  /** A deleted post is not found any more, and every other post is found as before. */
  lemma DeleteEffect(r: Rendering, s: State, cookie: string, now: int, i: nat, other: string)
    requires StateOk(r, s) && IsLoggedIn(s, cookie, now) && i < |s.posts|
    ensures var a := Handle(r, s, cookie, now, Delete(s.posts[i].id));
            && a == (s.(posts := s.posts[..i] + s.posts[i + 1..], cache := map[]), Success)
            && CountIds(a.0.posts, s.posts[i].postid) == 0
            && (other != s.posts[i].postid ==> CountIds(a.0.posts, other) == CountIds(s.posts, other))
  {
    hide CacheOk, UsersOk, AtMostOne, CountUsers, CountIds, Removed, IsSaved;
    RemovedAt(s.posts, i);
    var left := s.posts[..i] + s.posts[i + 1..];
    CountIdsZero(left, s.posts[i].postid);
    CountWithout(s.posts, i, other);
  }

  lemma CountSnoc(posts: seq<Post>, p: Post, id: string)
    ensures CountIds(posts + [p], id) == CountIds(posts, id) + if p.postid == id then 1 else 0
  {
    assert (posts + [p])[..|posts|] == posts;
  }

  lemma {:induction false} CountWithout(posts: seq<Post>, i: nat, id: string)
    requires i < |posts|
    ensures CountIds(posts[..i] + posts[i + 1..], id) == CountIds(posts, id) - if posts[i].postid == id then 1 else 0
    decreases |posts|
  {
    hide *;
    var n := |posts| - 1;
    var init := posts[..n];
    CountSnoc(init, posts[n], id);
    assert init + [posts[n]] == posts;
    if i < n {
      CountWithout(init, i, id);
      CountSnoc(init[..i] + init[i + 1..], posts[n], id);
      assert posts[..i] + posts[i + 1..] == (init[..i] + init[i + 1..]) + [posts[n]];
    } else {
      assert posts[..i] + posts[i + 1..] == init;
    }
  }
}
