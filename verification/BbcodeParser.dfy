/**
 * The replacement engine itself (bbcode_parser.cpp): one growing string that is edited in place at
 * positions recorded earlier, and the vector of tags found so far.
 */
module BbcodeParser {
  import opened BbcodeSpec

  datatype Tag = Tag(name: string, kind: TagType, left: nat, right: nat, attr: Attributes, hasClosing: bool)

  // Positions: where the tags of a document lie in its rendering.

  ghost predicate SameShown(f: Schema, d: Doc, e: Doc, n: nat)
  {
    && n <= |d.tokens| && n <= |e.tokens|
    && forall i :: 0 <= i < n ==> Shown(f, d, i) == Shown(f, e, i)
  }

  lemma {:induction false} RenderAgree(f: Schema, d: Doc, e: Doc, n: nat)
    requires SameShown(f, d, e, n)
    ensures Render(f, d, n) == Render(f, e, n)
  {
    if n > 0 {
      RenderAgree(f, d, e, n - 1);
    }
  }

  lemma {:induction false} RenderPrefix(f: Schema, d: Doc, n: nat, m: nat)
    requires n <= m <= |d.tokens|
    ensures Render(f, d, n) <= Render(f, d, m)
  {
    if n < m {
      RenderPrefix(f, d, n, m - 1);
    }
  }

  function TagAt(f: Schema, d: Doc, i: nat): Tag
    requires i < |d.tokens| && d.tokens[i].Bracket?
  {
    var t := d.tokens[i];
    var left := |Render(f, d, i)|;
    Tag(t.name, t.kind, left, left + |t.raw|, t.attr, t.paired)
  }

  /** Token positions in order, each of a tag that is still shown raw. */
  ghost predicate AreRaw(d: Doc, at: seq<nat>)
  {
    && Increasing(at, |d.tokens|)
    && forall i :: 0 <= i < |at| ==>
         at[i] < |d.tokens| && d.tokens[at[i]].Bracket? && d.tokens[at[i]].raw != "" && at[i] !in d.replaced
  }

  /** `tags` records the tags at those positions of the rendering. */
  ghost predicate AreAt(f: Schema, d: Doc, at: seq<nat>, tags: seq<Tag>)
  {
    && AreRaw(d, at) && |tags| == |at|
    && forall i :: 0 <= i < |at| ==> tags[i] == TagAt(f, d, at[i])
  }

  /** The recorded spans are disjoint and in order, and each covers its own bracket text. */
  ghost predicate SpansOk(d: Doc, at: seq<nat>, data: string, tags: seq<Tag>)
  {
    && |tags| == |at|
    && (forall i :: 0 <= i < |tags| ==> tags[i].left < tags[i].right <= |data|)
    && (forall i :: 0 <= i < |tags| ==> at[i] < |d.tokens| && data[tags[i].left..tags[i].right] == d.tokens[at[i]].raw)
    && (forall i, j :: 0 <= i < j < |tags| ==> tags[i].right <= tags[j].left)
  }

  lemma RenderNext(f: Schema, d: Doc, i: nat)
    requires i < |d.tokens|
    ensures Render(f, d, i + 1) == Render(f, d, i) + Shown(f, d, i)
  {
  }

  lemma TagSpan(f: Schema, d: Doc, i: nat)
    requires i < |d.tokens| && d.tokens[i].Bracket? && i !in d.replaced
    ensures var t := TagAt(f, d, i);
            && t.right <= |Output(f, d)| && t.right == |Render(f, d, i + 1)|
            && Output(f, d)[t.left..t.right] == d.tokens[i].raw
  {
    hide Render;
    RenderPrefix(f, d, i + 1, |d.tokens|);
    assert Render(f, d, i + 1) == Render(f, d, i) + d.tokens[i].raw by { RenderNext(f, d, i); }
    assert Output(f, d)[..|Render(f, d, i + 1)|] == Render(f, d, i + 1);
  }

  lemma SpansHold(f: Schema, d: Doc, at: seq<nat>, tags: seq<Tag>)
    requires AreAt(f, d, at, tags)
    ensures SpansOk(d, at, Output(f, d), tags)
  {
    hide Output, Render;
    forall i | 0 <= i < |tags|
      ensures tags[i].left < tags[i].right <= |Output(f, d)|
      ensures Output(f, d)[tags[i].left..tags[i].right] == d.tokens[at[i]].raw
    {
      TagSpan(f, d, at[i]);
    }
    forall i, j | 0 <= i < j < |tags|
      ensures tags[i].right <= tags[j].left
    {
      TagSpan(f, d, at[i]);
      RenderPrefix(f, d, at[i] + 1, at[j]);
    }
  }

  // Editing: replacing one token is one erase and one insert at its recorded position.

  function Splice(s: string, left: nat, right: nat, t: string): (r: string)
    requires left <= right <= |s|
    ensures |r| == |s| - (right - left) + |t|
  {
    s[..left] + t + s[right..]
  }

  lemma SpliceTail(s: string, left: nat, right: nat, t: string, more: string)
    requires left <= right <= |s|
    ensures Splice(s + more, left, right, t) == Splice(s, left, right, t) + more
  {
    assert (s + more)[..left] == s[..left];
    assert (s + more)[right..] == s[right..] + more;
  }

  /** The string after replacing first the tag b and then the tag a before it. */
  ghost predicate Edited(f: Schema, before: string, after: string, a: Tag, b: Tag)
  {
    && a.left <= a.right <= b.left <= b.right <= |before|
    && after == Splice(Splice(before, b.left, b.right, f(b.name, b.kind, b.attr)),
                       a.left, a.right, f(a.name, a.kind, a.attr))
  }

  /** d and e differ only in that e also replaces token k. */
  ghost predicate Replaces(f: Schema, d: Doc, e: Doc, k: nat)
  {
    && k < |d.tokens| && |e.tokens| == |d.tokens| && d.tokens[k].Bracket? && k !in d.replaced
    && Shown(f, e, k) == f(d.tokens[k].name, d.tokens[k].kind, d.tokens[k].attr)
    && forall i :: 0 <= i < |d.tokens| && i != k ==> Shown(f, e, i) == Shown(f, d, i)
  }

  lemma {:induction false} RenderReplace(f: Schema, d: Doc, e: Doc, k: nat, m: nat)
    requires Replaces(f, d, e, k) && k < m <= |d.tokens|
    ensures TagAt(f, d, k).right <= |Render(f, d, m)|
    ensures Render(f, e, m) == Splice(Render(f, d, m), TagAt(f, d, k).left, TagAt(f, d, k).right, Shown(f, e, k))
  {
    var t := TagAt(f, d, k);
    if m == k + 1 {
      RenderAgree(f, d, e, k);
      assert Render(f, d, m) == Render(f, d, k) + d.tokens[k].raw;
      assert Render(f, d, m)[..t.left] == Render(f, d, k);
    } else {
      RenderReplace(f, d, e, k, m - 1);
      SpliceTail(Render(f, d, m - 1), t.left, t.right, Shown(f, e, k), Shown(f, d, m - 1));
    }
  }

  /** Tags that come before everything that changed keep their recorded positions. */
  lemma TagsAgree(f: Schema, d: Doc, e: Doc, at: seq<nat>, tags: seq<Tag>, n: nat)
    requires AreAt(f, d, at, tags) && AreRaw(e, at)
    requires SameShown(f, d, e, n) && forall i :: 0 <= i < |at| ==> at[i] <= n && e.tokens[at[i]] == d.tokens[at[i]]
    ensures AreAt(f, e, at, tags)
  {
    hide Render, Shown, Increasing;
    forall i | 0 <= i < |at|
      ensures Render(f, d, at[i]) == Render(f, e, at[i])
    {
      RenderAgree(f, d, e, at[i]);
    }
  }

  /** The closing is replaced first, then the opening, whose recorded position is still right. */
  lemma PairOutput(f: Schema, d: Doc, e: Doc, o: nat, k: nat)
    requires o < k < |d.tokens| && d.tokens[o].Bracket? && d.tokens[k].Bracket? && o !in d.replaced && k !in d.replaced
    requires e.tokens == d.tokens && e.replaced == d.replaced + {o, k}
    ensures Edited(f, Output(f, d), Output(f, e), TagAt(f, d, o), TagAt(f, d, k))
  {
    hide Splice, Render;
    var c := d.(replaced := d.replaced + {k});
    assert Replaces(f, d, c, k) && Replaces(f, c, e, o);
    TagSpan(f, d, o);
    TagSpan(f, d, k);
    RenderPrefix(f, d, o + 1, k);
    RenderReplace(f, d, c, k, |d.tokens|);
    RenderReplace(f, c, e, o, |d.tokens|);
    RenderAgree(f, d, c, o);
  }

  lemma SingleOutput(f: Schema, d: Doc, e: Doc, k: nat)
    requires k < |d.tokens| && d.tokens[k].Bracket? && k !in d.replaced
    requires e.tokens == d.tokens && e.replaced == d.replaced + {k}
    ensures var b := TagAt(f, d, k);
            && b.left <= b.right <= |Output(f, d)|
            && Output(f, e) == Splice(Output(f, d), b.left, b.right, f(b.name, b.kind, b.attr))
  {
    hide Splice, Render;
    TagSpan(f, d, k);
    assert Replaces(f, d, e, k);
    RenderReplace(f, d, e, k, |d.tokens|);
  }

  // Cleaning up: find-and-erase, one discarded tag after another.

  function RemoveFirst(s: seq<Tag>, t: Tag): (r: seq<Tag>)
    ensures t !in s ==> r == s
    decreases |s|
  {
    if s == [] then []
    else if s[0] == t then s[1..]
    else [s[0]] + RemoveFirst(s[1..], t)
  }

  function RemoveAll(s: seq<Tag>, gone: seq<Tag>): seq<Tag>
    decreases |gone|
  {
    if gone == [] then s else RemoveFirst(RemoveAll(s, gone[..|gone| - 1]), gone[|gone| - 1])
  }

  ghost predicate Distinct(s: seq<Tag>)
  {
    forall i, j :: 0 <= i < j < |s| ==> s[i] != s[j]
  }

  lemma {:induction false} RemoveAt(s: seq<Tag>, i: nat)
    requires i < |s| && forall k :: 0 <= k < i ==> s[k] != s[i]
    ensures RemoveFirst(s, s[i]) == s[..i] + s[i + 1..]
    decreases i
  {
    if i > 0 {
      RemoveAt(s[1..], i - 1);
      assert s[1..][..i - 1] == s[1..i] && s[1..][i..] == s[i + 1..];
      assert [s[0]] + s[1..i] == s[..i];
    }
  }

  /** The tags from a up to b, last first: the order in which the search meets them. */
  function Backwards(s: seq<Tag>, a: nat, b: nat): (r: seq<Tag>)
    requires a <= b <= |s|
    ensures |r| == b - a
    decreases b - a
  {
    if a == b then [] else Backwards(s, a + 1, b) + [s[a]]
  }

  lemma OneMore(was: seq<Tag>, s: seq<Tag>, i: nat, n: nat, c: Tag)
    requires i < n <= |s|
    ensures was + Backwards(s, i + 1, n) + [s[i]] == was + Backwards(s, i, n)
    ensures was + Backwards(s, i + 1, n) + [s[i], c] == was + (Backwards(s, i, n) + [c])
  {
    hide *;
    BackwardsMore(s, i, n);
  }

  lemma BackwardsMore(s: seq<Tag>, i: nat, n: nat)
    requires i < n <= |s|
    ensures Backwards(s, i, n) == Backwards(s, i + 1, n) + [s[i]]
  {
  }

  lemma BackwardsNone(s: seq<Tag>, n: nat)
    requires n <= |s|
    ensures Backwards(s, n, n) == []
  {
  }

  lemma {:induction false} RemoveBackwards(s: seq<Tag>, a: nat, b: nat)
    requires a <= b <= |s| && Distinct(s)
    ensures RemoveAll(s, Backwards(s, a, b)) == s[..a] + s[b..]
    decreases b - a
  {
    hide RemoveFirst, RemoveAll;
    if a < b {
      RemoveBackwards(s, a + 1, b);
      RemoveOne(s, Backwards(s, a + 1, b), s[a]);
      var left := s[..a + 1] + s[b..];
      assert left[a] == s[a] && forall k :: 0 <= k < a ==> left[k] == s[k];
      RemoveAt(left, a);
      assert left[..a] == s[..a] && left[a + 1..] == s[b..];
    } else {
      RemoveNothing(s, []);
      assert s == s[..a] + s[b..];
    }
  }

  lemma RemoveOne(s: seq<Tag>, gone: seq<Tag>, t: Tag)
    ensures RemoveAll(s, gone + [t]) == RemoveFirst(RemoveAll(s, gone), t)
  {
    assert (gone + [t])[..|gone|] == gone;
  }

  lemma {:induction false} RemoveNothing(s: seq<Tag>, gone: seq<Tag>)
    requires forall t :: t in gone ==> t !in s
    ensures RemoveAll(s, gone) == s
  {
    if gone != [] {
      RemoveNothing(s, gone[..|gone| - 1]);
    }
  }

  /** After a match the opening, all that came after it and the closing itself are gone. */
  lemma RemoveMatched(s: seq<Tag>, j: nat)
    requires j < |s| - 1 && Distinct(s)
    ensures RemoveAll(s, Backwards(s, j, |s| - 1) + [s[|s| - 1]]) == s[..j]
  {
    hide RemoveFirst, RemoveAll, Backwards;
    var n := |s| - 1;
    RemoveBackwards(s, j, n);
    RemoveOne(s, Backwards(s, j, n), s[n]);
    var left := s[..j] + s[n..];
    assert left[j] == s[n] && forall k :: 0 <= k < j ==> left[k] == s[k];
    RemoveAt(left, j);
    assert left[..j] == s[..j] && left[j + 1..] == [];
  }

  /** What the search relies on: unmatched closings up to m, then openings, then the last tag. */
  ghost predicate Layout(tags: seq<Tag>, m: nat, size: nat)
  {
    && m < |tags|
    && (forall i :: 0 <= i < m ==> tags[i].kind == Closing)
    && (forall i :: m <= i < |tags| - 1 ==> tags[i].kind == Opening)
    && (forall i :: 0 <= i < |tags| ==> tags[i].left < tags[i].right <= size)
    && (forall i, j :: 0 <= i < j < |tags| ==> tags[i].right <= tags[j].left)
  }

  /** The search found the last opening of that name, or there is none. */
  ghost predicate Found(tags: seq<Tag>, m: nat, j: int)
    requires m < |tags|
  {
    var n := |tags| - 1;
    if j < 0 then
      forall i :: m <= i < n ==> tags[i].name != tags[n].name
    else
      m <= j < n && tags[j].name == tags[n].name && forall i :: j < i < n ==> tags[i].name != tags[n].name
  }

  // The document and the engine's state, pass by pass.

  /** The tags the vector holds: those waiting, and the one just pushed if there is one. */
  function Waiting(d: Doc, pushed: bool): seq<nat>
    requires pushed ==> d.tokens != []
  {
    d.strays + d.pending + if pushed then [|d.tokens| - 1] else []
  }

  ghost predicate PassOk(d: Doc, pushed: bool)
  {
    DocOk(d) && (pushed ==> d.tokens != [] && IsNew(d, |d.tokens| - 1))
  }

  lemma WaitingAt(d: Doc, pushed: bool, i: nat)
    requires PassOk(d, pushed) && i < |Waiting(d, pushed)|
    ensures var x := Waiting(d, pushed)[i];
            if i < |d.strays| then x == d.strays[i] && x in d.strays
            else if i < |d.strays| + |d.pending| then x == d.pending[i - |d.strays|] && x in d.pending
            else pushed && x == |d.tokens| - 1
    ensures |Waiting(d, pushed)| == |d.strays| + |d.pending| + if pushed then 1 else 0
  {
    hide DocOk, IsNew;
  }

  lemma WaitingOk(d: Doc, pushed: bool)
    requires PassOk(d, pushed)
    ensures AreRaw(d, Waiting(d, pushed))
  {
    hide PairsOk, AllReplacedPaired;
    var at := Waiting(d, pushed);
    var rest := d.strays + d.pending;
    assert at == rest || at == rest + [|d.tokens| - 1];
    forall i | 0 <= i < |at|
      ensures at[i] < |d.tokens| && d.tokens[at[i]].Bracket? && at[i] !in d.replaced && d.tokens[at[i]].raw != ""
    {
      WaitingAt(d, pushed, i);
    }
    forall i, j | 0 <= i < j < |at|
      ensures at[i] < at[j]
    {
      assert at[i] == rest[i] && rest[i] in rest;
    }
  }

  lemma LayoutOk(f: Schema, d: Doc, pushed: bool, tags: seq<Tag>)
    requires PassOk(d, pushed) && AreAt(f, d, Waiting(d, pushed), tags) && tags != []
    ensures Layout(tags, if |d.strays| < |tags| then |d.strays| else |tags| - 1, |Output(f, d)|)
    ensures Distinct(tags)
  {
    hide Output, PairsOk, AllReplacedPaired, Render, Increasing, Waiting;
    var at := Waiting(d, pushed);
    SpansHold(f, d, at, tags);
    forall i | 0 <= i < |tags|
      ensures i < |d.strays| ==> tags[i].kind == Closing
      ensures |d.strays| <= i < |d.strays| + |d.pending| ==> tags[i].kind == Opening
      ensures |tags| == |d.strays| + |d.pending| + if pushed then 1 else 0
    {
      WaitingAt(d, pushed, i);
    }
  }

  /** The opening the search finds is the innermost pending one of that name. */
  lemma FoundInnermost(f: Schema, d: Doc, tags: seq<Tag>, j: int)
    requires PassOk(d, true) && AreAt(f, d, Waiting(d, true), tags) && |d.strays| < |tags|
    requires Found(tags, |d.strays|, j)
    ensures var k := |d.tokens| - 1;
            Innermost(d, d.tokens[k].name, |d.pending|) == if j < 0 then |d.pending| else j - |d.strays|
  {
    hide Render, PairsOk, AllReplacedPaired, Increasing, Waiting;
    var k := |d.tokens| - 1;
    WaitingAt(d, true, |tags| - 1);
    forall x | 0 <= x < |d.pending|
      ensures Named(d, d.pending[x], d.tokens[k].name) <==> tags[|d.strays| + x].name == tags[|tags| - 1].name
    {
      WaitingAt(d, true, |d.strays| + x);
    }
    var i := Innermost(d, d.tokens[k].name, |d.pending|);
    if j < 0 {
      assert forall x :: 0 <= x < |d.pending| ==> !Named(d, d.pending[x], d.tokens[k].name);
    } else {
      assert Named(d, d.pending[j - |d.strays|], d.tokens[k].name);
      assert i < |d.pending|;
      assert tags[|d.strays| + i].name == tags[|tags| - 1].name;
    }
  }

  lemma Cut(d: Doc, e: Doc, j: nat)
    requires PassOk(d, true) && e.strays == d.strays && j <= |d.pending| && e.pending == d.pending[..j]
    ensures e.strays + e.pending == Waiting(d, true)[..|d.strays| + j]
  {
    hide DocOk, IsNew;
  }

  /** A prefix of the tags that ends at or before token n is untouched by what happens from n on. */
  lemma PrefixAgrees(f: Schema, d: Doc, e: Doc, at: seq<nat>, tags: seq<Tag>, i: nat, n: nat)
    requires AreAt(f, d, at, tags) && i <= |at| && AreRaw(e, at[..i])
    requires n <= |d.tokens| && e.tokens == d.tokens && forall x :: 0 <= x < i ==> at[x] <= n
    requires forall x :: 0 <= x < n ==> (x in d.replaced <==> x in e.replaced)
    ensures AreAt(f, e, at[..i], tags[..i])
  {
    hide Render;
    TagsAgree(f, d, e, at[..i], tags[..i], n);
  }

  /** The last tag is new and is the one to be matched. */
  ghost predicate Arrived(f: Schema, d: Doc, tags: seq<Tag>)
  {
    && PassOk(d, true) && AreAt(f, d, Waiting(d, true), tags) && tags != []
    && |tags| == |d.strays| + |d.pending| + 1
    && tags[|tags| - 1] == TagAt(f, d, |d.tokens| - 1)
    && d.tokens[|d.tokens| - 1].paired
  }

  lemma ArrivedOk(f: Schema, d: Doc, tags: seq<Tag>)
    requires PassOk(d, true) && AreAt(f, d, Waiting(d, true), tags) && d.tokens[|d.tokens| - 1].paired
    ensures Arrived(f, d, tags)
  {
    hide DocOk, Render, TagAt;
    WaitingAt(d, true, |d.strays| + |d.pending|);
  }

  lemma MatchedTags(f: Schema, d: Doc, tags: seq<Tag>, j: nat)
    requires Arrived(f, d, tags) && j < |d.pending| && DocOk(Match(d, |d.tokens| - 1, j))
    ensures var e := Match(d, |d.tokens| - 1, j);
            AreAt(f, e, e.strays + e.pending, tags[..|d.strays| + j])
  {
    hide Render, DocOk;
    var e := Match(d, |d.tokens| - 1, j);
    var at := Waiting(d, true);
    var i := |d.strays| + j;
    Cut(d, e, j);
    WaitingOk(e, false);
    assert Waiting(e, false) == e.strays + e.pending;
    WaitingAt(d, true, i);
    assert at[i] == d.pending[j] && IsNew(d, |d.tokens| - 1);
    PrefixAgrees(f, d, e, at, tags, i, d.pending[j]);
  }

  lemma MatchedOutput(f: Schema, d: Doc, tags: seq<Tag>, j: nat)
    requires Arrived(f, d, tags) && j < |d.pending|
    ensures Edited(f, Output(f, d), Output(f, Match(d, |d.tokens| - 1, j)), tags[|d.strays| + j], tags[|tags| - 1])
  {
    hide Render, DocOk, Edited, Output, TagAt;
    var k := |d.tokens| - 1;
    var i := |d.strays| + j;
    WaitingAt(d, true, i);
    var at := Waiting(d, true);
    assert at[i] == d.pending[j] && at[i] in d.strays + d.pending;
    PairOutput(f, d, Match(d, k, j), d.pending[j], k);
  }

  /** The last tag is a closing one and its opening was found. */
  lemma ClosingMatched(f: Schema, d: Doc, tags: seq<Tag>, j: nat)
    requires Arrived(f, d, tags) && tags[|tags| - 1].kind == Closing
    requires |d.strays| <= j < |tags| - 1 && Found(tags, |d.strays|, j)
    ensures var e := Settle(d, |d.tokens| - 1);
            && Edited(f, Output(f, d), Output(f, e), tags[j], tags[|tags| - 1])
            && AreAt(f, e, e.strays + e.pending, tags[..j])
  {
    hide Render, DocOk, Edited, Output, AreAt, Match, Found, Waiting;
    var k := |d.tokens| - 1;
    var i := j - |d.strays|;
    FoundInnermost(f, d, tags, j);
    SettleKeeps(d, k);
    assert Settle(d, k) == Match(d, k, i);
    MatchedTags(f, d, tags, i);
    MatchedOutput(f, d, tags, i);
  }

  /** The last tag is a closing one without an opening: it stays, the pending openings go. */
  lemma ClosingUnmatched(f: Schema, d: Doc, tags: seq<Tag>, j: int)
    requires Arrived(f, d, tags) && tags[|tags| - 1].kind == Closing && j < 0 && Found(tags, |d.strays|, j)
    ensures var e := Settle(d, |d.tokens| - 1);
            && Output(f, e) == Output(f, d)
            && AreAt(f, e, e.strays + e.pending, tags[..|d.strays|] + tags[|tags| - 1..])
  {
    hide Render, DocOk, Found, IsNew;
    var k := |d.tokens| - 1;
    var e := Settle(d, k);
    FoundInnermost(f, d, tags, j);
    SettleKeeps(d, k);
    RenderAgree(f, d, e, |d.tokens|);
    StrayTags(f, d, e, tags);
  }

  lemma StrayTags(f: Schema, d: Doc, e: Doc, tags: seq<Tag>)
    requires Arrived(f, d, tags) && DocOk(e)
    requires e == d.(strays := d.strays + [|d.tokens| - 1], pending := [])
    ensures AreAt(f, e, e.strays + e.pending, tags[..|d.strays|] + tags[|tags| - 1..])
  {
    hide Render, DocOk, IsNew;
    var k := |d.tokens| - 1;
    var at := e.strays + e.pending;
    var r := tags[..|d.strays|] + tags[|tags| - 1..];
    WaitingOk(e, false);
    assert Waiting(e, false) == at && |r| == |at|;
    forall i | 0 <= i < |at|
      ensures r[i] == TagAt(f, e, at[i])
    {
      if i < |d.strays| {
        WaitingAt(d, true, i);
      }
      RenderAgree(f, d, e, at[i]);
    }
  }

  lemma OpeningWaits(f: Schema, d: Doc, tags: seq<Tag>)
    requires Arrived(f, d, tags) && tags[|tags| - 1].kind == Opening
    ensures var e := Settle(d, |d.tokens| - 1);
            Output(f, e) == Output(f, d) && AreAt(f, e, e.strays + e.pending, tags)
  {
    hide Render, DocOk, IsNew;
    var k := |d.tokens| - 1;
    var e := Settle(d, k);
    SettleKeeps(d, k);
    RenderAgree(f, d, e, |d.tokens|);
    WaitingOk(e, false);
    assert Waiting(e, false) == e.strays + e.pending == Waiting(d, true);
    TagsAgree(f, d, e, Waiting(d, true), tags, |d.tokens|);
  }

  /** Without a new tag the last one is a pending opening, or a closing with only closings before it. */
  lemma NothingNew(f: Schema, d: Doc, tags: seq<Tag>, m: nat, j: int)
    requires PassOk(d, false) && AreAt(f, d, Waiting(d, false), tags) && tags != []
    requires m == if |d.strays| < |tags| then |d.strays| else |tags| - 1
    ensures Waiting(d, false) == d.strays + d.pending
    ensures tags[|tags| - 1].kind == Closing ==>
              Backwards(tags, m, |tags| - 1) == [] && (Found(tags, m, j) ==> j < 0)
  {
    hide Render, PairsOk, AllReplacedPaired, Increasing;
    WaitingAt(d, false, |tags| - 1);
  }

  /** A tag without a closing tag is always the one just pushed. */
  lemma LastTag(f: Schema, d: Doc, pushed: bool, tags: seq<Tag>)
    requires PassOk(d, pushed) && AreAt(f, d, Waiting(d, pushed), tags)
    ensures pushed ==> tags != [] && tags[|tags| - 1] == TagAt(f, d, |d.tokens| - 1)
    ensures pushed ==> d.tokens != [] && d.tokens[|d.tokens| - 1].Bracket? && |d.tokens| - 1 !in d.replaced
    ensures !pushed && tags != [] ==> tags[|tags| - 1].hasClosing
    ensures !pushed ==> Waiting(d, pushed) == d.strays + d.pending
  {
    hide Render, PairsOk, AllReplacedPaired, Increasing;
    if tags != [] {
      WaitingAt(d, pushed, |tags| - 1);
    }
  }

  /** Replacing it leaves the other tags as they were. */
  lemma SingleReplaced(f: Schema, d: Doc, tags: seq<Tag>, e: Doc)
    requires PassOk(d, true) && AreAt(f, d, Waiting(d, true), tags) && tags != []
    requires !d.tokens[|d.tokens| - 1].paired && e == Settle(d, |d.tokens| - 1)
    ensures PassOk(e, false) && Waiting(e, false) == e.strays + e.pending
    ensures AreAt(f, e, Waiting(e, false), tags[..|tags| - 1])
    ensures var b := TagAt(f, d, |d.tokens| - 1);
            && b.left <= b.right <= |Output(f, d)|
            && Output(f, e) == Splice(Output(f, d), b.left, b.right, f(b.name, b.kind, b.attr))
  {
    hide Render, DocOk, Splice, Output;
    var k := |d.tokens| - 1;
    SettleKeeps(d, k);
    SingleOutput(f, d, e, k);
    var at := Waiting(d, true);
    var n := |tags| - 1;
    assert Waiting(e, false) == at[..n];
    WaitingOk(e, false);
    forall x | 0 <= x < n
      ensures at[x] <= k
    {
      assert at[x] in d.strays + d.pending;
    }
    PrefixAgrees(f, d, e, at, tags, n, k);
  }

  lemma RemoveLast(tags: seq<Tag>, m: nat, size: nat)
    requires Layout(tags, m, size)
    ensures var n := |tags| - 1; RemoveAll(tags, [tags[n]]) == tags[..n] && tags[n] !in tags[..n]
  {
    hide RemoveFirst;
    var n := |tags| - 1;
    RemoveAt(tags, n);
    RemoveNothing(tags, []);
    RemoveOne(tags, [], tags[n]);
    assert [] + [tags[n]] == [tags[n]];
  }

  // The events.

  /** A tag on which a pass has an effect; the pass after an opening tag may be put off. */
  predicate Actionable(e: Event)
  {
    e.TagFound? && (e.kind == Closing || !e.paired)
  }

  /** The document with one more token, which shows raw. */
  ghost predicate Appended(f: Schema, d: Doc, e: Doc, raw: string)
  {
    && |e.tokens| == |d.tokens| + 1 && SameShown(f, d, e, |d.tokens|)
    && Shown(f, e, |d.tokens|) == raw
  }

  lemma AppendedOutput(f: Schema, d: Doc, e: Doc, raw: string)
    requires Appended(f, d, e, raw)
    ensures Output(f, e) == Output(f, d) + raw
  {
    RenderAgree(f, d, e, |d.tokens|);
  }

  lemma TextFits(f: Schema, d: Doc, s: string, tags: seq<Tag>)
    requires PassOk(d, false) && AreAt(f, d, Waiting(d, false), tags)
    ensures var e := Step(d, Text(s));
            PassOk(e, false) && Output(f, e) == Output(f, d) + s && AreAt(f, e, Waiting(e, false), tags)
  {
    hide Render, DocOk;
    var e := Step(d, Text(s));
    StepKeeps(d, Text(s));
    NewShown(f, d, e);
    AppendedOutput(f, d, e, s);
    WaitingOk(e, false);
    TagsAgree(f, d, e, Waiting(d, false), tags, |d.tokens|);
  }

  lemma WaitingLast(d: Doc)
    requires PassOk(d, false)
    ensures Waiting(d, false) == d.strays + d.pending
    ensures var at := Waiting(d, false); Last(d) == if at == [] then |d.tokens| else at[|at| - 1]
  {
    hide DocOk;
  }

  function Extended(tags: seq<Tag>, key: string, s: string): seq<Tag>
  {
    var n := |tags| - 1;
    if tags != [] && tags[n].name == key then tags[n := tags[n].(attr := Extend(tags[n].attr, key, s))] else tags
  }

  lemma ContentOutput(f: Schema, d: Doc, key: string, s: string)
    requires PassOk(d, false)
    ensures var e := Step(d, Content(key, s)); SameShown(f, d, e, |d.tokens|) && Output(f, e) == Output(f, d) + s
  {
    hide Render, PairsOk, AllReplacedPaired, Last, Increasing;
    var e := Step(d, Content(key, s));
    var l := Last(d);
    WaitingLast(d);
    WaitingOk(d, false);
    assert l < |d.tokens| ==> l !in d.replaced;
    AppendedOutput(f, d, e, s);
  }

  lemma ContentFits(f: Schema, d: Doc, key: string, s: string, tags: seq<Tag>)
    requires PassOk(d, false) && AreAt(f, d, Waiting(d, false), tags)
    ensures var e := Step(d, Content(key, s));
            && PassOk(e, false) && Output(f, e) == Output(f, d) + s
            && AreAt(f, e, Waiting(e, false), Extended(tags, key, s))
  {
    hide Render, DocOk, Last, Shown, Output;
    var e := Step(d, Content(key, s));
    var at := Waiting(d, false);
    StepKeeps(d, Content(key, s));
    WaitingOk(e, false);
    WaitingLast(d);
    ContentOutput(f, d, key, s);
    assert Waiting(e, false) == at;
    var r := Extended(tags, key, s);
    var n := |tags| - 1;
    assert tags != [] ==> Last(d) == at[n] && (Named(d, at[n], key) <==> tags[n].name == key);
    forall i | 0 <= i < |at|
      ensures r[i] == TagAt(f, e, at[i])
    {
      RenderAgree(f, d, e, at[i]);
      assert i < n ==> at[i] < at[n];
    }
  }

  lemma TagFits(f: Schema, d: Doc, e: Event, tags: seq<Tag>)
    requires PassOk(d, false) && AreAt(f, d, Waiting(d, false), tags) && e.TagFound? && WellFormed(e)
    ensures var g := d.(tokens := d.tokens + [Bracket(e.raw, e.name, e.kind, e.attr, e.paired)]);
            && PassOk(g, true) && Settle(g, |g.tokens| - 1) == Step(d, e)
            && Output(f, g) == Output(f, d) + e.raw
            && AreAt(f, g, Waiting(g, true),
                     tags + [Tag(e.name, e.kind, |Output(f, d)|, |Output(f, g)|, e.attr, e.paired)])
  {
    hide Render, DocOk, Shown;
    var t := Bracket(e.raw, e.name, e.kind, e.attr, e.paired);
    var g := d.(tokens := d.tokens + [t]);
    var k := |d.tokens|;
    var at := Waiting(d, false);
    ShapeKeeps(d, g.tokens);
    NewToken(d, t);
    WaitingOk(g, true);
    assert Waiting(g, true) == at + [k];
    NewShown(f, d, g);
    AppendedOutput(f, d, g, e.raw);
    RenderAgree(f, d, g, k);
    WaitingOk(g.(tokens := g.tokens), false);
    TagsAgree(f, d, g, at, tags, k);
  }

  lemma NewShown(f: Schema, d: Doc, g: Doc)
    requires DocOk(d) && |g.tokens| == |d.tokens| + 1 && d.tokens == g.tokens[..|d.tokens|] && g.replaced == d.replaced
    ensures Appended(f, d, g, g.tokens[|d.tokens|].raw)
  {
    assert |d.tokens| !in d.replaced;
    assert forall i :: 0 <= i < |d.tokens| ==> g.tokens[i] == d.tokens[i];
  }

  class Parser {
    const schema: Schema
    var data: string
    var tags: seq<Tag>
    var discarded: seq<Tag>
    ghost var doc: Doc

    ghost predicate Fits(d: Doc, at: seq<nat>)
      reads this
    {
      data == Output(schema, d) && AreAt(schema, d, at, tags)
    }

    ghost predicate Valid()
      reads this
    {
      DocOk(doc) && Fits(doc, doc.strays + doc.pending)
    }

    constructor (schema: Schema)
      ensures Valid() && doc == EMPTY && this.schema == schema
    {
      hide *;
      this.schema := schema;
      data, tags, discarded, doc := "", [], [], EMPTY;
      new;
      NothingYet(this);
    }

    static method Find(s: seq<Tag>, t: Tag) returns (i: nat)
      ensures i <= |s| && (forall k :: 0 <= k < i ==> s[k] != t) && (i < |s| ==> s[i] == t)
    {
      i := 0;
      while i < |s| && s[i] != t
        invariant i <= |s| && forall k :: 0 <= k < i ==> s[k] != t
      {
        i := i + 1;
      }
    }

    method DiscardedTagsCleanup()
      modifies this`tags
      ensures tags == RemoveAll(old(tags), discarded)
    {
      hide RemoveAll, RemoveFirst;
      var c := 0;
      RemoveNothing(tags, []);
      assert discarded[..c] == [];
      while c < |discarded|
        invariant c <= |discarded| && tags == RemoveAll(old(tags), discarded[..c])
      {
        var i := Find(tags, discarded[c]);
        if i < |tags| {
          RemoveAt(tags, i);
          tags := tags[..i] + tags[i + 1..];
        }
        assert discarded[..c + 1] == discarded[..c] + [discarded[c]];
        RemoveOne(old(tags), discarded[..c], discarded[c]);
        c := c + 1;
      }
      assert discarded[..c] == discarded;
    }

    /** Erase a tag's bracket text and insert its replacement in the same place. */
    method Replace(t: Tag)
      requires t.left <= t.right <= |data|
      modifies this`data
      ensures data == Splice(old(data), t.left, t.right, schema(t.name, t.kind, t.attr))
    {
      var replacement := schema(t.name, t.kind, t.attr);
      data := data[..t.left] + data[t.right..];
      data := data[..t.left] + replacement + data[t.left..];
    }

    method ReplacePair(o: Tag, c: Tag)
      requires o.left <= o.right <= c.left <= c.right <= |data|
      modifies this`data, this`discarded
      ensures Edited(schema, old(data), data, o, c) && discarded == old(discarded) + [o, c]
    {
      hide Splice;
      Replace(c);
      Replace(o);
      discarded := discarded + [o];
      discarded := discarded + [c];
    }

    /** From the last tag backwards: replace the pair, or note the overlapped openings on the way. */
    method FindOpening(ghost m: nat) returns (ghost j: int)
      requires Layout(tags, m, |data|)
      modifies this`data, this`discarded
      ensures var n := |tags| - 1; var cur := tags[n];
              if cur.kind == Opening then
                data == old(data) && discarded == old(discarded)
              else
                && Found(tags, m, j)
                && if j < 0 then
                     data == old(data) && discarded == old(discarded) + Backwards(tags, m, n)
                   else
                     && Edited(schema, old(data), data, tags[j], cur)
                     && discarded == old(discarded) + (Backwards(tags, j, n) + [cur])
    {
      hide Edited, Backwards;
      BackwardsNone(tags, |tags| - 1);
      var cur := tags[|tags| - 1];
      var i := |tags| - 1;
      j := -1;
      ghost var n := i;
      ghost var lo := n;
      while i > 0
        invariant i <= n && lo == (if i < m then m else i)
        invariant data == old(data) && j == -1
        invariant cur.kind == Opening ==> discarded == old(discarded)
        invariant cur.kind == Closing ==> discarded == old(discarded) + Backwards(tags, lo, n)
        invariant cur.kind == Closing ==> forall x :: lo <= x < n ==> tags[x].name != cur.name
      {
        i := i - 1;
        if cur.kind == Closing {
          OneMore(old(discarded), tags, i, n, cur);
          if tags[i].name == cur.name && tags[i].kind == Opening {
            ReplacePair(tags[i], cur);
            j := i;
            break;
          } else if tags[i].kind == Opening {
            discarded := discarded + [tags[i]];
          }
        }
        lo := if i < m then m else i;
      }
    }

    /** The pass once the last tag has a closing tag. */
    method MatchLast(ghost d: Doc, ghost pushed: bool)
      requires PassOk(d, pushed) && Fits(d, Waiting(d, pushed)) && tags != []
      requires pushed ==> d.tokens[|d.tokens| - 1].paired && discarded == []
      requires forall t :: t in discarded ==> t !in tags
      modifies this`data, this`tags, this`discarded
      ensures var e := if pushed then Settle(d, |d.tokens| - 1) else d;
              Fits(e, e.strays + e.pending)
      ensures !pushed ==> data == old(data) && tags == old(tags)
    {
      hide Output, Render, AreAt, PassOk, DocOk, Settle, Splice, RemoveAll, RemoveFirst, Backwards, Layout;
      hide Distinct, Waiting, TagAt;
      ghost var n := |tags| - 1;
      ghost var m := if |d.strays| < |tags| then |d.strays| else n;
      ghost var was, gone := tags, discarded;
      LayoutOk(schema, d, pushed, tags);
      ghost var j := FindOpening(m);
      DiscardedTagsCleanup();
      if pushed {
        ArrivedOk(schema, d, was);
        if was[n].kind == Opening {
          RemoveNothing(was, gone);
          OpeningWaits(schema, d, was);
        } else if j < 0 {
          RemoveBackwards(was, m, n);
          assert gone + Backwards(was, m, n) == Backwards(was, m, n);
          ClosingUnmatched(schema, d, was, j);
        } else {
          RemoveMatched(was, j);
          assert gone + (Backwards(was, j, n) + [was[n]]) == Backwards(was, j, n) + [was[n]];
          ClosingMatched(schema, d, was, j);
        }
      } else {
        NothingNew(schema, d, was, m, j);
        assert gone + [] == gone;
        RemoveNothing(was, gone);
      }
    }

    /**
     * One pass over the tags. With a tag just pushed it settles that tag; without one, as when the
     * automaton gives up on a bracket, it changes nothing.
     */
    method BbcodeReplacements(ghost d: Doc, ghost pushed: bool)
      requires PassOk(d, pushed) && Fits(d, Waiting(d, pushed))
      modifies this`data, this`tags, this`discarded
      ensures var e := if pushed then Settle(d, |d.tokens| - 1) else d;
              Fits(e, e.strays + e.pending)
      ensures !pushed ==> data == old(data) && tags == old(tags)
    {
      hide Output, Render, AreAt, PassOk, DocOk, Splice, RemoveAll, RemoveFirst, IsNew, Waiting, Layout, Settle;
      LastTag(schema, d, pushed, tags);
      discarded := [];
      if |tags| == 0 { return; }
      ghost var e, p := d, pushed;
      var cur := tags[|tags| - 1];
      if !cur.hasClosing {
        e, p := Settle(d, |d.tokens| - 1), false;
        LayoutOk(schema, d, pushed, tags);
        RemoveLast(tags, if |d.strays| < |tags| then |d.strays| else |tags| - 1, |data|);
        SingleReplaced(schema, d, tags, e);
        Replace(cur);
        discarded := discarded + [cur];
        assert discarded == [cur];
        DiscardedTagsCleanup();
        if |tags| == 0 { return; }
        cur := tags[|tags| - 1];
      }
      MatchLast(e, p);
    }

    /**
     * One event, and the pass that follows it when the automaton has reached an end state. Whether it
     * has makes no difference except for a tag that a pass can act on.
     */
    method Feed(e: Event, ends: bool)
      requires Valid() && WellFormed(e) && (Actionable(e) ==> ends)
      modifies this
      ensures Valid() && doc == Step(old(doc), e)
    {
      hide Output, Render, AreAt, DocOk, Settle, IsNew, TagAt, Waiting, Step;
      ghost var d, g, p := doc, Step(doc, e), false;
      WaitingLast(d);
      StepKeeps(d, e);
      match e {
        case Text(s) =>
          TextFits(schema, d, s, tags);
          data := data + s;
        case Content(key, s) =>
          ContentFits(schema, d, key, s, tags);
          data := data + s;
          if |tags| != 0 && tags[|tags| - 1].name == key {
            var t := tags[|tags| - 1];
            tags := tags[|tags| - 1 := t.(attr := Extend(t.attr, key, s))];
          }
        case TagFound(raw, name, kind, attr, paired) =>
          TagFits(schema, d, e, tags);
          g, p := d.(tokens := d.tokens + [Bracket(raw, name, kind, attr, paired)]), true;
          var left := |data|;
          data := data + raw;
          tags := tags + [Tag(name, kind, left, |data|, attr, paired)];
      }
      if ends {
        BbcodeReplacements(g, p);
      } else if p {
        ArrivedOk(schema, g, tags);
        OpeningWaits(schema, g, tags);
      }
      doc := Step(d, e);
      WaitingLast(doc);
    }
  }

  lemma NothingYet(p: Parser)
    requires p.data == "" && p.tags == [] && p.doc == EMPTY
    ensures p.Valid()
  {
    assert DocOk(EMPTY);
  }

  lemma NothingRun(events: seq<Event>)
    ensures Run(events[..0]) == EMPTY
  {
    assert events[..0] == [];
  }

  lemma RunMore(events: seq<Event>, i: nat)
    requires i < |events|
    ensures Run(events[..i + 1]) == Step(Run(events[..i]), events[i])
  {
    hide Step;
    assert events[..i + 1][..i] == events[..i];
  }

  /** Parsing with a fresh parser gives exactly what the matcher over tokens renders at the end. */
  method Parse(schema: Schema, events: seq<Event>, ends: seq<bool>) returns (r: string)
    requires |ends| == |events|
    requires forall i :: 0 <= i < |events| ==> WellFormed(events[i]) && (Actionable(events[i]) ==> ends[i])
    ensures r == Output(schema, Run(events))
  {
    hide Output, Run, Step, DocOk, AreAt, WellFormed, Actionable;
    var p := new Parser(schema);
    var i := 0;
    NothingRun(events);
    while i < |events|
      invariant i <= |events| && p.Valid() && p.schema == schema && p.doc == Run(events[..i])
    {
      RunMore(events, i);
      p.Feed(events[i], ends[i]);
      i := i + 1;
    }
    assert events[..i] == events;
    r := p.data;
  }
}
