/**
 * What the BBCode replacement engine should compute: a matcher over tokens that never looks at
 * positions, and a rendering done at the end.
 */
module BbcodeSpec {

  datatype TagType = Opening | Closing

  type Attributes = map<string, string>

  /** The replacement string that the tag schema gives for a name, a type and attributes. */
  type Schema = (string, TagType, Attributes) -> string

  datatype Token =
    | Plain(raw: string)
    | Bracket(raw: string, name: string, kind: TagType, attr: Attributes, paired: bool)

  /** What the parser can be given: text, text that also extends the attribute of the last tag, or a tag. */
  datatype Event =
    | Text(text: string)
    | Content(key: string, text: string)
    | TagFound(raw: string, name: string, kind: TagType, attr: Attributes, paired: bool)

  /** A recognised tag has at least its opening bracket. */
  predicate WellFormed(e: Event)
  {
    e.TagFound? ==> e.raw != ""
  }

  /**
   * The tokens so far, which of them are replaced, the tags that are still waiting as token
   * positions (unmatched closings, then pending openings), and the pairs matched.
   */
  datatype Doc = Doc(
    tokens: seq<Token>,
    replaced: set<nat>,
    strays: seq<nat>,
    pending: seq<nat>,
    pairs: seq<(nat, nat)>)

  const EMPTY: Doc := Doc([], {}, [], [], [])

  function Shown(f: Schema, d: Doc, i: nat): string
    requires i < |d.tokens|
  {
    var t := d.tokens[i];
    if i in d.replaced && t.Bracket? then f(t.name, t.kind, t.attr) else t.raw
  }

  /** The first n tokens, in order, each raw or replaced. */
  function Render(f: Schema, d: Doc, n: nat): string
    requires n <= |d.tokens|
  {
    if n == 0 then "" else Render(f, d, n - 1) + Shown(f, d, n - 1)
  }

  function Output(f: Schema, d: Doc): string { Render(f, d, |d.tokens|) }

  predicate Named(d: Doc, i: nat, name: string)
  {
    i < |d.tokens| && d.tokens[i].Bracket? && d.tokens[i].name == name
  }

  /** The position in `pending` of the innermost opening of that name, or |pending|. */
  function Innermost(d: Doc, name: string, n: nat): (j: nat)
    requires n <= |d.pending|
    ensures j < n || j == |d.pending|
    ensures j < n ==> Named(d, d.pending[j], name) && forall k :: j < k < n ==> !Named(d, d.pending[k], name)
    ensures j == |d.pending| && n < |d.pending| ==> forall k :: 0 <= k < n ==> !Named(d, d.pending[k], name)
    ensures j == |d.pending| ==> forall k :: 0 <= k < n ==> !Named(d, d.pending[k], name)
  {
    if n == 0 then |d.pending|
    else if Named(d, d.pending[n - 1], name) then n - 1
    else Innermost(d, name, n - 1)
  }

  /** The tag that text inside [url], [img] and [email] extends. */
  function Last(d: Doc): (i: nat)
    ensures d.strays + d.pending == [] ==> i == |d.tokens|
    ensures d.strays + d.pending != [] ==> i == (d.strays + d.pending)[|d.strays + d.pending| - 1]
  {
    if d.pending != [] then d.pending[|d.pending| - 1]
    else if d.strays != [] then d.strays[|d.strays| - 1]
    else |d.tokens|
  }

  function Extend(a: Attributes, key: string, text: string): Attributes
  {
    a[key := if key in a then a[key] + text else text]
  }

  /** One event. A closing tag takes the innermost opening of its name and drops the openings inside it. */
  function Step(d: Doc, e: Event): Doc
  {
    var k := |d.tokens|;
    match e
    case Text(s) => d.(tokens := d.tokens + [Plain(s)])
    case Content(key, s) =>
      var l := Last(d);
      var ts :=
        if Named(d, l, key) then d.tokens[l := d.tokens[l].(attr := Extend(d.tokens[l].attr, key, s))]
        else d.tokens;
      d.(tokens := ts + [Plain(s)])
    case TagFound(raw, name, kind, attr, paired) =>
      Settle(d.(tokens := d.tokens + [Bracket(raw, name, kind, attr, paired)]), k)
  }

  /** The closing tag k takes pending opening j; the openings after j are dropped. */
  function Match(d: Doc, k: nat, j: nat): Doc
    requires j < |d.pending|
  {
    var o := d.pending[j];
    d.(replaced := d.replaced + {o, k}, pending := d.pending[..j], pairs := d.pairs + [(o, k)])
  }

  /** What becomes of the tag just added as token k. */
  function Settle(d: Doc, k: nat): Doc
    requires k < |d.tokens| && d.tokens[k].Bracket?
  {
    var t := d.tokens[k];
    if !t.paired then d.(replaced := d.replaced + {k})
    else if t.kind == Opening then d.(pending := d.pending + [k])
    else
      var j := Innermost(d, t.name, |d.pending|);
      if j < |d.pending| then Match(d, k, j)
      else
        d.(strays := d.strays + [k], pending := [])
  }

  function Run(events: seq<Event>): Doc
  {
    if events == [] then EMPTY else Step(Run(events[..|events| - 1]), events[|events| - 1])
  }

  // What every reachable document satisfies.

  predicate Increasing(s: seq<nat>, bound: nat)
  {
    (forall i :: 0 <= i < |s| ==> s[i] < bound) && (forall i, j :: 0 <= i < j < |s| ==> s[i] < s[j])
  }

  predicate IsPaired(d: Doc, i: nat, kind: TagType)
  {
    i < |d.tokens| && d.tokens[i].Bracket? && d.tokens[i].paired && d.tokens[i].kind == kind && i !in d.replaced
  }

  ghost predicate TagsOk(d: Doc)
  {
    && Increasing(d.strays + d.pending, |d.tokens|)
    && (forall s :: s in d.strays ==> IsPaired(d, s, Closing))
    && (forall p :: p in d.pending ==> IsPaired(d, p, Opening))
    && (forall i :: i in d.replaced ==> i < |d.tokens| && d.tokens[i].Bracket?)
    && (forall i :: 0 <= i < |d.tokens| && d.tokens[i].Bracket? ==> d.tokens[i].raw != "")
  }

  /** Replaced pairs join an opening to a later closing of the same name. */
  predicate PairOk(d: Doc, p: (nat, nat))
  {
    && p.0 < p.1 < |d.tokens| && d.tokens[p.0].Bracket? && d.tokens[p.1].Bracket?
    && d.tokens[p.0].kind == Opening && d.tokens[p.1].kind == Closing
    && d.tokens[p.0].name == d.tokens[p.1].name && p.0 in d.replaced && p.1 in d.replaced
  }

  /** Two pairs lie beside each other or one inside the other. */
  predicate Nested(p: (nat, nat), q: (nat, nat))
  {
    p.1 < q.0 || q.1 < p.0 || (p.0 < q.0 && q.1 < p.1) || (q.0 < p.0 && p.1 < q.1)
  }

  ghost predicate PairsOk(d: Doc)
  {
    && (forall p :: p in d.pairs ==> PairOk(d, p))
    && (forall i, j :: 0 <= i < j < |d.pairs| ==> Nested(d.pairs[i], d.pairs[j]))
    // no opening still pending lies inside a replaced pair
    && (forall p, o :: p in d.pairs && o in d.pending ==> o < p.0 || p.1 < o)
  }

  ghost predicate AllReplacedPaired(d: Doc)
  {
    forall i :: i in d.replaced && i < |d.tokens| && d.tokens[i].Bracket? && d.tokens[i].paired
      ==> exists p :: p in d.pairs && (p.0 == i || p.1 == i)
  }

  ghost predicate DocOk(d: Doc) { TagsOk(d) && PairsOk(d) && AllReplacedPaired(d) }

  /** The same tokens with the same look, except possibly for attributes, and possibly some more text. */
  ghost predicate SameShape(a: seq<Token>, b: seq<Token>)
  {
    && |a| <= |b|
    && (forall i :: 0 <= i < |a| ==> a[i].Bracket? == b[i].Bracket? && a[i].raw == b[i].raw)
    && (forall i :: 0 <= i < |a| && a[i].Bracket? ==>
          a[i].name == b[i].name && a[i].kind == b[i].kind && a[i].paired == b[i].paired)
    && (forall i :: |a| <= i < |b| && b[i].Bracket? ==> b[i].raw != "")
  }

  lemma ShapeKeeps(d: Doc, ts: seq<Token>)
    requires DocOk(d) && SameShape(d.tokens, ts)
    ensures DocOk(d.(tokens := ts))
  {
    var e := d.(tokens := ts);
    assert TagsOk(e) && PairsOk(e);
    forall i | i in e.replaced && i < |e.tokens| && e.tokens[i].Bracket? && e.tokens[i].paired
      ensures exists p :: p in e.pairs && (p.0 == i || p.1 == i)
    {
      assert i in d.replaced && d.tokens[i].paired;
    }
  }

  /** Token k has just been added and comes after everything recorded. */
  ghost predicate IsNew(d: Doc, k: nat)
  {
    && k == |d.tokens| - 1 && d.tokens[k].Bracket? && k !in d.replaced
    && (forall x :: x in d.strays + d.pending ==> x < k)
    && (forall p :: p in d.pairs ==> p.1 < k)
  }

  ghost predicate Matches(d: Doc, k: nat, j: nat)
  {
    && DocOk(d) && IsNew(d, k) && d.tokens[k].kind == Closing
    && j < |d.pending| && Named(d, d.pending[j], d.tokens[k].name)
  }

  /** An increasing sequence stays so when cut short, and its elements stay below the one cut. */
  lemma IncreasingPrefix(s: seq<nat>, n: nat, bound: nat)
    requires Increasing(s, bound) && n < |s|
    ensures Increasing(s[..n], bound) && forall x :: x in s[..n] ==> x < s[n]
  {
  }

  lemma MatchTags(d: Doc, k: nat, j: nat)
    requires Matches(d, k, j)
    ensures TagsOk(Match(d, k, j))
  {
    var o := d.pending[j];
    var e := Match(d, k, j);
    var waiting := d.strays + d.pending;
    var left := e.strays + e.pending;
    assert left == waiting[..|d.strays| + j] && waiting[|d.strays| + j] == o;
    IncreasingPrefix(waiting, |d.strays| + j, |d.tokens|);
    forall s | s in e.strays
      ensures IsPaired(e, s, Closing)
    {
      assert IsPaired(d, s, Closing) && s in left && s in waiting;
    }
    forall p | p in e.pending
      ensures IsPaired(e, p, Opening)
    {
      assert p in d.pending && IsPaired(d, p, Opening) && p in left && p in waiting;
    }
    assert o in waiting;
  }

  /** A closing tag that finds its opening: the new pair crosses none of the old ones. */
  lemma MatchPairs(d: Doc, k: nat, j: nat)
    requires Matches(d, k, j)
    ensures PairsOk(Match(d, k, j))
  {
    var o := d.pending[j];
    var e := Match(d, k, j);
    var waiting := d.strays + d.pending;
    assert waiting[|d.strays| + j] == o && o in waiting && o in d.pending && IsPaired(d, o, Opening);
    forall p | p in e.pairs
      ensures PairOk(e, p)
    {
      assert p in d.pairs ==> PairOk(d, p);
    }
    forall i, m | 0 <= i < m < |e.pairs|
      ensures Nested(e.pairs[i], e.pairs[m])
    {
      assert d.pairs[i] in d.pairs && PairOk(d, d.pairs[i]);
      if m == |d.pairs| {
        assert o < d.pairs[i].0 || d.pairs[i].1 < o;
      }
    }
    forall p, x | p in e.pairs && x in e.pending
      ensures x < p.0 || p.1 < x
    {
      assert x in d.pending;
      var i :| 0 <= i < j && d.pending[i] == x;
      assert waiting[|d.strays| + i] == x;
    }
  }

  lemma MatchCovers(d: Doc, k: nat, j: nat)
    requires Matches(d, k, j)
    ensures AllReplacedPaired(Match(d, k, j))
  {
    var o := d.pending[j];
    var e := Match(d, k, j);
    assert e.pairs[|d.pairs|] == (o, k) && (o, k) in e.pairs;
    forall i | i in e.replaced && i < |e.tokens| && e.tokens[i].Bracket? && e.tokens[i].paired
      ensures exists p :: p in e.pairs && (p.0 == i || p.1 == i)
    {
      if i != o && i != k {
        var p :| p in d.pairs && (p.0 == i || p.1 == i);
        assert p in e.pairs;
      }
    }
  }

  lemma StrayKeeps(d: Doc, k: nat)
    requires DocOk(d) && IsNew(d, k) && d.tokens[k].paired && d.tokens[k].kind == Closing
    ensures DocOk(d.(strays := d.strays + [k], pending := []))
  {
    var e := d.(strays := d.strays + [k], pending := []);
    var waiting := d.strays + d.pending;
    assert e.strays + e.pending == waiting[..|d.strays|] + [k];
    forall i | 0 <= i < |d.strays|
      ensures d.strays[i] < k
    {
      assert waiting[i] == d.strays[i] && waiting[i] in waiting;
    }
    assert TagsOk(e);
  }

  lemma UnpairedKeeps(d: Doc, k: nat)
    requires DocOk(d) && IsNew(d, k) && !d.tokens[k].paired
    ensures DocOk(d.(replaced := d.replaced + {k}))
  {
    var e := d.(replaced := d.replaced + {k});
    var waiting := d.strays + d.pending;
    assert forall x :: x in d.strays || x in d.pending ==> x in waiting;
    forall p | p in e.pairs
      ensures PairOk(e, p)
    {
      assert PairOk(d, p);
    }
    assert TagsOk(e);
  }

  lemma PendingKeeps(d: Doc, k: nat)
    requires DocOk(d) && IsNew(d, k) && d.tokens[k].paired && d.tokens[k].kind == Opening
    ensures DocOk(d.(pending := d.pending + [k]))
  {
    var e := d.(pending := d.pending + [k]);
    var waiting := d.strays + d.pending;
    assert e.strays + e.pending == waiting + [k];
    forall i | 0 <= i < |waiting|
      ensures waiting[i] < k
    {
      assert waiting[i] in waiting;
    }
    assert TagsOk(e);
  }

  lemma SettleKeeps(d: Doc, k: nat)
    requires DocOk(d) && IsNew(d, k)
    ensures DocOk(Settle(d, k))
  {
    hide PairsOk, Increasing, Match;
    var t := d.tokens[k];
    if !t.paired {
      UnpairedKeeps(d, k);
    } else if t.kind == Opening {
      PendingKeeps(d, k);
    } else {
      var j := Innermost(d, t.name, |d.pending|);
      if j < |d.pending| {
        MatchTags(d, k, j);
        MatchPairs(d, k, j);
        MatchCovers(d, k, j);
      } else {
        StrayKeeps(d, k);
      }
    }
  }

  lemma NewToken(d: Doc, t: Token)
    requires DocOk(d) && t.Bracket?
    ensures IsNew(d.(tokens := d.tokens + [t]), |d.tokens|)
  {
    var waiting := d.strays + d.pending;
    forall x | x in waiting
      ensures x < |d.tokens|
    {
      var i :| 0 <= i < |waiting| && waiting[i] == x;
    }
    forall p | p in d.pairs
      ensures p.1 < |d.tokens|
    {
      assert PairOk(d, p);
    }
  }

  lemma StepKeeps(d: Doc, e: Event)
    requires DocOk(d) && WellFormed(e)
    ensures DocOk(Step(d, e))
  {
    var k := |d.tokens|;
    match e
    case Text(s) =>
      ShapeKeeps(d, d.tokens + [Plain(s)]);
    case Content(key, s) =>
      ShapeKeeps(d, Step(d, e).tokens);
    case TagFound(raw, name, kind, attr, paired) =>
      var g := d.(tokens := d.tokens + [Bracket(raw, name, kind, attr, paired)]);
      ShapeKeeps(d, g.tokens);
      assert IsNew(g, k) by { NewToken(d, g.tokens[k]); }
      SettleKeeps(g, k);
  }

  /**
   * After any run: every replaced paired tag belongs to a pair of an opening and a later closing
   * with the same name, the pairs never cross, and what waits is unmatched closings followed by
   * pending openings, in the order of the text.
   */
  lemma {:induction false} RunOk(events: seq<Event>)
    requires forall e :: e in events ==> WellFormed(e)
    ensures DocOk(Run(events))
  {
    if events != [] {
      RunOk(events[..|events| - 1]);
      StepKeeps(Run(events[..|events| - 1]), events[|events| - 1]);
    }
  }

  function Raw(e: Event): string
  {
    if e.TagFound? then e.raw else e.text
  }

  /** One event adds one token and changes no text and no bracket before it. */
  lemma StepAddsToken(d: Doc, e: Event)
    ensures |Step(d, e).tokens| == |d.tokens| + 1
    ensures forall i :: 0 <= i < |d.tokens| ==>
              Step(d, e).tokens[i].raw == d.tokens[i].raw && Step(d, e).tokens[i].Bracket? == d.tokens[i].Bracket?
    ensures Step(d, e).tokens[|d.tokens|].raw == Raw(e) && Step(d, e).tokens[|d.tokens|].Bracket? == e.TagFound?
  {
    hide Last, Innermost;
  }

  /** No text is lost or reordered: token i is exactly what event i brought. */
  lemma {:induction false} TokensAreInput(events: seq<Event>, i: nat)
    requires i < |events|
    ensures |Run(events).tokens| == |events| && Run(events).tokens[i].raw == Raw(events[i])
    ensures Run(events).tokens[i].Bracket? == events[i].TagFound?
  {
    hide Step, Raw;
    var n := |events| - 1;
    StepAddsToken(Run(events[..n]), events[n]);
    assert Run(events) == Step(Run(events[..n]), events[n]);
    if n > 0 {
      TokensAreInput(events[..n], if i < n then i else 0);
    } else {
      assert events[..n] == [];
    }
  }
}
