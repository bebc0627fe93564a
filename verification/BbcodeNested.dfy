/**
 * Well-nested input. For every piece of text whose tags are all paired inside one another, the matcher with its
 * waiting tags shows what a renderer that follows the nesting would, in whatever run the piece stands.
 */
module BbcodeNested {
  import opened BbcodeSpec
  import opened BbcodeParser
  import opened BbcodeRuns

  /** Nothing, or a nested piece followed by a text or a single tag, or by a pair around a nested piece. */
  datatype Nested =
    | Empty
    | Leaf(front: Nested, e: Event)
    | Pair(front: Nested, o: Event, inside: Nested, c: Event)

  predicate IsOk(t: Nested)
  {
    match t
    case Empty => true
    case Leaf(front, e) => IsOk(front) && WellFormed(e) && (e.TagFound? ==> !e.paired)
    case Pair(front, o, inside, c) =>
      && IsOk(front) && IsOk(inside) && WellFormed(o) && WellFormed(c)
      && o.TagFound? && o.paired && o.kind == Opening
      && c.TagFound? && c.paired && c.kind == Closing && c.name == o.name
  }

  function Events(t: Nested): seq<Event>
  {
    match t
    case Empty => []
    case Leaf(front, e) => Events(front) + [e]
    case Pair(front, o, inside, c) => Events(front) + [o] + Events(inside) + [c]
  }

  /** The text that stands in the piece itself and not inside one of its pairs. */
  function Direct(t: Nested): seq<Event>
  {
    match t
    case Empty => []
    case Leaf(front, e) => if e.TagFound? then Direct(front) else Direct(front) + [e]
    case Pair(front, o, inside, c) => Direct(front)
  }

  /** Every tag replaced, an opening with what the text directly inside its pair adds to its attributes. */
  function Show(f: Schema, t: Nested): string
    requires IsOk(t)
  {
    match t
    case Empty => ""
    case Leaf(front, e) => Show(f, front) + if e.TagFound? then f(e.name, e.kind, e.attr) else e.text
    case Pair(front, o, inside, c) =>
      Show(f, front) + f(o.name, Opening, Grown(o.attr, o.name, Direct(inside))) + Show(f, inside)
      + f(c.name, Closing, c.attr)
  }

  /** The rendering of tokens a to b. */
  function Between(f: Schema, d: Doc, a: nat, b: nat): string
    requires a <= b <= |d.tokens|
  {
    if a == b then "" else Between(f, d, a, b - 1) + Shown(f, d, b - 1)
  }

  /** What text behind it makes of token i: the last waiting tag can grow. */
  function Later(d: Doc, i: nat, text: seq<Event>): Token
    requires i < |d.tokens|
  {
    var t := d.tokens[i];
    if i == Last(d) && t.Bracket? then t.(attr := Grown(t.attr, t.name, text)) else t
  }

  /** The document e after the piece t, from the document d. */
  ghost predicate Follows(f: Schema, d: Doc, e: Doc, t: Nested)
    requires IsOk(t)
  {
    && e.pending == d.pending && e.strays == d.strays && |d.tokens| <= |e.tokens|
    && (forall i :: 0 <= i < |d.tokens| ==> (i in e.replaced <==> i in d.replaced))
    && (forall i :: 0 <= i < |d.tokens| ==> e.tokens[i] == Later(d, i, Direct(t)))
    && Between(f, e, |d.tokens|, |e.tokens|) == Show(f, t)
  }

  lemma FollowsEmpty(f: Schema, d: Doc)
    ensures Follows(f, d, d, Empty)
  {
    forall i | 0 <= i < |d.tokens|
      ensures d.tokens[i] == Later(d, i, [])
    {
      if d.tokens[i].Bracket? { NothingGrown(d.tokens[i]); }
    }
  }

  lemma {:induction false} BetweenAgree(f: Schema, d: Doc, e: Doc, a: nat, b: nat)
    requires a <= b <= |d.tokens| && b <= |e.tokens|
    requires forall i :: a <= i < b ==> Shown(f, d, i) == Shown(f, e, i)
    ensures Between(f, d, a, b) == Between(f, e, a, b)
  {
    hide Shown;
    if a < b {
      BetweenAgree(f, d, e, a, b - 1);
    }
  }

  lemma {:induction false} BetweenSplit(f: Schema, d: Doc, a: nat, m: nat, b: nat)
    requires a <= m <= b <= |d.tokens|
    ensures Between(f, d, a, b) == Between(f, d, a, m) + Between(f, d, m, b)
  {
    hide Shown;
    if m < b {
      BetweenSplit(f, d, a, m, b - 1);
      Associate(Between(f, d, a, m), Between(f, d, m, b - 1), Shown(f, d, b - 1));
    } else {
      Associate(Between(f, d, a, m), "", "");
    }
  }

  lemma {:induction false} RenderBetween(f: Schema, d: Doc, a: nat, b: nat)
    requires a <= b <= |d.tokens|
    ensures Render(f, d, b) == Render(f, d, a) + Between(f, d, a, b)
  {
    hide Shown;
    if a < b {
      RenderBetween(f, d, a, b - 1);
      Associate(Render(f, d, a), Between(f, d, a, b - 1), Shown(f, d, b - 1));
    } else {
      Associate(Render(f, d, a), "", "");
    }
  }

  /** The waiting tags are recorded tokens that are not replaced. */
  lemma LastWaits(d: Doc)
    requires DocOk(d)
    ensures d.strays + d.pending != [] ==> Last(d) < |d.tokens|
    ensures Last(d) < |d.tokens| ==> d.tokens[Last(d)].Bracket? && Last(d) !in d.replaced
    ensures forall p :: p in d.pending ==> p < |d.tokens| && d.tokens[p].Bracket? && p !in d.replaced
    ensures |d.tokens| !in d.replaced
  {
    hide PairsOk, AllReplacedPaired;
    var waiting := d.strays + d.pending;
    if waiting != [] {
      assert waiting[|waiting| - 1] in waiting;
    }
    forall p | p in d.pending
      ensures IsPaired(d, p, Opening)
    {
    }
    forall p | p in d.strays
      ensures IsPaired(d, p, Closing)
    {
    }
  }

  /** The last waiting tag stays the last one, and nothing counts as it where there is none. */
  lemma SameLast(d: Doc, g: Doc)
    requires DocOk(d) && g.pending == d.pending && g.strays == d.strays && |d.tokens| <= |g.tokens|
    ensures if d.strays + d.pending != [] then Last(g) == Last(d) < |d.tokens|
            else Last(d) == |d.tokens| && Last(g) == |g.tokens|
  {
    hide DocOk;
    LastWaits(d);
  }

  /** What one more event does to the tokens that were there before the piece. */
  lemma LaterSnoc(d: Doc, i: nat, text: seq<Event>, e: Event)
    requires i < |d.tokens| && !e.TagFound?
    ensures var t := Later(d, i, text);
            Later(d, i, text + [e])
            == if i == Last(d) && t.Bracket? && e.Content? && e.key == t.name then
                 t.(attr := Extend(t.attr, t.name, e.text))
               else t
  {
    hide Grown, Last;
    if d.tokens[i].Bracket? { GrownSnoc(d.tokens[i].attr, d.tokens[i].name, text, e); }
  }

  lemma LeafTokens(f: Schema, d: Doc, g: Doc, front: Nested, e: Event)
    requires DocOk(d) && IsOk(Leaf(front, e)) && Follows(f, d, g, front)
    ensures var s := Step(g, e);
            && s.pending == d.pending && s.strays == d.strays && |s.tokens| == |g.tokens| + 1
            && (forall i :: 0 <= i < |d.tokens| ==> (i in s.replaced <==> i in d.replaced))
            && (forall i :: 0 <= i < |d.tokens| ==> s.tokens[i] == Later(d, i, Direct(Leaf(front, e))))
            && (forall i :: |d.tokens| <= i < |g.tokens| ==> Shown(f, s, i) == Shown(f, g, i))
            && Shown(f, s, |g.tokens|) == if e.TagFound? then f(e.name, e.kind, e.attr) else e.text
  {
    SameLast(d, g);
    hide DocOk, Grown, Between, Innermost, Show;
    if !e.TagFound? {
      forall i | 0 <= i < |d.tokens|
        ensures Step(g, e).tokens[i] == Later(d, i, Direct(front) + [e])
      {
        LaterSnoc(d, i, Direct(front), e);
      }
    }
  }

  lemma FollowsLeaf(f: Schema, d: Doc, g: Doc, front: Nested, e: Event)
    requires DocOk(d) && IsOk(Leaf(front, e)) && Follows(f, d, g, front)
    ensures Follows(f, d, Step(g, e), Leaf(front, e))
  {
    hide DocOk, Step, Shown, Later, Direct;
    LeafTokens(f, d, g, front, e);
    BetweenAgree(f, Step(g, e), g, |d.tokens|, |g.tokens|);
  }

  /** The closing of a pair: the opening is token k of the document g before it. */
  lemma PairClosed(f: Schema, d: Doc, h: Doc, g: Doc, t: Nested)
    requires t.Pair? && IsOk(t) && DocOk(d) && Follows(f, d, h, t.front)
    requires |h.tokens| !in h.replaced && DocOk(Step(h, t.o)) && Follows(f, Step(h, t.o), g, t.inside)
    ensures var e, k, m := Step(g, t.c), |h.tokens|, |g.tokens|;
            && e.pending == d.pending && e.strays == d.strays && k < m && |e.tokens| == m + 1
            && e.replaced == g.replaced + {k, m}
            && (forall i :: 0 <= i < m ==> e.tokens[i] == g.tokens[i])
            && e.tokens[m] == Bracket(t.c.raw, t.c.name, Closing, t.c.attr, true)
            && e.tokens[k] == Bracket(t.o.raw, t.o.name, Opening, Grown(t.o.attr, t.o.name, Direct(t.inside)), true)
            && (forall i :: 0 <= i < k ==> e.tokens[i] == h.tokens[i])
            && (forall i :: 0 <= i < k ==> (i in g.replaced <==> i in h.replaced))
  {
    hide DocOk, Grown, Between, Show, Direct;
    OpenStep(h, t.o);
    var d2, k := Step(h, t.o), |h.tokens|;
    hide Step;
    assert Last(d2) == k;
    assert g.tokens[k] == Later(d2, k, Direct(t.inside));
    CloseLast(g, t.c);
    forall i | 0 <= i < k
      ensures g.tokens[i] == h.tokens[i]
    {
      assert g.tokens[i] == Later(d2, i, Direct(t.inside));
    }
  }

  lemma PairLooks(f: Schema, d: Doc, h: Doc, g: Doc, t: Nested)
    requires t.Pair? && IsOk(t) && DocOk(d) && Follows(f, d, h, t.front)
    requires |h.tokens| !in h.replaced && DocOk(Step(h, t.o)) && Follows(f, Step(h, t.o), g, t.inside)
    ensures var e, k, m := Step(g, t.c), |h.tokens|, |g.tokens|;
            && k < m && |e.tokens| == m + 1
            && (forall i :: 0 <= i < k ==> Shown(f, e, i) == Shown(f, h, i))
            && (forall i :: k < i < m ==> Shown(f, e, i) == Shown(f, g, i))
            && Shown(f, e, k) == f(t.o.name, Opening, Grown(t.o.attr, t.o.name, Direct(t.inside)))
            && Shown(f, e, m) == f(t.c.name, Closing, t.c.attr)
  {
    hide DocOk, Step, Later, Direct, Grown, Last, Follows, Between, Show;
    PairClosed(f, d, h, g, t);
    hide IsOk;
  }

  lemma PairShows(f: Schema, d: Doc, h: Doc, g: Doc, t: Nested)
    requires t.Pair? && IsOk(t) && DocOk(d) && Follows(f, d, h, t.front)
    requires |h.tokens| !in h.replaced && DocOk(Step(h, t.o)) && Follows(f, Step(h, t.o), g, t.inside)
    ensures var e := Step(g, t.c);
            |d.tokens| <= |e.tokens| && Between(f, e, |d.tokens|, |e.tokens|) == Show(f, t)
  {
    hide DocOk, Step, Later, Direct, Grown, Last, Shown, Between;
    PairLooks(f, d, h, g, t);
    OpenStep(h, t.o);
    var e, k, m := Step(g, t.c), |h.tokens|, |g.tokens|;
    PairBetween(f, e, |d.tokens|, k, m);
    BetweenAgree(f, e, h, |d.tokens|, k);
    BetweenAgree(f, e, g, k + 1, m);
  }

  lemma FollowsPair(f: Schema, d: Doc, h: Doc, g: Doc, t: Nested)
    requires t.Pair? && IsOk(t) && DocOk(d) && Follows(f, d, h, t.front)
    requires |h.tokens| !in h.replaced && DocOk(Step(h, t.o)) && Follows(f, Step(h, t.o), g, t.inside)
    ensures Follows(f, d, Step(g, t.c), t)
  {
    assert Direct(t) == Direct(t.front);
    hide DocOk, Step, Later, Direct, Grown, Last, Shown, Between, Show;
    PairShows(f, d, h, g, t);
    PairClosed(f, d, h, g, t);
  }

  lemma PairBetween(f: Schema, e: Doc, a: nat, k: nat, m: nat)
    requires a <= k < m && |e.tokens| == m + 1
    ensures Between(f, e, a, m + 1)
         == Between(f, e, a, k) + Shown(f, e, k) + Between(f, e, k + 1, m) + Shown(f, e, m)
  {
    hide Shown;
    assert Between(f, e, a, k + 1) == Between(f, e, a, k) + Shown(f, e, k);
    BetweenSplit(f, e, a, k + 1, m);
  }

  lemma {:induction false} RunFromAppend(d: Doc, x: seq<Event>, y: seq<Event>)
    ensures RunFrom(d, x + y) == RunFrom(RunFrom(d, x), y)
  {
    hide Step;
    if y == [] {
      assert x + y == x;
    } else {
      var n := |y| - 1;
      RunFromAppend(d, x, y[..n]);
      assert (x + y)[..|x| + n] == x + y[..n];
    }
  }

  lemma FromOne(d: Doc, e: Event)
    ensures RunFrom(d, [e]) == Step(d, e) && RunFrom(d, []) == d
  {
    hide Step;
    assert [e][..0] == [];
  }

  /** The piece leads from any sound document to a sound one that follows it. */
  lemma {:induction false} Leads(f: Schema, d: Doc, t: Nested)
    requires DocOk(d) && IsOk(t)
    ensures DocOk(RunFrom(d, Events(t))) && Follows(f, d, RunFrom(d, Events(t)), t)
    decreases t
  {
    hide DocOk, Follows, Step, RunFrom, WellFormed;
    match t
    case Empty =>
      FollowsEmpty(f, d);
      FromOne(d, Text(""));
    case Leaf(front, e) =>
      Leads(f, d, front);
      var g := RunFrom(d, Events(front));
      FollowsLeaf(f, d, g, front, e);
      StepKeeps(g, e);
      RunFromAppend(d, Events(front), [e]);
      FromOne(g, e);
    case Pair(front, o, inside, c) =>
      Leads(f, d, front);
      var h := RunFrom(d, Events(front));
      LastWaits(h);
      StepKeeps(h, o);
      Leads(f, Step(h, o), inside);
      var g := RunFrom(Step(h, o), Events(inside));
      FollowsPair(f, d, h, g, t);
      StepKeeps(g, c);
      PairRun(d, t);
  }

  lemma PairRun(d: Doc, t: Nested)
    requires t.Pair?
    ensures RunFrom(d, Events(t)) == Step(RunFrom(Step(RunFrom(d, Events(t.front)), t.o), Events(t.inside)), t.c)
  {
    hide Step, RunFrom;
    var x, y := Events(t.front), Events(t.inside);
    assert Events(t) == x + [t.o] + y + [t.c];
    RunFromAppend(d, x + [t.o] + y, [t.c]);
    RunFromAppend(d, x + [t.o], y);
    RunFromAppend(d, x, [t.o]);
    FromOne(RunFrom(d, x), t.o);
    FromOne(RunFrom(Step(RunFrom(d, x), t.o), y), t.c);
  }

  /**
   * In whatever run a well-nested piece stands, what it adds to the output is its rendering, tag by tag along the
   * nesting, and the tags that wait stay the same.
   */
  lemma NestedShown(f: Schema, before: seq<Event>, t: Nested)
    requires (forall e :: e in before ==> WellFormed(e)) && IsOk(t)
    ensures var d := Run(before + Events(t));
            && Output(f, d) == Output(f, Run(before)) + Show(f, t)
            && d.pending == Run(before).pending && d.strays == Run(before).strays
  {
    hide DocOk, WellFormed, Run, RunFrom, Events;
    RunOk(before);
    RunAppend(before, Events(t));
    Leads(f, Run(before), t);
    var d, e := Run(before), Run(before + Events(t));
    NotReplaced(f, d, e, t);
    RenderAgree(f, d, e, |d.tokens|);
    RenderBetween(f, e, |d.tokens|, |e.tokens|);
  }

  /** In particular a well-nested document is rendered along its nesting. */
  lemma NestedDocument(f: Schema, t: Nested)
    requires IsOk(t)
    ensures Output(f, Run(Events(t))) == Show(f, t)
  {
    hide Events, Show, Step;
    NestedShown(f, [], t);
    assert [] + Events(t) == Events(t);
    assert Output(f, Run([])) == "";
    Associate(Show(f, t), "", "");
  }

  lemma NotReplaced(f: Schema, d: Doc, e: Doc, t: Nested)
    requires DocOk(d) && IsOk(t) && Follows(f, d, e, t)
    ensures SameShown(f, d, e, |d.tokens|)
  {
    LastWaits(d);
    hide DocOk, Last, Grown, Direct, Show, Between;
    forall i | 0 <= i < |d.tokens|
      ensures Shown(f, d, i) == Shown(f, e, i)
    {
      assert e.tokens[i] == Later(d, i, Direct(t));
    }
  }
}
