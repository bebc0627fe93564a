/**
 * What the matcher makes of stretches of input, in whatever run they stand: what an opening collects from the text
 * behind it, pairs that overlap, and a closing without an opening.
 */
module BbcodeRuns {
  import opened BbcodeSpec
  import opened BbcodeParser

  /** Going on from a document. */
  function RunFrom(d: Doc, events: seq<Event>): Doc
  {
    if events == [] then d else Step(RunFrom(d, events[..|events| - 1]), events[|events| - 1])
  }

  lemma {:induction false} RunAppend(before: seq<Event>, events: seq<Event>)
    ensures Run(before + events) == RunFrom(Run(before), events)
  {
    hide Step;
    if events == [] {
      assert before + events == before;
    } else {
      var n := |events| - 1;
      RunAppend(before, events[..n]);
      assert (before + events)[..|before| + n] == before + events[..n];
    }
  }

  /** Text, whether or not some of it extends an attribute. */
  predicate IsText(events: seq<Event>)
  {
    forall e :: e in events ==> !e.TagFound?
  }

  /** All the content found for a key, in order. */
  function Collected(events: seq<Event>, key: string): string
  {
    if events == [] then ""
    else
      var e := events[|events| - 1];
      Collected(events[..|events| - 1], key) + if e.Content? && e.key == key then e.text else ""
  }

  predicate HasContent(events: seq<Event>, key: string)
  {
    exists i :: 0 <= i < |events| && events[i].Content? && events[i].key == key
  }

  /** The attributes of a tag after the text behind it: only the one named like the tag can grow. */
  function Grown(attr: Attributes, name: string, events: seq<Event>): Attributes
  {
    if HasContent(events, name) then attr[name := (if name in attr then attr[name] else "") + Collected(events, name)]
    else attr
  }

  lemma HasContentSnoc(events: seq<Event>, e: Event, key: string)
    ensures HasContent(events + [e], key) <==> HasContent(events, key) || (e.Content? && e.key == key)
  {
    if HasContent(events, key) {
      var i :| 0 <= i < |events| && events[i].Content? && events[i].key == key;
      assert (events + [e])[i] == events[i];
    }
    if e.Content? && e.key == key {
      assert (events + [e])[|events|] == e;
    }
    if HasContent(events + [e], key) {
      var i :| 0 <= i < |events + [e]| && (events + [e])[i].Content? && (events + [e])[i].key == key;
      assert i < |events| ==> events[i] == (events + [e])[i];
    }
  }

  lemma NoContent(events: seq<Event>, key: string)
    ensures !HasContent(events, key) ==> Collected(events, key) == ""
  {
  }

  lemma CollectedSnoc(events: seq<Event>, e: Event, key: string)
    ensures Collected(events + [e], key)
         == Collected(events, key) + if e.Content? && e.key == key then e.text else ""
  {
    assert (events + [e])[..|events|] == events;
  }

  lemma Associate(a: string, b: string, c: string)
    ensures a + (b + c) == (a + b) + c && a + "" == a && "" + a == a
  {
  }

  /** One more event of text behind a tag. */
  lemma GrownSnoc(attr: Attributes, name: string, events: seq<Event>, e: Event)
    requires !e.TagFound?
    ensures Grown(attr, name, events + [e])
         == if e.Content? && e.key == name then Extend(Grown(attr, name, events), name, e.text)
            else Grown(attr, name, events)
  {
    hide HasContent, Collected;
    HasContentSnoc(events, e, name);
    CollectedSnoc(events, e, name);
    NoContent(events, name);
    var was := if name in attr then attr[name] else "";
    Associate(was, Collected(events, name), if e.Content? && e.key == name then e.text else "");
    Associate(Collected(events, name), was, "");
    Associate(e.text, "", "");
    Associate(was, "", "");
  }

  /** Text behind a pending opening changes no other tag and only the attribute of that opening. */
  lemma {:induction false} TextBehind(d: Doc, events: seq<Event>)
    requires IsText(events) && d.pending != [] && d.pending[|d.pending| - 1] < |d.tokens|
    requires d.tokens[d.pending[|d.pending| - 1]].Bracket?
    ensures var k := d.pending[|d.pending| - 1];
            var t := d.tokens[k];
            var e := RunFrom(d, events);
            && e == d.(tokens := e.tokens) && |e.tokens| == |d.tokens| + |events|
            && e.tokens[k] == t.(attr := Grown(t.attr, t.name, events))
            && (forall i :: 0 <= i < |d.tokens| && i != k ==> e.tokens[i] == d.tokens[i])
            && (forall i :: 0 <= i < |events| ==> e.tokens[|d.tokens| + i] == Plain(events[i].text))
  {
    hide HasContent, Collected, Extend;
    if events != [] {
      var n := |events| - 1;
      TextBehind(d, events[..n]);
      assert events[..n] + [events[n]] == events;
      var t := d.tokens[d.pending[|d.pending| - 1]];
      GrownSnoc(t.attr, t.name, events[..n], events[n]);
      hide Grown;
    } else {
      NothingGrown(d.tokens[d.pending[|d.pending| - 1]]);
    }
  }

  lemma NothingGrown(t: Token)
    requires t.Bracket?
    ensures t.(attr := Grown(t.attr, t.name, [])) == t
  {
  }

  /** What the opening of a pair holds while text follows it, in whatever run it stands. */
  lemma AttributeCollected(before: seq<Event>, o: Event, text: seq<Event>)
    requires o.TagFound? && o.paired && o.kind == Opening && IsText(text)
    ensures var d, k, e := Run(before), |Run(before).tokens|, Run(before + [o] + text);
            && e == d.(tokens := e.tokens, pending := d.pending + [k]) && |e.tokens| == k + 1 + |text|
            && e.tokens[k] == Bracket(o.raw, o.name, Opening, Grown(o.attr, o.name, text), true)
            && (forall i :: 0 <= i < k ==> e.tokens[i] == d.tokens[i])
            && (forall i :: 0 <= i < |text| ==> e.tokens[k + 1 + i] == Plain(text[i].text))
  {
    hide Grown, Run, RunFrom, Step, IsText;
    RunAppend(before + [o], text);
    OneMore(before, o);
    OpenStep(Run(before), o);
    TextBehind(Run(before + [o]), text);
  }

  lemma OneMore(before: seq<Event>, e: Event)
    ensures Run(before + [e]) == Step(Run(before), e)
  {
    hide Step;
    assert (before + [e])[..|before|] == before;
  }

  /** A closing tag right behind the text of a pending opening of its name. */
  lemma CloseLast(d: Doc, c: Event)
    requires c.TagFound? && c.paired && c.kind == Closing
    requires d.pending != [] && Named(d, d.pending[|d.pending| - 1], c.name)
    ensures var o, k := d.pending[|d.pending| - 1], |d.tokens|;
            Step(d, c) == Doc(d.tokens + [Bracket(c.raw, c.name, Closing, c.attr, true)], d.replaced + {o, k},
                              d.strays, d.pending[..|d.pending| - 1], d.pairs + [(o, k)])
  {
    var h := d.(tokens := d.tokens + [Bracket(c.raw, c.name, Closing, c.attr, true)]);
    assert Named(h, h.pending[|h.pending| - 1], c.name);
    assert Innermost(h, c.name, |h.pending|) == |h.pending| - 1;
  }

  /** Content whose key is not the name of the last waiting tag changes no attribute. */
  lemma OtherContent(before: seq<Event>, key: string, s: string)
    requires var d := Run(before);
             var waiting := d.strays + d.pending;
             waiting == [] || !Named(d, waiting[|waiting| - 1], key)
    ensures var d := Run(before); Run(before + [Content(key, s)]) == d.(tokens := d.tokens + [Plain(s)])
  {
    hide Run;
    OneMore(before, Content(key, s));
  }

  /** No opening of that name is pending. */
  predicate NonePending(d: Doc, name: string)
  {
    forall j :: 0 <= j < |d.pending| ==> !Named(d, d.pending[j], name)
  }

  lemma StrayStep(d: Doc, c: Event)
    requires c.TagFound? && c.paired && c.kind == Closing && NonePending(d, c.name)
    requires forall p :: p in d.pending ==> p < |d.tokens|
    ensures Step(d, c) == Doc(d.tokens + [Bracket(c.raw, c.name, Closing, c.attr, true)], d.replaced,
                              d.strays + [|d.tokens|], [], d.pairs)
  {
    var h := d.(tokens := d.tokens + [Bracket(c.raw, c.name, Closing, c.attr, true)]);
    var j := Innermost(h, c.name, |h.pending|);
    if j < |h.pending| {
      assert h.pending[j] in d.pending && Named(d, d.pending[j], c.name);
    }
  }

  lemma PendingBelow(events: seq<Event>)
    requires forall e :: e in events ==> WellFormed(e)
    ensures forall p :: p in Run(events).pending ==> p < |Run(events).tokens|
    ensures forall i :: i in Run(events).replaced ==> i < |Run(events).tokens|
  {
    hide Run;
    RunOk(events);
    var d := Run(events);
    forall p | p in d.pending
      ensures p < |d.tokens|
    {
      assert IsPaired(d, p, Opening);
    }
  }

  /** A closing tag without an opening stays as it is, and so does every closing of an opening before it. */
  lemma StrayShown(f: Schema, before: seq<Event>, c: Event, x: Event)
    requires c.TagFound? && c.paired && c.kind == Closing && x.TagFound? && x.paired && x.kind == Closing
    requires (forall e :: e in before ==> WellFormed(e)) && NonePending(Run(before), c.name)
    ensures Output(f, Run(before + [c] + [x])) == Output(f, Run(before)) + c.raw + x.raw
  {
    hide Run, Render, Innermost, Step, DocOk;
    PendingBelow(before);
    OneMore(before, c);
    OneMore(before + [c], x);
    var d, k := Run(before), |Run(before).tokens|;
    StrayStep(d, c);
    StrayStep(Run(before + [c]), x);
    var g := Run(before + [c] + [x]);
    RenderAgree(f, d, g, k);
    RenderNext(f, g, k);
    RenderNext(f, g, k + 1);
  }

  /** Two pairs that overlap: both openings before both closings, and the outer one closed first. */
  predicate Overlapping(a: Event, b: Event, x: Event, y: Event)
  {
    && a.TagFound? && b.TagFound? && x.TagFound? && y.TagFound?
    && a.paired && b.paired && x.paired && y.paired
    && a.kind == Opening && b.kind == Opening && x.kind == Closing && y.kind == Closing
    && a.name == x.name != b.name == y.name
  }

  lemma OverlapDoc(before: seq<Event>, a: Event, b: Event, x: Event, y: Event)
    requires Overlapping(a, b, x, y)
    requires (forall e :: e in before ==> WellFormed(e)) && NonePending(Run(before), b.name)
    ensures var d, k, g := Run(before), |Run(before).tokens|, Run(before + [a] + [b] + [x] + [y]);
            && g.replaced == d.replaced + {k, k + 2}
            && g.tokens == d.tokens + [Bracket(a.raw, a.name, Opening, a.attr, true)]
                           + [Bracket(b.raw, b.name, Opening, b.attr, true)]
                           + [Bracket(x.raw, x.name, Closing, x.attr, true)]
                           + [Bracket(y.raw, y.name, Closing, y.attr, true)]
  {
    hide Run, Innermost, Step, DocOk;
    PendingBelow(before);
    OneMore(before, a);
    OneMore(before + [a], b);
    OneMore(before + [a] + [b], x);
    OneMore(before + [a] + [b] + [x], y);
    var d := Run(before);
    OpenStep(d, a);
    OpenStep(Run(before + [a]), b);
    CloseUnder(Run(before + [a] + [b]), x);
    var h := Run(before + [a] + [b] + [x]);
    assert h.pending == d.pending;
    NoneStillPending(d, h, y.name);
    StrayStep(h, y);
  }

  /** Of two pairs that overlap the one that closes first is replaced; the other stays as it is. */
  lemma OverlapShown(f: Schema, before: seq<Event>, a: Event, b: Event, x: Event, y: Event)
    requires Overlapping(a, b, x, y)
    requires (forall e :: e in before ==> WellFormed(e)) && NonePending(Run(before), b.name)
    ensures Output(f, Run(before + [a] + [b] + [x] + [y]))
         == Output(f, Run(before)) + f(a.name, Opening, a.attr) + b.raw + f(x.name, Closing, x.attr) + y.raw
  {
    hide Run, Render, DocOk, WellFormed;
    PendingBelow(before);
    OverlapDoc(before, a, b, x, y);
    var d, k := Run(before), |Run(before).tokens|;
    var g := Run(before + [a] + [b] + [x] + [y]);
    RenderAgree(f, d, g, k);
    RenderNext(f, g, k);
    RenderNext(f, g, k + 1);
    RenderNext(f, g, k + 2);
    RenderNext(f, g, k + 3);
  }

  lemma NoneStillPending(d: Doc, h: Doc, name: string)
    requires NonePending(d, name) && h.pending == d.pending && d.tokens <= h.tokens
    requires forall p :: p in d.pending ==> p < |d.tokens|
    ensures NonePending(h, name)
  {
    forall j | 0 <= j < |h.pending|
      ensures !Named(h, h.pending[j], name)
    {
      assert d.pending[j] in d.pending && !Named(d, d.pending[j], name);
      assert h.tokens[d.pending[j]] == d.tokens[d.pending[j]];
    }
  }

  lemma OpenStep(d: Doc, o: Event)
    requires o.TagFound? && o.paired && o.kind == Opening
    ensures Step(d, o) == d.(tokens := d.tokens + [Bracket(o.raw, o.name, Opening, o.attr, true)],
                             pending := d.pending + [|d.tokens|])
  {
  }

  /** A closing tag of the last but one pending opening. */
  lemma CloseUnder(d: Doc, c: Event)
    requires c.TagFound? && c.paired && c.kind == Closing && |d.pending| >= 2
    requires d.pending[|d.pending| - 1] < |d.tokens| && !Named(d, d.pending[|d.pending| - 1], c.name)
    requires Named(d, d.pending[|d.pending| - 2], c.name)
    ensures var n, k := |d.pending| - 2, |d.tokens|;
            Step(d, c) == Doc(d.tokens + [Bracket(c.raw, c.name, Closing, c.attr, true)],
                              d.replaced + {d.pending[n], k}, d.strays, d.pending[..n], d.pairs + [(d.pending[n], k)])
  {
    var h := d.(tokens := d.tokens + [Bracket(c.raw, c.name, Closing, c.attr, true)]);
    var n := |d.pending| - 2;
    assert Innermost(h, c.name, n + 2) == Innermost(h, c.name, n + 1) == n;
  }
}
