/** What the events of a parsed pattern add up to: the pattern's text, and properly nested parts. */
module MessageEvents {
  import opened Basics
  import opened MessageGrammar

  // ---------- the text ----------

  lemma Assoc<T>(a: seq<T>, b: seq<T>, c: seq<T>)
    ensures (a + b) + c == a + (b + c)
  {
  }

  function TextOf(events: seq<Event>): Text {
    if events == [] then [] else events[0].text + TextOf(events[1..])
  }

  lemma {:induction false} TextOfConcat(a: seq<Event>, b: seq<Event>)
    ensures TextOf(a + b) == TextOf(a) + TextOf(b)
  {
    if a == [] {
      assert a + b == b;
    } else {
      TextOfConcat(a[1..], b);
      assert (a + b)[1..] == a[1..] + b;
      assert (a + b)[0] == a[0];
      Assoc(a[0].text, TextOf(a[1..]), TextOf(b));
    }
  }

  lemma TextOfOne(e: Event)
    ensures TextOf([e]) == e.text
  {
    assert [e][1..] == [];
  }

  /** Every part starts inside its event's text or at its end. */
  predicate InText(events: seq<Event>) {
    forall i :: 0 <= i < |events| ==> events[i].at <= |events[i].text|
  }

  // ---------- results ----------

  lemma PrependTwice(a: seq<Event>, b: seq<Event>, p: Parsed)
    ensures Prepend(a, Prepend(b, p)) == Prepend(a + b, p)
  {
    if p.Ok? {
      Assoc(a, b, p.events);
    }
  }

  function Longer(k: int, r: Style): Style {
    if r.Style? && k + r.length >= 0 then Style(k + r.length) else r
  }

  // ---------- words ----------

  lemma {:induction false} AllPrefix(p: int -> bool, a: Text, s: Text)
    requires (forall i :: 0 <= i < |a| ==> p(a[i])) && (s == [] || !p(s[0]))
    ensures PrefixLength(p, a + s) == |a|
    decreases |a|
  {
    if a == [] {
      assert a + s == s;
    } else {
      assert (a + s)[1..] == a[1..] + s;
      AllPrefix(p, a[1..], s);
    }
  }

  // ---------- the parts ----------

  function MarkOf(e: Event): seq<Mark> {
    if e.mark.Some? then [e.mark.value] else []
  }

  function Marks(events: seq<Event>): seq<Mark> {
    if events == [] then [] else Marks(events[..|events| - 1]) + MarkOf(events[|events| - 1])
  }

  lemma {:induction false} MarksCount(events: seq<Event>)
    ensures |Marks(events)| == PartCount(events)
  {
    if events != [] {
      MarksCount(events[..|events| - 1]);
    }
  }

  lemma {:induction false} MarksConcat(a: seq<Event>, b: seq<Event>)
    ensures Marks(a + b) == Marks(a) + Marks(b)
  {
    if b == [] {
      assert a + b == a;
    } else {
      var n := |b| - 1;
      assert (a + b)[..|a + b| - 1] == a + b[..n];
      MarksConcat(a, b[..n]);
    }
  }

  lemma MarksOfOne(e: Event)
    ensures Marks([e]) == MarkOf(e)
  {
    assert [e][..0] == [];
  }

  predicate IsStart(m: Mark) {
    m.kind == MSG_START || m.kind == ARG_START
  }

  predicate IsLimit(m: Mark) {
    m.kind == MSG_LIMIT || m.kind == ARG_LIMIT
  }

  /** A limit part ends a message of the same level or an argument of the same type. */
  predicate AreMatched(a: Mark, b: Mark) {
    && ((a.kind == MSG_START && b.kind == MSG_LIMIT) || (a.kind == ARG_START && b.kind == ARG_LIMIT))
    && a.value == b.value
  }

  ghost predicate StartIsNested(ms: seq<Mark>, j: nat)
    requires j < |ms|
  {
    if IsStart(ms[j]) then
      var l := j + ms[j].span;
      && j < l < |ms| && AreMatched(ms[j], ms[l])
      && forall k :: j < k < l && IsStart(ms[k]) ==> k + ms[k].span < l
    else ms[j].span == 0
  }

  ghost predicate LimitHasStart(ms: seq<Mark>, l: nat)
    requires l < |ms|
  {
    IsLimit(ms[l]) ==> exists j :: 0 <= j < l && IsStart(ms[j]) && j + ms[j].span == l
  }

  /** Every start has its limit, everything between is nested inside, and there are no other limits. */
  ghost predicate IsNested(ms: seq<Mark>) {
    forall j :: 0 <= j < |ms| ==> StartIsNested(ms, j) && LimitHasStart(ms, j)
  }

  lemma NestedConcat(a: seq<Mark>, b: seq<Mark>)
    requires IsNested(a) && IsNested(b)
    ensures IsNested(a + b)
  {
    var ms := a + b;
    forall j | 0 <= j < |ms| ensures StartIsNested(ms, j) && LimitHasStart(ms, j) {
      if j < |a| {
        assert StartIsNested(a, j) && LimitHasStart(a, j);
        if IsLimit(ms[j]) {
          var i :| 0 <= i < j && IsStart(a[i]) && i + a[i].span == j;
          assert ms[i] == a[i];
        }
      } else {
        var j' := j - |a|;
        assert StartIsNested(b, j') && LimitHasStart(b, j');
        assert forall k :: |a| <= k < |ms| ==> ms[k] == b[k - |a|];
        if IsLimit(ms[j]) {
          var i :| 0 <= i < j' && IsStart(b[i]) && i + b[i].span == j';
          assert ms[i + |a|] == b[i];
        }
      }
    }
  }

  lemma NestedWrap(a: Mark, inner: seq<Mark>, b: Mark)
    requires IsNested(inner) && AreMatched(a, b) && a.span == |inner| + 1 && b.span == 0
    ensures IsNested([a] + inner + [b])
  {
    var ms := [a] + inner + [b];
    var last := |inner| + 1;
    assert forall k :: 1 <= k < last ==> ms[k] == inner[k - 1];
    forall j | 0 <= j < |ms| ensures StartIsNested(ms, j) && LimitHasStart(ms, j) {
      if 0 < j < last {
        assert StartIsNested(inner, j - 1) && LimitHasStart(inner, j - 1);
        if IsLimit(ms[j]) {
          var i :| 0 <= i < j - 1 && IsStart(inner[i]) && i + inner[i].span == j - 1;
          assert ms[i + 1] == inner[i];
        }
      } else if j == 0 {
        forall k | 0 < k < last && IsStart(ms[k]) ensures k + ms[k].span < last {
          assert StartIsNested(inner, k - 1);
        }
      } else {
        assert IsStart(ms[0]) && 0 + ms[0].span == j;
      }
    }
  }

  lemma SimpleIsNested(m: Mark)
    requires m.span == 0 && !IsStart(m) && !IsLimit(m)
    ensures IsNested([m]) && IsNested([])
  {
  }

  // ---------- what every parsing function yields ----------

  /** The events spell out what was read, and their parts are nested. */
  ghost predicate IsSound(s: Text, events: seq<Event>, rest: Text) {
    TextOf(events) + rest == s && InText(events) && IsNested(Marks(events))
  }

  lemma SoundConcat(s: Text, a: seq<Event>, t: Text, b: seq<Event>, rest: Text)
    requires IsSound(s, a, t) && IsSound(t, b, rest)
    ensures IsSound(s, a + b, rest)
  {
    hide TextOf, Marks, IsNested;
    TextOfConcat(a, b);
    MarksConcat(a, b);
    NestedConcat(Marks(a), Marks(b));
    Assoc(TextOf(a), TextOf(b), rest);
  }

  predicate IsSimple(e: Event) {
    e.at <= |e.text| && (e.mark.Some? ==> e.mark.value.span == 0 && !IsStart(e.mark.value) && !IsLimit(e.mark.value))
  }

  lemma SoundOne(e: Event, rest: Text)
    requires IsSimple(e)
    ensures IsSound(e.text + rest, [e], rest)
  {
    TextOfOne(e);
    MarksOfOne(e);
    if e.mark.Some? {
      SimpleIsNested(e.mark.value);
    }
  }

  /** A simple event before sound ones. */
  lemma SoundPrepend(s: Text, e: Event, t: Text, events: seq<Event>, rest: Text)
    requires IsSimple(e) && e.text + t == s && IsSound(t, events, rest)
    ensures IsSound(s, [e] + events, rest)
  {
    SoundOne(e, t);
    SoundConcat(s, [e], t, events, rest);
  }

  lemma SoundNothing(s: Text)
    ensures IsSound(s, [], s)
  {
    assert TextOf([]) + s == s;
  }

  /** Events between a start and its limit. */
  lemma SoundWrap(s: Text, a: Event, inner: seq<Event>, b: Event, rest: Text)
    requires IsSound(s, inner, b.text + rest)
    requires a.at == 0 == b.at && a.mark.Some? && b.mark.Some? && AreMatched(a.mark.value, b.mark.value)
    requires a.mark.value.span == PartCount(inner) + 1 && b.mark.value.span == 0
    ensures IsSound(a.text + s, [a] + inner + [b], rest)
  {
    hide TextOf, Marks, IsNested, PartCount;
    TextOfConcat([a] + inner, [b]);
    TextOfConcat([a], inner);
    TextOfOne(a);
    TextOfOne(b);
    MarksConcat([a] + inner, [b]);
    MarksConcat([a], inner);
    MarksOfOne(a);
    MarksOfOne(b);
    MarksCount(inner);
    NestedWrap(a.mark.value, Marks(inner), b.mark.value);
    Assoc(a.text, TextOf(inner), b.text);
    Assoc(a.text, TextOf(inner) + b.text, rest);
    Assoc(TextOf(inner), b.text, rest);
  }

  lemma SoundArg(argType: ArgType, s: Text, inner: seq<Event>, rest: Text)
    requires IsSound(s, inner, [RIGHT_CURLY] + rest)
    ensures IsSound([LEFT_CURLY] + s, ArgEvents(argType, inner), rest)
  {
    hide IsSound;
    var a := Event([LEFT_CURLY], 0, Some(Mark(ARG_START, 1, TypeValue(argType), PartCount(inner) + 1)));
    var b := Marked([RIGHT_CURLY], ARG_LIMIT, 1, TypeValue(argType));
    SoundWrap(s, a, inner, b, rest);
  }

  /** The content of a message: sound up to its limit. */
  ghost predicate IsSoundContent(s: Text, level: nat, events: seq<Event>, rest: Text) {
    && events != []
    && var n := |events| - 1;
    && var limit := events[n];
    && limit.mark.Some? && limit.at == 0
    && limit.mark.value.kind == MSG_LIMIT && limit.mark.value.value == level && limit.mark.value.span == 0
    && IsSound(s, events[..n], limit.text + rest)
  }

  lemma SoundContentPrepend(s: Text, a: seq<Event>, t: Text, level: nat, events: seq<Event>, rest: Text)
    requires IsSound(s, a, t) && IsSoundContent(t, level, events, rest)
    ensures IsSoundContent(s, level, a + events, rest)
  {
    hide IsSound;
    var n := |events| - 1;
    SoundConcat(s, a, t, events[..n], events[n].text + rest);
    assert (a + events)[..|a + events| - 1] == a + events[..n];
  }

  lemma SoundLimit(text: Text, length: nat, level: nat, rest: Text)
    ensures IsSoundContent(text + rest, level, [LimitEvent(text, length, level)], rest)
  {
    var e := LimitEvent(text, length, level);
    assert [e][..0] == [];
    SoundNothing(text + rest);
  }

  lemma SoundMessage(start: Text, s: Text, level: nat, events: seq<Event>, rest: Text)
    requires IsSoundContent(s, level, events, rest)
    ensures IsSound(start + s, [Event(start, 0, Some(Mark(MSG_START, |start|, level, PartCount(events))))] + events, rest)
  {
    hide IsSound;
    var n := |events| - 1;
    var a := Event(start, 0, Some(Mark(MSG_START, |start|, level, PartCount(events))));
    var inner, b := events[..n], events[n];
    assert [a] + events == [a] + inner + [b];
    SoundWrap(s, a, inner, b, rest);
  }
}
