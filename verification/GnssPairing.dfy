/**
 Pairing of the position fixes of two receivers by their time of week: each topic is kept in a
 buffer of the last 50 fixes, and whichever fix of a pair arrives second triggers the heading.
 */
module GnssPairing {
  import opened Lists

  /** maxlen of the buffers */
  const WINDOW := 50

  datatype Fix = Fix(itow: int, lat: int, lon: int)
  datatype Topic = Base | Rover
  datatype Event = Event(topic: Topic, fix: Fix)

  /** A heading is computed from the fixes of a base and a rover of one time of week. */
  datatype Pair = Pair(base: Fix, rover: Fix)

  datatype State = State(base: seq<Fix>, rover: seq<Fix>, last: Option<int>) {
    function Of(topic: Topic): seq<Fix> { if topic.Base? then base else rover }
  }

  // ---------- what the callbacks do ----------

  /** A full buffer drops its oldest fix. */
  function Append(buf: seq<Fix>, fix: Fix): seq<Fix> {
    if |buf| < WINDOW then buf + [fix] else buf[|buf| - WINDOW + 1..] + [fix]
  }

  function Received(s: State, e: Event): State {
    if e.topic.Base? then s.(base := Append(s.base, e.fix)) else s.(rover := Append(s.rover, e.fix))
  }

  /** The oldest fix with this time of week. */
  function Lookup(buf: seq<Fix>, itow: int): (r: Option<Fix>)
    ensures r.Some? ==>
              && r.value.itow == itow
              && exists k :: 0 <= k < |buf| && buf[k] == r.value && forall l :: 0 <= l < k ==> buf[l].itow != itow
    ensures r.None? ==> forall k :: 0 <= k < |buf| ==> buf[k].itow != itow
  {
    if buf == [] then None
    else if buf[0].itow == itow then Some(buf[0])
    else Lookup(buf[1..], itow)
  }

  /** What an event makes the node publish, if anything. */
  function Output(s: State, e: Event): Option<Pair> {
    var s', t := Received(s, e), e.fix.itow;
    if s.last == Some(t) then None
    else
      match (Lookup(s'.base, t), Lookup(s'.rover, t))
      case (Some(b), Some(r)) => Some(Pair(b, r))
      case _ => None
  }

  function Step(s: State, e: Event): State {
    var s' := Received(s, e);
    if Output(s, e).Some? then s'.(last := Some(e.fix.itow)) else s'
  }

  const START := State([], [], None)

  function Run(events: seq<Event>): State {
    if events == [] then START
    else Step(Run(events[..|events| - 1]), events[|events| - 1])
  }

  /** The published pairs of a run, in order. */
  function Published(events: seq<Event>): seq<Pair> {
    if events == [] then []
    else
      var before, e := events[..|events| - 1], events[|events| - 1];
      Published(before) +
      match Output(Run(before), e)
      case Some(pair) => [pair]
      case None => []
  }

  // ---------- the buffers hold the last fixes ----------

  function Fixes(events: seq<Event>, topic: Topic): seq<Fix> {
    if events == [] then []
    else
      var e := events[|events| - 1];
      Fixes(events[..|events| - 1], topic) + if e.topic == topic then [e.fix] else []
  }

  lemma AppendToLatest(fixes: seq<Fix>, fix: Fix)
    ensures Append(Latest(fixes, WINDOW), fix) == Latest(fixes + [fix], WINDOW)
  {
  }

  /** On every run, each buffer holds the last 50 fixes of its topic. */
  lemma {:induction false} BuffersHoldLatest(events: seq<Event>, topic: Topic)
    ensures Run(events).Of(topic) == Latest(Fixes(events, topic), WINDOW)
  {
    if events != [] {
      var before, e := events[..|events| - 1], events[|events| - 1];
      BuffersHoldLatest(before, topic);
      if e.topic == topic {
        AppendToLatest(Fixes(before, topic), e.fix);
      } else {
        assert Fixes(before, topic) + [] == Fixes(before, topic);
      }
    }
  }

  lemma InLatest(fixes: seq<Fix>, k: nat)
    requires k < |fixes| <= k + WINDOW
    ensures fixes[k] in Latest(fixes, WINDOW)
  {
    if |fixes| > WINDOW {
      assert Latest(fixes, WINDOW)[k - (|fixes| - WINDOW)] == fixes[k];
    }
  }

  // ---------- what is published ----------

  /** Each topic's times of week never decrease. */
  ghost predicate Ordered(events: seq<Event>) {
    forall i, j :: 0 <= i < j < |events| && events[i].topic == events[j].topic ==>
      events[i].fix.itow <= events[j].fix.itow
  }

  lemma {:induction false} FixesAreEvents(events: seq<Event>, topic: Topic)
    ensures forall k :: 0 <= k < |Fixes(events, topic)| ==> Event(topic, Fixes(events, topic)[k]) in events
    ensures forall i :: 0 <= i < |events| && events[i].topic == topic ==> events[i].fix in Fixes(events, topic)
  {
    if events != [] {
      var before := events[..|events| - 1];
      FixesAreEvents(before, topic);
      assert forall e :: e in before ==> e in events;
      assert forall i :: 0 <= i < |before| ==> before[i] == events[i];
    }
  }

  /** Every fix in a buffer came in on its topic. */
  lemma {:induction false} BufferedArrived(events: seq<Event>, topic: Topic, fix: Fix)
    requires fix in Run(events).Of(topic)
    ensures Event(topic, fix) in events
  {
    BuffersHoldLatest(events, topic);
    FixesAreEvents(events, topic);
  }

  ghost predicate Increasing(pairs: seq<Pair>) {
    forall i, j :: 0 <= i < j < |pairs| ==> pairs[i].base.itow < pairs[j].base.itow
  }

  /** `last` is the time of week of the last pair. */
  ghost predicate IsLast(pairs: seq<Pair>, last: Option<int>) {
    if pairs == [] then last == None else last == Some(pairs[|pairs| - 1].base.itow)
  }

  /** The pair holds a base and a rover fix of one time of week, and both came in. */
  ghost predicate IsPair(events: seq<Event>, pair: Pair) {
    && pair.base.itow == pair.rover.itow
    && Event(Base, pair.base) in events && Event(Rover, pair.rover) in events
  }

  ghost predicate Sound(events: seq<Event>, pairs: seq<Pair>, last: Option<int>) {
    && Increasing(pairs) && IsLast(pairs, last)
    && forall k :: 0 <= k < |pairs| ==> IsPair(events, pairs[k])
  }

  lemma {:induction false} ReceivedArrived(events: seq<Event>, e: Event, topic: Topic, fix: Fix)
    requires fix in Received(Run(events), e).Of(topic)
    ensures Event(topic, fix) in events + [e]
  {
    if fix in Run(events).Of(topic) {
      BufferedArrived(events, topic, fix);
    } else {
      assert e == Event(topic, fix);
    }
  }

  lemma {:induction false} OutputIsPair(events: seq<Event>, e: Event)
    requires Output(Run(events), e).Some?
    ensures IsPair(events + [e], Output(Run(events), e).value)
    ensures Output(Run(events), e).value.base.itow == e.fix.itow
    ensures Run(events).last != Some(e.fix.itow)
  {
    var pair := Output(Run(events), e).value;
    var s' := Received(Run(events), e);
    assert pair.base in s'.Of(Base) && pair.rover in s'.Of(Rover);
    ReceivedArrived(events, e, Base, pair.base);
    ReceivedArrived(events, e, Rover, pair.rover);
  }

  lemma IsPairLater(events: seq<Event>, e: Event, pair: Pair)
    requires IsPair(events, pair)
    ensures IsPair(events + [e], pair)
  {
  }

  /** A time of week that was published on both topics bounds the later ones from below. */
  lemma NotEarlier(events: seq<Event>, e: Event, pair: Pair)
    requires Ordered(events + [e]) && IsPair(events, pair)
    ensures pair.base.itow <= e.fix.itow
  {
    var all := events + [e];
    var previous := if e.topic.Base? then Event(Base, pair.base) else Event(Rover, pair.rover);
    var i :| 0 <= i < |events| && events[i] == previous;
    assert all[i].topic == all[|events|].topic;
  }

  lemma SoundAppend(events: seq<Event>, pairs: seq<Pair>, last: Option<int>, pair: Pair)
    requires Sound(events, pairs, last) && IsPair(events, pair)
    requires forall k :: 0 <= k < |pairs| ==> pairs[k].base.itow <= pair.base.itow
    requires last != Some(pair.base.itow)
    ensures Sound(events, pairs + [pair], Some(pair.base.itow))
  {
    forall k | 0 <= k < |pairs|
      ensures pairs[k].base.itow < pair.base.itow
    {
      assert k < |pairs| - 1 ==> pairs[k].base.itow < pairs[|pairs| - 1].base.itow;
    }
  }

  lemma {:induction false} SoundStep(events: seq<Event>, e: Event, pairs: seq<Pair>, last: Option<int>)
    requires Ordered(events + [e]) && Sound(events, pairs, last) && last == Run(events).last
    ensures match Output(Run(events), e)
            case Some(pair) => Sound(events + [e], pairs + [pair], Some(e.fix.itow))
            case None => Sound(events + [e], pairs, last)
  {
    forall k | 0 <= k < |pairs|
      ensures IsPair(events + [e], pairs[k]) && pairs[k].base.itow <= e.fix.itow
    {
      IsPairLater(events, e, pairs[k]);
      NotEarlier(events, e, pairs[k]);
    }
    assert Sound(events + [e], pairs, last);
    if Output(Run(events), e).Some? {
      OutputIsPair(events, e);
      SoundAppend(events + [e], pairs, last, Output(Run(events), e).value);
    }
  }

  /**
   With each topic's times of week in order, the published times of week strictly increase
   under every interleaving, and each pair holds a base and a rover fix of one time of week.
   */
  lemma {:induction false} PublishedInOrder(events: seq<Event>)
    requires Ordered(events)
    ensures Sound(events, Published(events), Run(events).last)
  {
    if events != [] {
      var before, e := events[..|events| - 1], events[|events| - 1];
      assert events == before + [e];
      PublishedInOrder(before);
      SoundStep(before, e, Published(before), Run(before).last);
      assert Published(before) + [] == Published(before);
    }
  }

  // ---------- nothing within the window is missed ----------

  ghost predicate Covers(pairs: seq<Pair>, t: int) {
    exists k :: 0 <= k < |pairs| && pairs[k].base.itow == t
  }

  lemma {:induction false} PublishedGrows(events: seq<Event>, n: nat, t: int)
    requires n <= |events| && Covers(Published(events[..n]), t)
    ensures Covers(Published(events), t)
    decreases |events| - n
  {
    if n == |events| {
      assert events[..n] == events;
    } else {
      var next := events[..n + 1];
      assert next[..n] == events[..n];
      var k :| 0 <= k < |Published(events[..n])| && Published(events[..n])[k].base.itow == t;
      assert Published(next)[k] == Published(events[..n])[k];
      PublishedGrows(events, n + 1, t);
    }
  }

  function Other(topic: Topic): Topic { if topic.Base? then Rover else Base }

  /** A fix whose partner is in the other buffer is published, now or before. */
  lemma {:induction false} ArrivalPublishes(events: seq<Event>, e: Event, partner: Fix)
    requires Ordered(events)
    requires partner in Run(events).Of(Other(e.topic)) && partner.itow == e.fix.itow
    ensures Covers(Published(events + [e]), e.fix.itow)
  {
    var all := events + [e];
    assert all[..|events|] == events;
    if Run(events).last == Some(e.fix.itow) {
      PublishedInOrder(events);
      assert Published(all)[|Published(events)| - 1] == Published(events)[|Published(events)| - 1];
    } else {
      ArrivalOutputs(Run(events), e, partner);
      assert Published(all)[|Published(events)|] == Output(Run(events), e).value;
    }
  }

  lemma ArrivalOutputs(s: State, e: Event, partner: Fix)
    requires partner in s.Of(Other(e.topic)) && partner.itow == e.fix.itow && s.last != Some(e.fix.itow)
    ensures Output(s, e).Some? && Output(s, e).value.base.itow == e.fix.itow
  {
    var s' := Received(s, e);
    assert e.fix in s'.Of(e.topic) && partner in s'.Of(Other(e.topic));
    assert Lookup(s'.base, e.fix.itow).Some? && Lookup(s'.rover, e.fix.itow).Some?;
  }

  lemma {:induction false} FixesStep(events: seq<Event>, e: Event, topic: Topic)
    ensures Fixes(events + [e], topic) == Fixes(events, topic) + if e.topic == topic then [e.fix] else []
  {
    assert (events + [e])[..|events|] == events;
  }

  lemma {:induction false} FixesConcat(events: seq<Event>, later: seq<Event>, topic: Topic)
    ensures Fixes(events + later, topic) == Fixes(events, topic) + Fixes(later, topic)
  {
    if later == [] {
      assert events + later == events;
    } else {
      var front, e := later[..|later| - 1], later[|later| - 1];
      FixesConcat(events, front, topic);
      assert events + later == (events + front) + [e];
      FixesStep(events + front, e, topic);
    }
  }

  /**
   A time of week came in on one topic at place i and on the other at place j, with fewer than
   50 fixes of the earlier one's topic between the two.
   */
  ghost predicate InWindow(events: seq<Event>, i: int, j: int, t: int) {
    && 0 <= i < j < |events|
    && events[j].topic == Other(events[i].topic) && events[i].fix.itow == events[j].fix.itow == t
    && |Fixes(events[..j][i + 1..], events[i].topic)| < WINDOW
  }

  lemma {:induction false} WindowIsPublished(events: seq<Event>, i: nat, j: nat, t: int)
    requires Ordered(events) && InWindow(events, i, j, t)
    ensures Covers(Published(events), t)
  {
    var before, e := events[..j], events[j];
    assert events[..j + 1] == before + [e];
    assert Covers(Published(events[..j + 1]), t) by {
      PrefixIsOrdered(events, j + 1);
      assert before[i] == events[i];
      PairCompletes(before, i, e);
    }
    PublishedGrows(events, j + 1, t);
  }

  lemma PairCompletes(before: seq<Event>, i: nat, e: Event)
    requires Ordered(before + [e]) && i < |before|
    requires e.topic == Other(before[i].topic) && before[i].fix.itow == e.fix.itow
    requires |Fixes(before[i + 1..], before[i].topic)| < WINDOW
    ensures Covers(Published(before + [e]), e.fix.itow)
  {
    StillBuffered(before, i);
    PrefixIsOrdered(before + [e], |before|);
    assert (before + [e])[..|before|] == before;
    ArrivalPublishes(before, e, before[i].fix);
  }

  lemma PrefixIsOrdered(events: seq<Event>, n: nat)
    requires Ordered(events) && n <= |events|
    ensures Ordered(events[..n])
  {
  }

  /** Where a fix came in. */
  lemma {:induction false} FixHasPlace(events: seq<Event>, topic: Topic, k: nat) returns (i: nat)
    requires k < |Fixes(events, topic)|
    ensures i < |events| && events[i] == Event(topic, Fixes(events, topic)[k]) && |Fixes(events[..i], topic)| == k
  {
    var n := |events| - 1;
    if k < |Fixes(events[..n], topic)| {
      i := FixHasPlace(events[..n], topic, k);
      assert events[..n][..i] == events[..i];
    } else {
      i := n;
    }
  }

  lemma PlaceInLatest(fixes: seq<Fix>, fix: Fix) returns (k: nat)
    requires fix in Latest(fixes, WINDOW)
    ensures k < |fixes| <= k + WINDOW && fixes[k] == fix
  {
    var m :| 0 <= m < |Latest(fixes, WINDOW)| && Latest(fixes, WINDOW)[m] == fix;
    k := m + |fixes| - |Latest(fixes, WINDOW)|;
  }

  /** The fixes of one topic before, at and after place i. */
  lemma FixesAfter(events: seq<Event>, i: nat)
    requires i < |events|
    ensures var topic := events[i].topic;
            |Fixes(events, topic)| == |Fixes(events[..i], topic)| + 1 + |Fixes(events[i + 1..], topic)|
    ensures Fixes(events, events[i].topic)[|Fixes(events[..i], events[i].topic)|] == events[i].fix
  {
    var upTo := events[..i] + [events[i]];
    assert events == upTo + events[i + 1..];
    FixesConcat(upTo, events[i + 1..], events[i].topic);
    FixesStep(events[..i], events[i], events[i].topic);
  }

  /** Fewer than 50 fixes of its topic came in after a fix that is still buffered. */
  lemma BufferedPlace(events: seq<Event>, topic: Topic, fix: Fix) returns (i: nat)
    requires fix in Run(events).Of(topic)
    ensures i < |events| && events[i] == Event(topic, fix) && |Fixes(events[i + 1..], topic)| < WINDOW
  {
    BuffersHoldLatest(events, topic);
    var k := PlaceInLatest(Fixes(events, topic), fix);
    i := FixHasPlace(events, topic, k);
    FixesAfter(events, i);
  }

  /** What an event makes the node publish has a partner in the window before it. */
  lemma {:induction false} OutputInWindow(events: seq<Event>, e: Event)
    requires Output(Run(events), e).Some?
    ensures exists i :: InWindow(events + [e], i, |events|, e.fix.itow)
  {
    var pair := Output(Run(events), e).value;
    var partner := if e.topic.Base? then pair.rover else pair.base;
    assert partner in Run(events).Of(Other(e.topic)) && partner.itow == e.fix.itow;
    var i := BufferedPlace(events, Other(e.topic), partner);
    assert (events + [e])[..|events|] == events;
    assert InWindow(events + [e], i, |events|, e.fix.itow);
  }

  lemma {:induction false} PublishedStep(events: seq<Event>, e: Event)
    ensures Published(events + [e]) ==
            Published(events) +
            match Output(Run(events), e)
            case Some(pair) => [pair]
            case None => []
  {
    assert (events + [e])[..|events|] == events;
  }

  lemma {:induction false} NewlyCovered(events: seq<Event>, e: Event, t: int)
    requires Covers(Published(events + [e]), t)
    ensures Covers(Published(events), t) || (Output(Run(events), e).Some? && e.fix.itow == t)
  {
    var before, all := Published(events), Published(events + [e]);
    PublishedStep(events, e);
    var k :| 0 <= k < |all| && all[k].base.itow == t;
    if k < |before| {
      assert before[k].base.itow == t;
    } else {
      assert Output(Run(events), e).Some?;
      OutputIsPair(events, e);
    }
  }

  /** What is published came in within the window. */
  lemma {:induction false} PublishedInWindow(events: seq<Event>, t: int) returns (i: nat, j: nat)
    requires Covers(Published(events), t)
    ensures InWindow(events, i, j, t)
  {
    var before, e := events[..|events| - 1], events[|events| - 1];
    assert events == before + [e];
    if Covers(Published(before), t) {
      i, j := PublishedInWindow(before, t);
      assert events[..j] == before[..j];
    } else {
      NewlyCovered(before, e, t);
      OutputInWindow(before, e);
      j := |before|;
      i :| InWindow(events, i, j, t);
    }
  }

  /**
   A time of week is published exactly when it came in on both topics within the window: fewer
   than 50 fixes of the earlier one's topic arrived between the two.
   */
  lemma {:induction false} WindowIsComplete(events: seq<Event>, t: int)
    requires Ordered(events)
    ensures Covers(Published(events), t) <==> exists i, j :: InWindow(events, i, j, t)
  {
    if Covers(Published(events), t) {
      var i, j := PublishedInWindow(events, t);
    }
    if i, j :| InWindow(events, i, j, t) {
      WindowIsPublished(events, i, j, t);
    }
  }

  /** A fix stays in its buffer until 50 more of its topic have come in. */
  lemma StillBuffered(events: seq<Event>, i: nat)
    requires i < |events| && |Fixes(events[i + 1..], events[i].topic)| < WINDOW
    ensures events[i].fix in Run(events).Of(events[i].topic)
  {
    var topic := events[i].topic;
    BuffersHoldLatest(events, topic);
    FixesAfter(events, i);
    InLatest(Fixes(events, topic), |Fixes(events[..i], topic)|);
  }

  /** The node: bounded buffers and the last published time of week, updated in place by two callbacks. */
  class CalculateHeading {
    var baseBuf: seq<Fix>
    var roverBuf: seq<Fix>
    var lastItow: Option<int>
    /** The bearing from base to rover; it is defined for all positions. */
    const heading: (int, int, int, int) -> int

    constructor (heading: (int, int, int, int) -> int)
      ensures Contents() == START && this.heading == heading
    {
      baseBuf, roverBuf, lastItow := [], [], None;
      this.heading := heading;
    }

    function Contents(): State
      reads this
    {
      State(baseBuf, roverBuf, lastItow)
    }

    method CbBase(fix: Fix) returns (out: Option<int>)
      modifies this
      ensures Contents() == Step(old(Contents()), Event(Base, fix))
      ensures match Output(old(Contents()), Event(Base, fix))
              case Some(p) => out == Some(heading(p.base.lat, p.base.lon, p.rover.lat, p.rover.lon))
              case None => out == None
    {
      baseBuf := Append(baseBuf, fix);
      out := TryPublish(fix.itow);
    }

    method CbRover(fix: Fix) returns (out: Option<int>)
      modifies this
      ensures Contents() == Step(old(Contents()), Event(Rover, fix))
      ensures match Output(old(Contents()), Event(Rover, fix))
              case Some(p) => out == Some(heading(p.base.lat, p.base.lon, p.rover.lat, p.rover.lon))
              case None => out == None
    {
      roverBuf := Append(roverBuf, fix);
      out := TryPublish(fix.itow);
    }

    method Find(buf: seq<Fix>, itow: int) returns (r: Option<Fix>)
      ensures r == Lookup(buf, itow)
    {
      var k := 0;
      assert buf[0..] == buf;
      while k < |buf|
        invariant 0 <= k <= |buf| && Lookup(buf, itow) == Lookup(buf[k..], itow)
      {
        if buf[k].itow == itow {
          return Some(buf[k]);
        }
        assert buf[k..][1..] == buf[k + 1..];
        k := k + 1;
      }
      return None;
    }

    method TryPublish(itow: int) returns (out: Option<int>)
      modifies this`lastItow
      ensures var b, r := Lookup(baseBuf, itow), Lookup(roverBuf, itow);
              if old(lastItow) == Some(itow) || b.None? || r.None? then out == None && lastItow == old(lastItow)
              else
                && out == Some(heading(b.value.lat, b.value.lon, r.value.lat, r.value.lon))
                && lastItow == Some(itow)
    {
      if lastItow == Some(itow) {
        return None;
      }
      var base := Find(baseBuf, itow);
      var rover := Find(roverBuf, itow);
      if base.None? || rover.None? {
        return None;
      }
      lastItow := Some(itow);
      out := Some(heading(base.value.lat, base.value.lon, rover.value.lat, rover.value.lon));
    }
  }
}
