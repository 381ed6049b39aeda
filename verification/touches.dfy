/**
 Touch points, touch events and streams of touch events, as they pass from the
 scene through the gate to the dispatcher.

 A stream is judged against the set of touches that are down before it: every event
 lists each touch that is down, each once, a touch is pressed exactly when it was
 not down, and a release takes it out of the set.
 */
module Touches {

  type TouchId = nat

  datatype PointState = Pressed | Moved | Stationary | Released

  /** `data` stands for positions, pressure and velocity, which are passed on untouched. */
  datatype TouchPoint = TouchPoint(id: TouchId, state: PointState, data: int)

  /** `meta` stands for the device, the modifiers and the window. */
  datatype TouchEvent = TouchEvent(points: seq<TouchPoint>, timestamp: Timestamp, meta: int)

  const ULONG_MODULUS := 0x1_0000_0000_0000_0000

  type Timestamp = t: nat | t < ULONG_MODULUS

  function Ids(points: seq<TouchPoint>): set<TouchId> {
    set p <- points :: p.id
  }

  function IdsIn(points: seq<TouchPoint>, state: PointState): set<TouchId> {
    set p <- points | p.state == state :: p.id
  }

  predicate DistinctIds(points: seq<TouchPoint>) {
    forall i, j :: 0 <= i < j < |points| ==> points[i].id != points[j].id
  }

  // ---------- one event ----------

  predicate GoodEvent(down: set<TouchId>, e: TouchEvent) {
    && DistinctIds(e.points)
    && (forall p <- e.points :: p.state == Pressed <==> p.id !in down)
    && down <= Ids(e.points)
  }

  function After(down: set<TouchId>, e: TouchEvent): set<TouchId> {
    down + Ids(e.points) - IdsIn(e.points, Released)
  }

  /** A touch is listed once, so it has one state. */
  lemma OneState(points: seq<TouchPoint>, p: TouchPoint, state: PointState)
    requires DistinctIds(points) && p in points
    ensures p.id in IdsIn(points, state) <==> p.state == state
  {
    if p.id in IdsIn(points, state) {
      var q :| q in points && q.state == state && q.id == p.id;
      var i :| 0 <= i < |points| && points[i] == p;
      var j :| 0 <= j < |points| && points[j] == q;
      assert i == j;
    }
  }

  // ---------- streams ----------

  ghost predicate GoodStream(down: set<TouchId>, es: seq<TouchEvent>)
    decreases es
  {
    es == [] || (es[0].points != [] && GoodEvent(down, es[0]) && GoodStream(After(down, es[0]), es[1..]))
  }

  ghost function AfterAll(down: set<TouchId>, es: seq<TouchEvent>): set<TouchId>
    decreases es
  {
    if es == [] then down else AfterAll(After(down, es[0]), es[1..])
  }

  ghost predicate Mentions(es: seq<TouchEvent>, x: TouchId) {
    exists e <- es :: x in Ids(e.points)
  }

  ghost predicate Releases(es: seq<TouchEvent>, x: TouchId) {
    exists e <- es :: x in IdsIn(e.points, Released)
  }

  /** A touch that was released does not come back later in the same stretch of events. */
  ghost predicate NoReuse(es: seq<TouchEvent>) {
    es == [] || ((forall x <- IdsIn(es[0].points, Released) :: !Mentions(es[1..], x)) && NoReuse(es[1..]))
  }

  lemma {:induction false} StreamAppend(down: set<TouchId>, a: seq<TouchEvent>, b: seq<TouchEvent>)
    ensures GoodStream(down, a + b) <==> GoodStream(down, a) && GoodStream(AfterAll(down, a), b)
    ensures AfterAll(down, a + b) == AfterAll(AfterAll(down, a), b)
    decreases a
  {
    if a == [] {
      assert a + b == b;
    } else {
      assert (a + b)[0] == a[0] && (a + b)[1..] == a[1..] + b;
      StreamAppend(After(down, a[0]), a[1..], b);
    }
  }

  lemma StreamSnoc(down: set<TouchId>, a: seq<TouchEvent>, e: TouchEvent)
    ensures GoodStream(down, a + [e]) <==>
            GoodStream(down, a) && e.points != [] && GoodEvent(AfterAll(down, a), e)
    ensures AfterAll(down, a + [e]) == After(AfterAll(down, a), e)
  {
    StreamAppend(down, a, [e]);
    assert [e][1..] == [];
  }

  lemma ReleasesSnoc(es: seq<TouchEvent>, e: TouchEvent, x: TouchId)
    ensures Releases(es + [e], x) <==> Releases(es, x) || x in IdsIn(e.points, Released)
    ensures Mentions(es + [e], x) <==> Mentions(es, x) || x in Ids(e.points)
  {
    if Releases(es, x) {
      var f :| f in es && x in IdsIn(f.points, Released);
      assert f in es + [e];
    }
    if Mentions(es, x) {
      var f :| f in es && x in Ids(f.points);
      assert f in es + [e];
    }
    assert e in es + [e];
  }

  lemma {:induction false} NoReuseSnoc(es: seq<TouchEvent>, e: TouchEvent)
    requires NoReuse(es)
    requires forall x <- Ids(e.points) :: !Releases(es, x)
    ensures NoReuse(es + [e])
  {
    if es == [] {
      assert [] + [e] == [e] && [e][1..] == [];
    } else {
      assert (es + [e])[0] == es[0] && (es + [e])[1..] == es[1..] + [e];
      assert es == [es[0]] + es[1..];
      forall x ensures Releases(es, x) <==> x in IdsIn(es[0].points, Released) || Releases(es[1..], x) {
        MentionsCons(es[0], es[1..], x);
      }
      NoReuseSnoc(es[1..], e);
      forall x <- IdsIn(es[0].points, Released) ensures !Mentions(es[1..] + [e], x) {
        ReleasesSnoc(es[1..], e, x);
      }
    }
  }

  // ---------- taking touches out ----------

  function Without(points: seq<TouchPoint>, xs: set<TouchId>): (r: seq<TouchPoint>)
    ensures forall p :: p in r <==> p in points && p.id !in xs
    ensures DistinctIds(points) ==> DistinctIds(r)
  {
    if points == [] then []
    else
      var rest := Without(points[1..], xs);
      assert points == [points[0]] + points[1..];
      if points[0].id in xs then rest else [points[0]] + rest
  }

  function Erased(e: TouchEvent, xs: set<TouchId>): TouchEvent {
    e.(points := Without(e.points, xs))
  }

  /** Every event without the points of `xs`; an event that loses its last point goes too. */
  function Erase(es: seq<TouchEvent>, xs: set<TouchId>): (r: seq<TouchEvent>) {
    if es == [] then []
    else
      var e := Erased(es[0], xs);
      (if e.points == [] && es[0].points != [] then [] else [e]) + Erase(es[1..], xs)
  }

  lemma {:induction false} WithoutNothing(points: seq<TouchPoint>, xs: set<TouchId>)
    requires Ids(points) !! xs
    ensures Without(points, xs) == points
  {
    if points != [] {
      assert points[0].id in Ids(points);
      assert Ids(points[1..]) <= Ids(points);
      WithoutNothing(points[1..], xs);
    }
  }

  lemma {:induction false} WithoutTwice(points: seq<TouchPoint>, xs: set<TouchId>, ys: set<TouchId>)
    ensures Without(Without(points, xs), ys) == Without(points, xs + ys)
  {
    if points != [] {
      WithoutTwice(points[1..], xs, ys);
      var rest := Without(points[1..], xs);
      if points[0].id !in xs {
        assert ([points[0]] + rest)[1..] == rest;
      }
    }
  }

  lemma {:induction false} WithoutAppend(a: seq<TouchPoint>, b: seq<TouchPoint>, xs: set<TouchId>)
    ensures Without(a + b, xs) == Without(a, xs) + Without(b, xs)
  {
    if a == [] {
      assert a + b == b;
    } else {
      assert (a + b)[0] == a[0] && (a + b)[1..] == a[1..] + b;
      WithoutAppend(a[1..], b, xs);
    }
  }

  lemma {:induction false} EraseAppend(a: seq<TouchEvent>, b: seq<TouchEvent>, xs: set<TouchId>)
    ensures Erase(a + b, xs) == Erase(a, xs) + Erase(b, xs)
  {
    hide Without;
    if a == [] {
      assert a + b == b;
    } else {
      assert (a + b)[0] == a[0] && (a + b)[1..] == a[1..] + b;
      EraseAppend(a[1..], b, xs);
    }
  }

  lemma {:induction false} EraseNothing(es: seq<TouchEvent>, xs: set<TouchId>)
    requires forall x <- xs :: !Mentions(es, x)
    ensures Erase(es, xs) == es
  {
    if es != [] {
      assert es[0] in es;
      WithoutNothing(es[0].points, xs);
      assert forall e <- es[1..] :: e in es;
      EraseNothing(es[1..], xs);
    }
  }

  lemma {:induction false} EraseTwice(es: seq<TouchEvent>, xs: set<TouchId>, ys: set<TouchId>)
    requires forall e <- es :: e.points != []
    ensures Erase(Erase(es, xs), ys) == Erase(es, xs + ys)
  {
    hide Without;
    WithoutNothing([], ys);
    if es != [] {
      assert es[0] in es;
      assert forall e <- es[1..] :: e in es;
      EraseTwice(es[1..], xs, ys);
      WithoutTwice(es[0].points, xs, ys);
      var e, rest := Erased(es[0], xs), Erase(es[1..], xs);
      assert Erased(e, ys) == Erased(es[0], xs + ys);
      if e.points == [] {
        assert Erase(es, xs) == rest;
      } else {
        assert Erase(es, xs) == [e] + rest;
        assert ([e] + rest)[0] == e && ([e] + rest)[1..] == rest;
      }
    }
  }

  lemma {:induction false} EraseMentions(es: seq<TouchEvent>, xs: set<TouchId>, x: TouchId)
    ensures Mentions(Erase(es, xs), x) <==> Mentions(es, x) && x !in xs
    ensures Releases(Erase(es, xs), x) <==> Releases(es, x) && x !in xs
  {
    if es != [] {
      EraseMentions(es[1..], xs, x);
      var e, rest := Erased(es[0], xs), Erase(es[1..], xs);
      assert es == [es[0]] + es[1..];
      MentionsCons(es[0], es[1..], x);
      if !(e.points == [] && es[0].points != []) {
        MentionsCons(e, rest, x);
      }
    }
  }

  lemma MentionsCons(e: TouchEvent, es: seq<TouchEvent>, x: TouchId)
    ensures Mentions([e] + es, x) <==> x in Ids(e.points) || Mentions(es, x)
    ensures Releases([e] + es, x) <==> x in IdsIn(e.points, Released) || Releases(es, x)
  {
    var all := [e] + es;
    assert all[0] == e && e in all;
    assert forall f <- es :: f in all;
  }

  lemma {:induction false} EraseNoReuse(es: seq<TouchEvent>, xs: set<TouchId>)
    requires NoReuse(es)
    ensures NoReuse(Erase(es, xs))
  {
    if es != [] {
      EraseNoReuse(es[1..], xs);
      var e, rest := Erased(es[0], xs), Erase(es[1..], xs);
      if e.points == [] && es[0].points != [] {
        assert Erase(es, xs) == rest;
      } else {
        assert Erase(es, xs) == [e] + rest;
        assert ([e] + rest)[0] == e && ([e] + rest)[1..] == rest;
        forall x <- IdsIn(e.points, Released) ensures !Mentions(rest, x) {
          EraseMentions(es[1..], xs, x);
          assert x in IdsIn(es[0].points, Released);
        }
      }
    }
  }

  /** Erasing touches that were not down before a stream leaves a good stream. */
  lemma EraseKeepsStream(down: set<TouchId>, es: seq<TouchEvent>, xs: set<TouchId>)
    requires GoodStream(down, es) && NoReuse(es)
    requires down !! xs
    ensures GoodStream(down, Erase(es, xs))
    ensures AfterAll(down, Erase(es, xs)) == AfterAll(down, es) - xs
  {
    EraseKeepsStreamFrom(down, es, xs);
    assert down - xs == down;
  }

  lemma ErasedEvent(down: set<TouchId>, e: TouchEvent, xs: set<TouchId>)
    requires GoodEvent(down, e)
    ensures GoodEvent(down - xs, Erased(e, xs))
    ensures After(down - xs, Erased(e, xs)) == After(down, e) - xs
    ensures Erased(e, xs).points == [] ==> down - xs == {} && After(down, e) - xs == {}
  {
    var r := Erased(e, xs);
    assert Ids(r.points) == Ids(e.points) - xs;
    assert IdsIn(r.points, Released) == IdsIn(e.points, Released) - xs;
  }

  lemma {:induction false} EraseKeepsStreamFrom(down: set<TouchId>, es: seq<TouchEvent>, xs: set<TouchId>)
    requires GoodStream(down, es)
    ensures GoodStream(down - xs, Erase(es, xs))
    ensures AfterAll(down - xs, Erase(es, xs)) == AfterAll(down, es) - xs
    decreases es
  {
    if es != [] {
      var e, rest := Erased(es[0], xs), Erase(es[1..], xs);
      EraseKeepsStreamFrom(After(down, es[0]), es[1..], xs);
      ErasedEvent(down, es[0], xs);
      if e.points != [] {
        assert ([e] + rest)[0] == e && ([e] + rest)[1..] == rest;
      } else {
        assert down - xs == After(down, es[0]) - xs;
        assert Erase(es, xs) == rest;
      }
    }
  }
}
