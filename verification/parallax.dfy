/** The parallax engine: each `.parallax-bg` element whose enclosing section
    is in the viewport is shifted by `-(scrolled - sectionTop) * speed`, and
    scroll events are coalesced into at most one queued animation frame by
    the `ticking` flag. */
module Parallax {
  import opened Options

  /** The enclosing `.section`'s `offsetTop` and `offsetHeight`. */
  datatype Bounds = Bounds(top: int, height: int)

  /** A `.parallax-bg` element: its enclosing section (None when
      `closest('.section')` finds none), its `data-speed` (None when the
      attribute is absent or empty) and the vertical offset of its last
      applied transform (None before any). */
  datatype Layer = Layer(section: Option<Bounds>, speed: Option<real>, offset: Option<real>)

  /** The speed used when `data-speed` is missing. */
  const DefaultSpeed: real := 0.5

  function Speed(l: Layer): (r: real)
    ensures l.speed.Some? ==> r == l.speed.value
    ensures l.speed.None? ==> r == 0.5
  {
    l.speed.GetOr(DefaultSpeed)
  }

  /** The section overlaps the viewport [scrolled, scrolled + windowHeight). */
  predicate InView(scrolled: int, windowHeight: int, b: Bounds) {
    scrolled + windowHeight > b.top && scrolled < b.top + b.height
  }

  /** The translation applied to an in-view element. */
  function YOffset(scrolled: int, sectionTop: int, speed: real): (dy: real)
    ensures dy == 0.0 <==> scrolled == sectionTop || speed == 0.0
    ensures speed > 0.0 && scrolled > sectionTop ==> dy < 0.0
  {
    -((scrolled - sectionTop) as real) * speed
  }

  /** The layer is one `parallaxScroll` moves at this scroll position. */
  predicate Moves(l: Layer, scrolled: int, windowHeight: int) {
    l.section.Some? && InView(scrolled, windowHeight, l.section.value)
  }

  /** One element's part of `parallaxScroll`. */
  function UpdateLayer(l: Layer, scrolled: int, windowHeight: int): (r: Layer)
    ensures r.section == l.section && r.speed == l.speed
  {
    if Moves(l, scrolled, windowHeight)
    then l.(offset := Some(YOffset(scrolled, l.section.value.top, Speed(l))))
    else l
  }

  /** `parallaxScroll`: the `forEach` over the elements. Moving elements get
      the offset of the formula; every other element keeps the transform it
      had, stale or absent. Nothing but the offset ever changes. */
  function ParallaxScroll(layers: seq<Layer>, scrolled: int, windowHeight: int): (r: seq<Layer>)
    ensures |r| == |layers|
    ensures forall i :: 0 <= i < |r| ==>
      r[i].section == layers[i].section && r[i].speed == layers[i].speed
    ensures forall i :: 0 <= i < |r| && Moves(layers[i], scrolled, windowHeight) ==>
      r[i].offset == Some(YOffset(scrolled, layers[i].section.value.top, Speed(layers[i])))
    ensures forall i :: 0 <= i < |r| && !Moves(layers[i], scrolled, windowHeight) ==>
      r[i].offset == layers[i].offset
    decreases |layers|
  {
    if |layers| == 0 then []
    else
      var head := UpdateLayer(layers[0], scrolled, windowHeight);
      var r := [head] + ParallaxScroll(layers[1..], scrolled, windowHeight);
      assert r[0] == head;
      r
  }

  /** A second update at the same scroll position changes nothing. */
  lemma ParallaxScrollIdempotent(layers: seq<Layer>, scrolled: int, windowHeight: int)
    ensures var once := ParallaxScroll(layers, scrolled, windowHeight);
      ParallaxScroll(once, scrolled, windowHeight) == once
  {
    var once := ParallaxScroll(layers, scrolled, windowHeight);
    var twice := ParallaxScroll(once, scrolled, windowHeight);
    forall i | 0 <= i < |once|
      ensures twice[i] == once[i]
    {
      assert Moves(once[i], scrolled, windowHeight) == Moves(layers[i], scrolled, windowHeight);
      assert ParallaxScroll(once, scrolled, windowHeight)[i].offset == once[i].offset;
    }
  }

  /** The offset depends on the section's top and not on its height, the
      viewport height or the element's previous transform, as long as the
      section is in view. */
  lemma OffsetIndependentOfHistory(a: Layer, b: Layer, scrolled: int, windowHeight: int)
    requires a.speed == b.speed && a.section.Some? && b.section.Some?
    requires a.section.value.top == b.section.value.top
    requires Moves(a, scrolled, windowHeight) && Moves(b, scrolled, windowHeight)
    ensures ParallaxScroll([a], scrolled, windowHeight)[0].offset
         == ParallaxScroll([b], scrolled, windowHeight)[0].offset
  {
  }

  /** Scrolled to 150 over a section at 100 with the default speed, the
      element moves up by 25. */
  lemma DefaultSpeedExample()
    ensures ParallaxScroll([Layer(Some(Bounds(100, 800)), None, None)], 150, 600)[0].offset == Some(-25.0)
  {
  }

  /** The parallax state: the `ticking` flag, how many animation-frame
      callbacks are queued, and the elements. */
  datatype Engine = Engine(ticking: bool, queued: nat, layers: seq<Layer>)

  /** What reaches the engine: a scroll event, or an animation frame, which
      runs the queued callback (if any) with the layout of that moment. */
  datatype Event = Scroll | Frame(scrolled: int, windowHeight: int)

  /** `initParallax`: not ticking, nothing queued, one immediate update. */
  function Init(layers: seq<Layer>, scrolled: int, windowHeight: int): (e: Engine)
    ensures !e.ticking && e.queued == 0
    ensures e.layers == ParallaxScroll(layers, scrolled, windowHeight)
  {
    Engine(false, 0, ParallaxScroll(layers, scrolled, windowHeight))
  }

  /** The scroll listener: queue a frame only when none is pending. */
  function OnScroll(e: Engine): (r: Engine)
    ensures e.ticking ==> r == e
    ensures !e.ticking ==> r.ticking && r.queued == e.queued + 1 && r.layers == e.layers
  {
    if e.ticking then e else e.(ticking := true, queued := e.queued + 1)
  }

  /** An animation frame: the queued callback, when there is one, updates
      the elements and then clears `ticking`. */
  function OnFrame(e: Engine, scrolled: int, windowHeight: int): (r: Engine)
    ensures e.queued == 0 ==> r == e
    ensures e.queued > 0 ==>
      && r.queued == e.queued - 1
      && !r.ticking
      && r.layers == ParallaxScroll(e.layers, scrolled, windowHeight)
  {
    if e.queued == 0 then e
    else Engine(false, e.queued - 1, ParallaxScroll(e.layers, scrolled, windowHeight))
  }

  /** One event: a scroll never touches the elements and queues at most one
      frame; a frame never queues one. */
  function Step(e: Engine, ev: Event): (r: Engine)
    ensures ev.Scroll? ==> r.layers == e.layers && r.queued <= e.queued + 1
    ensures ev.Frame? ==> r.queued <= e.queued
  {
    match ev
    case Scroll => OnScroll(e)
    case Frame(s, h) => OnFrame(e, s, h)
  }

  /** The engine after a sequence of events, in arrival order. */
  function Run(e: Engine, events: seq<Event>): (r: Engine)
    ensures r.queued <= e.queued + |events|
    ensures (forall i :: 0 <= i < |events| ==> events[i].Scroll?) ==> r.layers == e.layers
    decreases |events|
  {
    if |events| == 0 then e
    else
      assert forall i :: 0 <= i < |events| - 1 ==> events[1..][i] == events[i + 1];
      Run(Step(e, events[0]), events[1..])
  }

  /** `ticking` is set exactly while one frame is queued, and never more
      than one is. */
  predicate GuardInvariant(e: Engine) {
    e.queued <= 1 && (e.ticking <==> e.queued == 1)
  }

  lemma StepKeepsGuard(e: Engine, ev: Event)
    requires GuardInvariant(e)
    ensures GuardInvariant(Step(e, ev))
  {
  }

  /** From initialisation on, at most one frame is ever pending. */
  lemma AtMostOneFramePending(layers: seq<Layer>, scrolled: int, windowHeight: int, events: seq<Event>)
    ensures Run(Init(layers, scrolled, windowHeight), events).queued <= 1
  {
    RunKeepsGuard(Init(layers, scrolled, windowHeight), events);
  }

  lemma {:induction false} RunKeepsGuard(e: Engine, events: seq<Event>)
    requires GuardInvariant(e)
    ensures GuardInvariant(Run(e, events))
    decreases |events|
  {
    if |events| > 0 {
      StepKeepsGuard(e, events[0]);
      RunKeepsGuard(Step(e, events[0]), events[1..]);
    }
  }

  /** Any burst of scroll events leaves exactly one frame queued and the
      elements untouched: the burst is coalesced into one recompute. */
  lemma {:induction false} ScrollBurstCoalesces(e: Engine, n: nat)
    requires GuardInvariant(e) && n > 0
    ensures Run(e, seq(n, _ => Scroll)).queued == 1
    ensures Run(e, seq(n, _ => Scroll)).ticking
    ensures Run(e, seq(n, _ => Scroll)).layers == e.layers
    decreases n
  {
    var burst := seq(n, _ => Scroll);
    assert burst[1..] == seq(n - 1, _ => Scroll);
    var e' := OnScroll(e);
    if n > 1 {
      ScrollBurstCoalesces(e', n - 1);
    }
  }
}
