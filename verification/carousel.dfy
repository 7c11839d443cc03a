/**
 * The index arithmetic of the two carousels: `Testimonial.tsx`, advanced by a
 * "next" button and by one dot per testimonial, and `FeatureSlider.tsx`,
 * advanced by a five-second interval and by one dot per slide. The React
 * state is the active index; each handler is a pure step on it.
 */
module Testimonial {
  import opened Common

  /** `nextTestimonial`: `prevIndex === length - 1 ? 0 : prevIndex + 1`. */
  function Next(i: int, len: nat): (r: int)
    ensures 0 <= i < len ==> 0 <= r < len
    ensures 0 <= i < len ==> r == (i + 1) % len
  {
    if i == len - 1 then 0 else i + 1
  }

  /** The last testimonial wraps to the first; any other index moves one on. */
  lemma NextWraps(i: int, len: nat)
    requires 0 <= i < len
    ensures Next(i, len) == 0 <==> i == len - 1
    ensures i < len - 1 ==> Next(i, len) == i + 1
  {
  }

  /** What the user can do: press "next", or click a dot. */
  datatype Event = NextClicked | DotClicked(index: int)

  /** The events the rendered controls can emit: "next", or one of the dots `testimonials.map((_, index) => ...)`. */
  predicate Offered(e: Event, len: nat) {
    e.NextClicked? || e.index in Indices(len)
  }

  function Apply(active: int, len: nat, e: Event): (r: int)
    ensures e.DotClicked? ==> r == e.index
    ensures Offered(e, len) && 0 <= active < len ==> 0 <= r < len
  {
    match e
    case NextClicked => Next(active, len)
    case DotClicked(k) => k
  }

  function ApplyAll(active: int, len: nat, es: seq<Event>): int
    decreases |es|
  {
    if |es| == 0 then active else ApplyAll(Apply(active, len, es[0]), len, es[1..])
  }

  /** Any run of offered events keeps the active index inside the list. */
  lemma {:induction false} ActiveStaysInRange(active: int, len: nat, es: seq<Event>)
    requires 0 <= active < len
    requires forall k :: 0 <= k < |es| ==> Offered(es[k], len)
    ensures 0 <= ApplyAll(active, len, es) < len
    decreases |es|
  {
    if |es| > 0 {
      ActiveStaysInRange(Apply(active, len, es[0]), len, es[1..]);
    }
  }

  /** The section body for `section.testimonials` (absent counts as `[]`). */
  function Render<T>(testimonials: Option<seq<T>>, active: int): (v: View<T>)
    ensures v.Hidden? <==> |testimonials.GetOr([])| == 0
    ensures v.Shows? <==> 0 <= active < |testimonials.GetOr([])|
    ensures v.Shows? ==> v.item == testimonials.GetOr([])[active]
  {
    var ts := testimonials.GetOr([]);
    if |ts| == 0 then Hidden
    else if 0 <= active < |ts| then Shows(ts[active])
    else Fails
  }

  /**
   * From the initial index 0, whatever the user clicks, a non-empty list
   * always shows a testimonial and never fails.
   */
  lemma NeverFails<T>(testimonials: seq<T>, es: seq<Event>)
    requires |testimonials| > 0
    requires forall k :: 0 <= k < |es| ==> Offered(es[k], |testimonials|)
    ensures Render(Some(testimonials), ApplyAll(0, |testimonials|, es)).Shows?
  {
    ActiveStaysInRange(0, |testimonials|, es);
  }

  /** An absent list renders nothing, whatever the index. */
  lemma AbsentRendersNothing<T>(active: int)
    ensures Render<T>(None, active).Hidden?
  {
  }
}

module FeatureSlider {
  import opened Common

  /** JavaScript's `%`: the remainder takes the sign of the dividend. */
  function JsRem(a: int, n: int): (r: int)
    requires n != 0
    ensures 0 <= a ==> r == a % n
    ensures a < 0 ==> r == -((-a) % n)
  {
    var m := (if a >= 0 then a else -a) % (if n > 0 then n else -n);
    if a >= 0 then m else -m
  }

  /** One interval tick: `(prev + 1) % slides.length`. */
  function Tick(prev: int, len: nat): (r: int)
    requires len > 0
    ensures 0 <= prev < len ==> 0 <= r < len
    ensures 0 <= prev < len ==> r == if prev == len - 1 then 0 else prev + 1
  {
    JsRem(prev + 1, len)
  }

  /**
   * The effect: with no slides no interval is installed (`None`); otherwise
   * each tick maps the previous index to the next. Effects run only after a
   * render that did not throw, so `slides` is present here (see `Render`).
   */
  function AutoAdvance(len: nat, prev: int): (r: Option<int>)
    ensures r.None? <==> len == 0
    ensures r.Some? && 0 <= prev < len ==> 0 <= r.value < len
  {
    if len == 0 then None else Some(Tick(prev, len))
  }

  /** `k` ticks from `start`. */
  function Ticks(start: int, len: nat, k: nat): int
    requires len > 0
    decreases k
  {
    if k == 0 then start else Tick(Ticks(start, len, k - 1), len)
  }

  lemma {:induction false} TicksOffset(start: int, len: nat, k: nat)
    requires 0 <= start < len
    requires k <= len
    ensures Ticks(start, len, k) == if start + k < len then start + k else start + k - len
    decreases k
  {
    if k > 0 {
      TicksOffset(start, len, k - 1);
    }
  }

  /** `len` ticks bring the slider back to where it started. */
  lemma TicksPeriod(start: int, len: nat)
    requires 0 <= start < len
    ensures Ticks(start, len, len) == start
    ensures forall k :: 0 < k < len ==> Ticks(start, len, k) != start
  {
    TicksOffset(start, len, len);
    forall k | 0 < k < len
      ensures Ticks(start, len, k) != start
    {
      TicksOffset(start, len, k);
    }
  }

  datatype Event = Ticked | DotClicked(index: int)

  /** The events that can happen: a tick, or one of the dots `slides.map((_, index) => ...)`. */
  predicate Offered(e: Event, len: nat) {
    e.Ticked? || e.index in Indices(len)
  }

  /** A tick, or `goToSlide(index)`. */
  function Apply(current: int, len: nat, e: Event): (r: int)
    requires len > 0
    ensures e.DotClicked? ==> r == e.index
    ensures Offered(e, len) && 0 <= current < len ==> 0 <= r < len
  {
    match e
    case Ticked => Tick(current, len)
    case DotClicked(k) => k
  }

  function ApplyAll(current: int, len: nat, es: seq<Event>): int
    requires len > 0
    decreases |es|
  {
    if |es| == 0 then current else ApplyAll(Apply(current, len, es[0]), len, es[1..])
  }

  lemma {:induction false} CurrentStaysInRange(current: int, len: nat, es: seq<Event>)
    requires 0 <= current < len
    requires forall k :: 0 <= k < |es| ==> Offered(es[k], len)
    ensures 0 <= ApplyAll(current, len, es) < len
    decreases |es|
  {
    if |es| > 0 {
      CurrentStaysInRange(Apply(current, len, es[0]), len, es[1..]);
    }
  }

  /**
   * The component: `null` for an empty list, else the current slide. An
   * absent `section.slides` makes `section.slides.length` throw (there is no
   * `|| []`), and so does an index outside the list at
   * `slides[currentSlide].title`.
   */
  function Render<T>(slides: Option<seq<T>>, current: int): (v: View<T>)
    ensures slides.None? ==> v.Fails?
    ensures v.Hidden? <==> slides == Some([])
    ensures v.Shows? <==> slides.Some? && 0 <= current < |slides.value|
    ensures v.Shows? ==> v.item == slides.value[current]
  {
    match slides
    case None => Fails
    case Some(ss) =>
      if |ss| == 0 then Hidden
      else if 0 <= current < |ss| then Shows(ss[current])
      else Fails
  }

  /** From slide 0, with the list present, any run of ticks and dot clicks leaves a slide to render. */
  lemma AlwaysRenders<T>(slides: seq<T>, es: seq<Event>)
    requires |slides| > 0
    requires forall k :: 0 <= k < |es| ==> Offered(es[k], |slides|)
    ensures 0 <= ApplyAll(0, |slides|, es) < |slides|
    ensures Render(Some(slides), ApplyAll(0, |slides|, es)).Shows?
  {
    CurrentStaysInRange(0, |slides|, es);
  }
}
