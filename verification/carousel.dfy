/**
  The home-page carousel (`Home`): an active index over the list of popular
  movies, moved by the arrow buttons, by the indicator dots and by a periodic
  auto-advance. Only the index arithmetic is modelled; the timer is a `Tick` event.
 */
module Carousel {

  /** `(i + 1) % n`: the slide after `i`, wrapping to 0 after the last one. */
  function NextSlide(i: int, n: int): (r: int)
    requires n > 0 && i >= 0
    ensures 0 <= r < n
    ensures i < n - 1 ==> r == i + 1
    ensures i == n - 1 ==> r == 0
  {
    (i + 1) % n
  }

  /** `(i - 1 + n) % n`: the slide before `i`, wrapping to the last one before 0. */
  function PrevSlide(i: int, n: int): (r: int)
    requires n > 0 && i >= 0
    ensures 0 <= r < n
    ensures 0 < i < n ==> r == i - 1
    ensures i == 0 ==> r == n - 1
  {
    (i - 1 + n) % n
  }

  /** Back and forth: `prevSlide` undoes `nextSlide` and vice versa. */
  lemma NextPrevInverse(i: int, n: int)
    requires n > 0 && 0 <= i < n
    ensures PrevSlide(NextSlide(i, n), n) == i
    ensures NextSlide(PrevSlide(i, n), n) == i
  {
  }

  /** `k` steps forward from `i`. */
  function Advance(i: int, n: int, k: nat): (r: int)
    requires n > 0 && i >= 0
    ensures 0 <= r < n
  {
    if k == 0 then i % n else NextSlide(Advance(i, n, k - 1), n)
  }

  /** Euclidean division is unique: a decomposition `q * n + r` with `0 <= r < n` gives the remainder. */
  lemma ModUnique(x: int, n: int, q: int, r: int)
    requires n > 0 && 0 <= r < n && x == q * n + r
    ensures x % n == r
  {
    var d := q - x / n;
    assert d * n == x % n - r by {
      assert x == (x / n) * n + x % n;
      assert d * n == q * n - (x / n) * n;
    }
  }

  /** One step forward from `x % n` is `(x + 1) % n`. */
  lemma NextOfMod(x: int, n: int)
    requires n > 0 && x >= 0
    ensures NextSlide(x % n, n) == (x + 1) % n
  {
    var a := x % n;
    var q := x / n;
    assert x == q * n + a;
    if a + 1 < n {
      ModUnique(x + 1, n, q, a + 1);
      ModUnique(a + 1, n, 0, a + 1);
    } else {
      assert x + 1 == (q + 1) * n + 0;
      ModUnique(x + 1, n, q + 1, 0);
      ModUnique(a + 1, n, 1, 0);
    }
  }

  /** `k` steps forward land on `(i + k) % n`; in particular `n` steps come back to the start. */
  lemma {:induction false} AdvanceIsModular(i: int, n: int, k: nat)
    requires n > 0 && 0 <= i < n
    ensures Advance(i, n, k) == (i + k) % n
  {
    if k > 0 {
      AdvanceIsModular(i, n, k - 1);
      NextOfMod(i + k - 1, n);
    }
  }

  /** A full round of auto-advances shows the starting slide again. */
  lemma FullRoundReturns(i: int, n: int)
    requires n > 0 && 0 <= i < n
    ensures Advance(i, n, n) == i
  {
    AdvanceIsModular(i, n, n);
    ModUnique(i + n, n, 1, i);
  }

  /**
    The active index as JavaScript holds it: a slide number, or `NaN`, which
    `(i + 1) % 0` and `(i - 1 + 0) % 0` produce when an arrow is clicked before
    any movie is loaded. With a `NaN` index `movies[activeIndex]` is undefined
    and no slide is shown.
   */
  datatype SlideIndex = At(slide: nat) | NaN

  /** The carousel: how many movies were loaded, and which one is shown. */
  datatype CarouselState = CarouselState(count: nat, activeIndex: SlideIndex)

  /** A numeric index names a loaded movie, or is 0 while none are loaded. */
  predicate Valid(st: CarouselState) {
    st.activeIndex.At? ==>
      if st.count == 0 then st.activeIndex.slide == 0 else st.activeIndex.slide < st.count
  }

  /** Whether a movie is shown: the index is a number naming a loaded movie. */
  predicate ShowsSlide(st: CarouselState) {
    st.activeIndex.At? && st.activeIndex.slide < st.count
  }

  /** What can move the carousel. `Tick` is one firing of the auto-advance interval. */
  datatype CarouselEvent = Next | Prev | Indicator(index: nat) | Tick

  /** Whether the auto-advance interval is running: only once movies are loaded. */
  predicate AutoAdvanceScheduled(st: CarouselState) {
    st.count > 0
  }

  /** An arrow step on the index: `NaN` stays `NaN`, and any step over no movies gives `NaN`. */
  function Step(ix: SlideIndex, count: nat, forward: bool): (r: SlideIndex)
    requires ix.At? && count > 0 ==> ix.slide < count
    ensures ix.NaN? || count == 0 <==> r.NaN?
    ensures r.At? ==> r.slide < count
    ensures ix.At? && count > 0 ==>
              r == At(if forward then NextSlide(ix.slide, count) else PrevSlide(ix.slide, count))
  {
    match ix
    case NaN => NaN
    case At(i) =>
      if count == 0 then NaN
      else if forward then At(NextSlide(i, count))
      else At(PrevSlide(i, count))
  }

  /**
    The arrows step the index; the interval, which exists only while movies are
    loaded, steps it forward; an indicator dot, which exists only for loaded
    movies, selects its own position.
   */
  function Handle(st: CarouselState, ev: CarouselEvent): (r: CarouselState)
    requires Valid(st)
    requires ev.Indicator? ==> ev.index < st.count
    ensures Valid(r) && r.count == st.count
    ensures ev.Indicator? ==> r.activeIndex == At(ev.index)
    ensures ev.Tick? && !AutoAdvanceScheduled(st) ==> r == st
    ensures st.count == 0 && (ev.Next? || ev.Prev?) ==> r.activeIndex == NaN
    ensures st.activeIndex.NaN? && !ev.Indicator? ==> r.activeIndex == NaN
    ensures st.count > 0 && st.activeIndex.At? && (ev.Next? || ev.Tick?) ==>
              r.activeIndex == At(NextSlide(st.activeIndex.slide, st.count))
    ensures st.count > 0 && st.activeIndex.At? && ev.Prev? ==>
              r.activeIndex == At(PrevSlide(st.activeIndex.slide, st.count))
  {
    match ev
    case Next => st.(activeIndex := Step(st.activeIndex, st.count, true))
    case Prev => st.(activeIndex := Step(st.activeIndex, st.count, false))
    case Tick => if st.count == 0 then st else st.(activeIndex := Step(st.activeIndex, st.count, true))
    case Indicator(k) => st.(activeIndex := At(k))
  }

  /** The state on mount: nothing loaded, first slide. */
  const Mounted: CarouselState := CarouselState(0, At(0))

  /**
    The single load of the popular movies: the list is replaced and the index
    kept, so a fresh page starts at slide 0 and an index an early arrow turned
    into `NaN` stays `NaN`.
   */
  function LoadMovies(st: CarouselState, count: nat): (r: CarouselState)
    requires Valid(st) && st.count == 0
    ensures Valid(r) && r.count == count && r.activeIndex == st.activeIndex
    ensures st.activeIndex.At? ==> r.activeIndex == At(0)
    ensures AutoAdvanceScheduled(r) <==> count > 0
  {
    st.(count := count)
  }

  /** No indicator event in the list. */
  predicate NoIndicator(events: seq<CarouselEvent>) {
    forall i :: 0 <= i < |events| ==> !events[i].Indicator?
  }

  /** Every sequence of events keeps a numeric index valid. */
  function Run(st: CarouselState, events: seq<CarouselEvent>): (r: CarouselState)
    requires Valid(st)
    requires forall i :: 0 <= i < |events| && events[i].Indicator? ==> events[i].index < st.count
    ensures Valid(r) && r.count == st.count
    decreases |events|
  {
    if events == [] then st
    else
      var next := Handle(st, events[0]);
      assert forall i :: 0 <= i < |events[1..]| ==> events[1..][i] == events[i + 1];
      Run(next, events[1..])
  }

  /** Once the index is `NaN`, arrows and ticks keep it `NaN`: only an indicator click brings a slide back. */
  lemma {:induction false} NaNPersists(st: CarouselState, events: seq<CarouselEvent>)
    requires Valid(st) && st.activeIndex.NaN? && NoIndicator(events)
    ensures Run(st, events).activeIndex == NaN
    decreases |events|
  {
    if events != [] {
      assert NoIndicator(events[1..]) by {
        assert forall i :: 0 <= i < |events[1..]| ==> events[1..][i] == events[i + 1];
      }
      NaNPersists(Handle(st, events[0]), events[1..]);
    }
  }

  /** With movies loaded and a slide shown, every sequence of events keeps a slide shown. */
  lemma {:induction false} SlideStaysShown(st: CarouselState, events: seq<CarouselEvent>)
    requires Valid(st) && ShowsSlide(st)
    requires forall i :: 0 <= i < |events| && events[i].Indicator? ==> events[i].index < st.count
    ensures ShowsSlide(Run(st, events))
    decreases |events|
  {
    if events != [] {
      assert forall i :: 0 <= i < |events[1..]| ==> events[1..][i] == events[i + 1];
      SlideStaysShown(Handle(st, events[0]), events[1..]);
    }
  }

  /** Reducing the start modulo `n` first does not change where `b` steps land. */
  lemma ModShift(a: int, b: int, n: int)
    requires n > 0 && a >= 0 && b >= 0
    ensures (a % n + b) % n == (a + b) % n
  {
    ModUnique(a + b, n, a / n + (a % n + b) / n, (a % n + b) % n);
  }

  /**
    `k` firings of the auto-advance interval, fed through `Run`, land on
    `(i + k) % n` and change nothing else.
   */
  lemma {:induction false} TicksAdvance(st: CarouselState, k: nat)
    requires Valid(st) && ShowsSlide(st)
    ensures Run(st, seq(k, _ => Tick)) == st.(activeIndex := At((st.activeIndex.slide + k) % st.count))
    decreases k
  {
    var i, n := st.activeIndex.slide, st.count;
    var ticks := seq(k, _ => Tick);
    if k == 0 {
      ModUnique(i, n, 0, i);
    } else {
      var next := Handle(st, Tick);
      assert ticks[1..] == seq(k - 1, _ => Tick);
      TicksAdvance(next, k - 1);
      ModShift(i + 1, k - 1, n);
    }
  }

  /** An arrow clicked before the movies arrive leaves no slide shown after they are loaded. */
  lemma EarlyArrowHidesCarousel(count: nat, ev: CarouselEvent)
    requires ev.Next? || ev.Prev?
    ensures !ShowsSlide(LoadMovies(Handle(Mounted, ev), count))
  {
  }

  /** Without an early arrow click, loading at least one movie shows the first slide. */
  lemma LoadShowsFirstSlide(count: nat)
    requires count > 0
    ensures ShowsSlide(LoadMovies(Mounted, count))
    ensures LoadMovies(Mounted, count).activeIndex == At(0)
  {
  }
}
