/**
 * The navigation state machine of a `Gallery`, abstracted away from the DOM.
 *
 * A `State` holds what `goTo`, `play`, `pause`, `resume` and the image-load
 * handler read and write: the index shown, the displayed element, the stack of
 * outgoing elements, the autoplay timer, the image elements whose load and error
 * handlers are attached and the `change` listeners that detach them.
 * Every operation is a function from the old state to the new one; the class
 * `GalleryWidget.Gallery` runs the same steps on fields and is proved equal to
 * these functions.
 */
module Navigation {
  import opened Wrappers
  import opened Display

  /**
   * An image element created by `_renderImage`: `request` numbers the element
   * (each `new Image()` is a distinct object; the n-th one created has number n),
   * `image` is the index it shows.
   */
  datatype Elem = Elem(request: nat, image: nat)

  /**
   * The autoplay interval: cleared, the one `play` installs (it wraps from the
   * last image to the first on its own) or the one `resume` installs (plain `next`).
   */
  datatype Timer = Stopped | Playing | Resumed

  /** Which browser event ended an image load; both are bound to the same handler. */
  datatype Outcome = Loaded | Failed

  datatype State = State(
    images: seq<Image>,     // the images loaded by images(); n is |images|
    loop: bool,             // options.loop (not the unrelated field this.loop)
    index: Option<nat>,     // this.index, undefined until the first goTo that passes the guard
    current: Option<Elem>,  // this.current, set only by the load handler
    previous: seq<Elem>,    // this.previous, a stack: the last element is the top
    timer: Timer,           // this.interval
    attached: set<Elem>,    // the elements whose load and error handlers are still attached
    listeners: seq<Elem>,   // the `change` listeners _renderImage registered, in order, by the element each detaches
    emitted: seq<nat>,      // the `change` events triggered so far, in order
    view: View,             // buttons and thumbnails as the `change` listeners left them
    caption: Option<nat>,   // the image the caption panel describes
    fading: seq<Elem>       // elements whose fade-out-and-remove has started, in order
  )

  /** A gallery constructed with `options.loop == loop` and given `images`. */
  function Init(images: seq<Image>, loop: bool): State
  {
    State(images, loop, None, None, [], Stopped, {}, [], [], Initial(|images|), None, [])
  }

  /** The order in which a `while (length) pop()` loop visits a stack: top first. */
  function PopOrder<T>(stack: seq<T>): seq<T>
  {
    if stack == [] then []
    else [stack[|stack| - 1]] + PopOrder(stack[..|stack| - 1])
  }

  /** Draining the stack visits every element exactly once, from the top down. */
  lemma {:induction false} PopOrderReverses<T>(stack: seq<T>)
    ensures |PopOrder(stack)| == |stack|
    ensures forall j :: 0 <= j < |stack| ==> PopOrder(stack)[j] == stack[|stack| - 1 - j]
    ensures multiset(PopOrder(stack)) == multiset(stack)
  {
    if stack != [] {
      var rest := stack[..|stack| - 1];
      PopOrderReverses(rest);
      assert stack == rest + [stack[|stack| - 1]];
    }
  }

  // ---------------------------------------------------------------------------
  // goTo and the operations built on it

  /** goTo's wrap adjustment: asking for image n means image 0 when options.loop is set. */
  function Wrapped(s: State, k: int): int
  {
    if k == |s.images| && s.loop then 0 else k
  }

  /** goTo's guard: out of range, or the image already selected, returns silently. */
  predicate Ignored(s: State, k: int)
  {
    k < 0 || k >= |s.images| || (s.index.Some? && s.index.value == k)
  }

  /**
   * A `change` event reaching the listeners `_renderImage` registered, in the order
   * they were registered: each one detaches the load and error handlers of its own
   * element. Afterwards no element with a registered listener has handlers attached.
   */
  function Detach(attached: set<Elem>, listeners: seq<Elem>): (r: set<Elem>)
    ensures r == attached - (set e | e in listeners)
    decreases |listeners|
  {
    if listeners == [] then attached
    else
      var r := Detach(attached - {listeners[0]}, listeners[1..]);
      assert listeners == [listeners[0]] + listeners[1..];
      r
  }

  /**
   * The part of goTo past the guard, for an accepted `target`: trigger `change(target)`
   * (the view follows `target` and every registered listener detaches its element's
   * handlers), push the displayed element if there is one, and `_renderImage(target)`:
   * a new element with its handlers attached and its own `change` listener
   * registered. Finally record `target` as the index. The displayed element itself
   * is not changed here.
   */
  function Accept(s: State, target: nat): State
  {
    var e := Elem(|s.listeners|, target);
    s.(emitted := s.emitted + [target],
       view := OnChange(target, |s.images|),
       previous := if s.current.Some? then s.previous + [s.current.value] else s.previous,
       attached := Detach(s.attached, s.listeners) + {e},
       listeners := s.listeners + [e],
       index := Some(target))
  }

  /** goTo(k, pause): clear the timer if asked, wrap, and return silently or accept. */
  function GoTo(s: State, k: int, pause: bool): State
  {
    var s' := if pause then s.(timer := Stopped) else s;
    var target := Wrapped(s, k);
    if Ignored(s, target) then s' else Accept(s', target)
  }

  /** next(pause) is goTo(index + 1, pause); the source leaves it unguarded before the first goTo. */
  function Next(s: State, pause: bool): State
    requires s.index.Some?
  {
    GoTo(s, s.index.value + 1, pause)
  }

  /** prev(pause) is goTo(index - 1, pause). */
  function Prev(s: State, pause: bool): State
    requires s.index.Some?
  {
    GoTo(s, s.index.value - 1, pause)
  }

  /** pause() clears the autoplay timer. */
  function Pause(s: State): State
  {
    s.(timer := Stopped)
  }

  /**
   * resume() installs a timer that calls next() and then calls goTo(this.index).
   * Before the first goTo that is goTo(undefined), which the guard rejects because
   * undefined === undefined.
   */
  function Resume(s: State): State
  {
    var s' := s.(timer := Resumed);
    if s.index.None? then s' else GoTo(s', s.index.value, false)
  }

  /** play(k) installs the wrapping timer and then calls goTo(k || 0). */
  function Play(s: State, k: Option<int>): State
  {
    GoTo(s.(timer := Playing), k.GetOr(0), false)
  }

  /**
   * One tick of the running timer. `play`'s tick goes to image 0 from the last
   * image and calls next() otherwise; `resume`'s tick always calls next(), so it
   * wraps only when options.loop is set and otherwise stays on the last image.
   */
  function Tick(s: State): (t: State)
    requires s.timer != Stopped && s.index.Some? && s.index.value < |s.images|
    ensures t.images == s.images && t.loop == s.loop && t.timer == s.timer
    ensures t.index.Some? && t.index.value < |t.images|
    ensures s.timer == Playing || s.loop ==>
              t.index == Some(if s.index.value + 1 < |s.images| then s.index.value + 1 else 0)
    ensures s.timer == Resumed && !s.loop ==>
              t.index == Some(if s.index.value + 1 < |s.images| then s.index.value + 1 else s.index.value)
  {
    if s.timer == Playing && s.index.value == |s.images| - 1 then GoTo(s, 0, false)
    else Next(s, false)
  }

  /** m successive ticks of the running timer. */
  function Ticks(s: State, m: nat): (t: State)
    requires s.timer != Stopped && s.index.Some? && s.index.value < |s.images|
    ensures t.images == s.images && t.loop == s.loop && t.timer == s.timer
    ensures t.index.Some? && t.index.value < |t.images|
    decreases m
  {
    if m == 0 then s else Ticks(Tick(s), m - 1)
  }

  // ---------------------------------------------------------------------------
  // Image load completion

  /** _clearPrevious: pop every element off the stack and start its fade-out and removal. */
  function ClearPrevious(s: State): State
  {
    s.(previous := [], fading := s.fading + PopOrder(s.previous))
  }

  /** _showNextImage: show this.current, write the caption for this.index, clear the stack. */
  function ShowNextImage(s: State): State
  {
    ClearPrevious(s.(caption := s.index))
  }

  /**
   * The load (or error) event of element `e`. Only an element whose handlers are
   * still attached reacts: it becomes this.current and _showNextImage runs. An
   * image fires one such event, so it awaits nothing afterwards. `_renderImage`
   * binds both `load` and `error` to the same `handleLoad`, so `outcome` is never
   * consulted.
   */
  function LoadDone(s: State, e: Elem, outcome: Outcome): State
  {
    if e in s.attached then ShowNextImage(s.(current := Some(e), attached := s.attached - {e}))
    else s
  }

  // ---------------------------------------------------------------------------
  // The invariant of every reachable state

  ghost predicate Inv(s: State)
  {
    var n := |s.images|;
    // the index is in range and is the last change emitted
    && (s.index.Some? ==> s.index.value < n)
    && (s.index.None? <==> s.emitted == [])
    && (s.index.Some? ==> s.emitted[|s.emitted| - 1] == s.index.value)
    && (forall j :: 0 <= j < |s.emitted| ==> s.emitted[j] < n)
    // one listener per accepted goTo, detaching the element that goTo created
    && |s.listeners| == |s.emitted|
    && (forall j :: 0 <= j < |s.listeners| ==> s.listeners[j] == Elem(j, s.emitted[j]))
    // the buttons and thumbnails show the current index
    && s.view == (if s.index.Some? then OnChange(s.index.value, n) else Initial(n))
    // handlers stay attached on no element but the one the latest goTo created
    && (forall e :: e in s.attached ==> |s.listeners| > 0 && e == s.listeners[|s.listeners| - 1])
    // the displayed element is one the gallery created, and the caption describes it
    && (s.current.Some? ==> s.index.Some? && s.current.value.image < n && s.current.value in s.listeners)
    && s.caption == (if s.current.Some? then Some(s.current.value.image) else None)
    // the stack holds nothing but copies of the displayed element
    && (forall e :: e in s.previous ==> s.current == Some(e))
  }

  lemma InitInv(images: seq<Image>, loop: bool)
    ensures Inv(Init(images, loop))
  {
  }

  lemma AcceptInv(s: State, target: nat)
    requires Inv(s) && !Ignored(s, target)
    ensures Inv(Accept(s, target))
  {
    var t := Accept(s, target);
    var e := Elem(|s.listeners|, target);
    assert t.attached == {e};
  }

  lemma GoToInv(s: State, k: int, pause: bool)
    requires Inv(s)
    ensures Inv(GoTo(s, k, pause))
  {
    var s' := if pause then s.(timer := Stopped) else s;
    assert Inv(s');
    if !Ignored(s, Wrapped(s, k)) {
      AcceptInv(s', Wrapped(s, k));
    }
  }

  lemma PauseInv(s: State)
    requires Inv(s)
    ensures Inv(Pause(s))
  {
  }

  lemma ResumeInv(s: State)
    requires Inv(s)
    ensures Inv(Resume(s))
  {
  }

  lemma PlayInv(s: State, k: Option<int>)
    requires Inv(s)
    ensures Inv(Play(s, k))
  {
    GoToInv(s.(timer := Playing), k.GetOr(0), false);
  }

  lemma LoadDoneInv(s: State, e: Elem, outcome: Outcome)
    requires Inv(s)
    ensures Inv(LoadDone(s, e, outcome))
  {
  }

  // ---------------------------------------------------------------------------
  // Properties of goTo

  /** A request the guard rejects changes nothing except, when asked, the timer; no change is emitted. */
  lemma GoToIgnored(s: State, k: int, pause: bool)
    requires Ignored(s, Wrapped(s, k))
    ensures GoTo(s, k, pause) == if pause then Pause(s) else s
  {
  }

  /** Asking for image n is asking for image 0 under options.loop, and is ignored otherwise. */
  lemma GoToPastEnd(s: State, pause: bool)
    ensures s.loop ==> GoTo(s, |s.images|, pause) == GoTo(s, 0, pause)
    ensures !s.loop ==> GoTo(s, |s.images|, pause) == if pause then Pause(s) else s
  {
  }

  /**
   * A request the guard accepts selects image k, emits exactly change(k), pushes
   * the displayed element iff there is one, detaches every element created before,
   * starts a new element for k with its own listener, and leaves the displayed
   * element and the caption alone until the load completes.
   */
  lemma GoToAccepted(s: State, k: int, pause: bool)
    requires !Ignored(s, Wrapped(s, k))
    ensures var t := GoTo(s, k, pause);
      && t.index == Some(Wrapped(s, k))
      && t.emitted == s.emitted + [Wrapped(s, k)]
      && t.view == OnChange(Wrapped(s, k), |s.images|)
      && (s.current.Some? ==> t.previous == s.previous + [s.current.value])
      && (s.current.None? ==> t.previous == s.previous)
      && t.current == s.current && t.caption == s.caption && t.fading == s.fading
      && t.listeners == s.listeners + [Elem(|s.listeners|, Wrapped(s, k))]
      && Elem(|s.listeners|, Wrapped(s, k)) in t.attached
      && (forall e :: e in s.listeners && e.request != |s.listeners| ==> e !in t.attached)
      && t.timer == (if pause then Stopped else s.timer)
  {
  }

  /**
   * In a reachable state an accepted goTo leaves exactly one element awaiting its
   * load: the one it created. Every earlier element's listener has detached it.
   */
  lemma AcceptedGoToAwaitsOnlyItsElement(s: State, k: int, pause: bool)
    requires Inv(s) && !Ignored(s, Wrapped(s, k))
    ensures GoTo(s, k, pause).attached == {Elem(|s.listeners|, Wrapped(s, k))}
  {
  }

  /** With pause, goTo always clears the timer, accepted or not; without it the timer is untouched. */
  lemma GoToTimer(s: State, k: int, pause: bool)
    ensures GoTo(s, k, pause).timer == if pause then Stopped else s.timer
  {
  }

  /** resume() only restarts the timer: its goTo(this.index) is always rejected. */
  lemma ResumeOnlyRestartsTimer(s: State)
    requires s.index.Some? ==> s.index.value < |s.images|
    ensures Resume(s) == s.(timer := Resumed)
  {
  }

  /** play(k) is goTo(k || 0) with the wrapping timer running afterwards. */
  lemma PlayIsGoTo(s: State, k: Option<int>)
    ensures Play(s, k) == GoTo(s, k.GetOr(0), false).(timer := Playing)
  {
  }

  /** The next and prev buttons are disabled exactly where next() and prev() would do nothing. */
  lemma ControlsMatchNavigation(s: State)
    requires Inv(s) && s.index.Some?
    ensures s.view.prevDisabled <==> Prev(s, false) == s
    ensures s.view.nextDisabled && (!s.loop || |s.images| == 1) <==> Next(s, false) == s
  {
    var i, n := s.index.value, |s.images|;
    if i != 0 {
      assert Prev(s, false).index == Some(i - 1);
    }
    if !(i == n - 1 && (!s.loop || n == 1)) {
      assert Next(s, false).index != s.index;
    }
  }

  /** Exactly one thumbnail is highlighted once an image is selected: the selected one. */
  lemma OneThumbnailSelected(s: State)
    requires Inv(s) && s.index.Some?
    ensures CountSelected(s.view.selected) == 1
    ensures |s.view.selected| == |s.images| && s.view.selected[s.index.value]
  {
  }

  // ---------------------------------------------------------------------------
  // Autoplay

  /** Euclidean remainder is determined by any quotient-remainder decomposition. */
  lemma ModUnique(x: int, q: int, r: int, n: int)
    requires n > 0 && 0 <= r < n && x == q * n + r
    ensures x % n == r
  {
    var q', r' := x / n, x % n;
    assert x == q' * n + r';
    assert (q - q') * n == r' - r;
    if q - q' >= 1 {
      assert false;
    } else if q - q' <= -1 {
      assert false;
    }
  }

  /** Stepping to the next position with wrap-around, then m more steps modulo n, is m + 1 steps modulo n. */
  lemma ModSucc(i: nat, m: nat, n: nat)
    requires i < n
    ensures ((if i + 1 < n then i + 1 else 0) + m) % n == (i + 1 + m) % n
  {
    if i + 1 == n {
      ModUnique(n + m, m / n + 1, m % n, n);
    }
  }

  /** `play`'s timer (and `resume`'s under options.loop) runs through the images in order, round and round. */
  lemma {:induction false} AutoplayCycles(s: State, m: nat)
    requires s.timer != Stopped && s.index.Some? && s.index.value < |s.images|
    requires s.timer == Playing || s.loop
    ensures Ticks(s, m).index == Some((s.index.value + m) % |s.images|)
    decreases m
  {
    if m == 0 {
      ModUnique(s.index.value, 0, s.index.value, |s.images|);
    } else {
      AutoplayCycles(Tick(s), m - 1);
      ModSucc(s.index.value, m - 1, |s.images|);
    }
  }

  /** `resume`'s timer without options.loop advances to the last image and stays there. */
  lemma {:induction false} ResumedAutoplayStops(s: State, m: nat)
    requires s.timer == Resumed && !s.loop && s.index.Some? && s.index.value < |s.images|
    ensures var i := s.index.value + m;
      Ticks(s, m).index == Some(if i < |s.images| then i else |s.images| - 1)
    decreases m
  {
    if m > 0 {
      ResumedAutoplayStops(Tick(s), m - 1);
    }
  }

  // ---------------------------------------------------------------------------
  // Image loads

  /**
   * However many listeners have been registered, at most one element has its
   * handlers attached: the one the latest accepted goTo created, for the index.
   */
  lemma AtMostOneAttached(s: State)
    requires Inv(s)
    ensures |s.attached| <= 1
    ensures forall e :: e in s.attached ==> e.request + 1 == |s.listeners| && s.index == Some(e.image)
  {
    if s.attached != {} {
      var e :| e in s.attached;
      assert s.attached == {e};
    }
  }

  /** Only the element the latest accepted goTo created can complete; any other event is ignored. */
  lemma OnlyLatestLoadCompletes(s: State, e: Elem, outcome: Outcome)
    requires Inv(s)
    ensures LoadDone(s, e, outcome) != s ==> e in s.attached && e.request + 1 == |s.listeners| && s.index == Some(e.image)
  {
  }

  /** An accepted goTo makes the load of every element created before it stale. */
  lemma StaleLoadIgnored(s: State, k: int, pause: bool, e: Elem, outcome: Outcome)
    requires Inv(s) && !Ignored(s, Wrapped(s, k)) && e.request < |s.listeners|
    ensures LoadDone(GoTo(s, k, pause), e, outcome) == GoTo(s, k, pause)
  {
  }

  /** A failed load completes exactly like a successful one. */
  lemma ErrorCompletesLikeLoad(s: State, e: Elem)
    ensures LoadDone(s, e, Failed) == LoadDone(s, e, Loaded)
  {
  }

  /**
   * Completing the awaited load displays its element, describes the selected
   * image in the caption and empties the stack, fading out every stacked element
   * once, top first.
   */
  lemma {:induction false} LoadCompletes(s: State, e: Elem, outcome: Outcome)
    requires e in s.attached
    ensures var t := LoadDone(s, e, outcome);
      && t.current == Some(e) && t.attached == s.attached - {e} && t.previous == []
      && t.view == s.view && t.emitted == s.emitted && t.images == s.images && t.listeners == s.listeners
      && t.caption == s.index && t.index == s.index && t.timer == s.timer
      && |t.fading| == |s.fading| + |s.previous|
      && t.fading[..|s.fading|] == s.fading
      && multiset(t.fading[|s.fading|..]) == multiset(s.previous)
      && forall j :: |s.fading| <= j < |t.fading| ==> t.fading[j] == s.previous[|s.fading| + |s.previous| - 1 - j]
  {
    PopOrderReverses(s.previous);
    var t := LoadDone(s, e, outcome);
    assert t.fading == s.fading + PopOrder(s.previous);
    assert t.fading[|s.fading|..] == PopOrder(s.previous);
  }

  /** In every reachable state the caption describes the displayed element's image, as in "i+1 of n". */
  lemma CaptionDescribesCurrent(s: State)
    requires Inv(s) && s.current.Some?
    ensures s.caption.Some? && s.caption.value < |s.images|
    ensures CaptionFor(s.images, s.caption.value).count == s.current.value.image + 1
    ensures CaptionFor(s.images, s.caption.value).text == s.images[s.current.value.image].caption
  {
  }
}
