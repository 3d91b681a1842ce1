/**
 * The `Gallery` object: the fields that `goTo`, `play`, `pause`, `resume` and the
 * image-load handler update in place. Each method performs the source's steps on
 * the fields and is proved to yield the `Navigation` function of the old state,
 * so every lemma proved there holds of the object.
 */
module GalleryWidget {
  import opened Wrappers
  import opened Display
  import opened Navigation
  import ThumbReel

  class Gallery {
    const images: seq<Image>
    const loop: bool                 // options.loop
    var index: Option<nat>
    var current: Option<Elem>
    var previous: seq<Elem>          // a stack: push appends, pop takes the last element
    var timer: Timer
    var attached: set<Elem>          // the elements whose load and error handlers are attached
    var listeners: seq<Elem>         // the `change` listeners _renderImage registered, by the element each detaches
    var emitted: seq<nat>            // `change` events triggered so far
    var view: View                   // prev/next buttons and thumbnail highlights
    var caption: Option<nat>         // image described by the caption panel
    var fading: seq<Elem>            // elements whose fade-out-and-remove has started

    /** The object's fields as a navigation state. */
    function Snapshot(): State
      reads this
    {
      State(images, loop, index, current, previous, timer, attached, listeners, emitted, view, caption, fading)
    }

    ghost predicate Valid()
      reads this
    {
      Inv(Snapshot())
    }

    /** `new Gallery(options)` followed by `.images(images)`. */
    constructor (images: seq<Image>, loop: bool)
      ensures Valid()
      ensures Snapshot() == Init(images, loop)
    {
      this.images := images;
      this.loop := loop;
      index := None;
      current := None;
      previous := [];
      timer := Stopped;
      attached := {};
      listeners := [];
      emitted := [];
      view := Initial(|images|);
      caption := None;
      fading := [];
      new;
      InitInv(images, loop);
    }

    /** `goTo(k, pause)`. */
    method GoTo(k: int, pause: bool)
      requires Valid()
      modifies this
      ensures Valid()
      ensures Snapshot() == Navigation.GoTo(old(Snapshot()), k, pause)
    {
      GoToInv(Snapshot(), k, pause);
      if pause {
        timer := Stopped;
      }
      var target := k;
      if target == |images| && loop {
        target := 0;
      }
      if target < 0 || target >= |images| || (index.Some? && index.value == target) {
        return;
      }
      Accept(target);
    }

    /** The rest of `goTo` once `target` is accepted: the `change` event, then `_renderImage(target)`. */
    method Accept(target: nat)
      modifies this
      ensures Snapshot() == Navigation.Accept(old(Snapshot()), target)
    {
      // trigger('change', target): the listeners update the controls and the
      // thumbnails, and each registered listener detaches its element's handlers
      var detached := Detach(attached, listeners);
      var pushed := if current.Some? then previous + [current.value] else previous;
      // _renderImage: a new element for `target`, its handlers attached and its own listener registered
      var e := Elem(|listeners|, target);
      emitted, view, previous, attached, listeners, index :=
        emitted + [target], OnChange(target, |images|), pushed, detached + {e}, listeners + [e], Some(target);
    }

    /** `next(pause)`. */
    method Next(pause: bool)
      requires Valid() && index.Some?
      modifies this
      ensures Valid()
      ensures Snapshot() == Navigation.Next(old(Snapshot()), pause)
    {
      GoTo(index.value + 1, pause);
    }

    /** `prev(pause)`. */
    method Prev(pause: bool)
      requires Valid() && index.Some?
      modifies this
      ensures Valid()
      ensures Snapshot() == Navigation.Prev(old(Snapshot()), pause)
    {
      GoTo(index.value - 1, pause);
    }

    /** `pause()`. */
    method Pause()
      requires Valid()
      modifies this
      ensures Valid()
      ensures Snapshot() == Navigation.Pause(old(Snapshot()))
    {
      timer := Stopped;
    }

    /** `resume()`: a new `next` timer, then `goTo(this.index)`. */
    method Resume()
      requires Valid()
      modifies this
      ensures Valid()
      ensures Snapshot() == Navigation.Resume(old(Snapshot()))
      ensures index == old(index) && timer == Resumed
    {
      timer := Resumed;
      match index
      case Some(i) => GoTo(i, false);
      case None => // goTo(undefined) returns: undefined === this.index
    }

    /** `play(k)`: a new wrapping timer, then `goTo(k || 0)`. */
    method Play(k: Option<int>)
      requires Valid()
      modifies this
      ensures Valid()
      ensures Snapshot() == Navigation.Play(old(Snapshot()), k)
      ensures timer == Playing
    {
      timer := Playing;
      GoTo(k.GetOr(0), false);
    }

    /** One tick of the running interval. */
    method Tick()
      requires Valid() && timer != Stopped && index.Some?
      modifies this
      ensures Valid()
      ensures Snapshot() == Navigation.Tick(old(Snapshot()))
    {
      if timer == Playing && index.value == |images| - 1 {
        GoTo(0, false);
      } else {
        Next(false);
      }
    }

    /** The load or error handler of element `e`, as `_renderImage` binds it: both events run `handleLoad`, so `outcome` is not read. */
    method HandleLoad(e: Elem, outcome: Outcome)
      requires Valid()
      modifies this
      ensures Valid()
      ensures Snapshot() == LoadDone(old(Snapshot()), e, outcome)
    {
      LoadDoneInv(Snapshot(), e, outcome);
      if e in attached {
        current := Some(e);
        attached := attached - {e};
        ShowNextImage();
      }
    }

    /** `_showNextImage`. */
    method ShowNextImage()
      modifies this
      ensures Snapshot() == Navigation.ShowNextImage(old(Snapshot()))
    {
      caption := index;
      ClearPrevious();
    }

    /** `_clearPrevious`: pop the stack until it is empty, fading out each element popped. */
    method ClearPrevious()
      modifies this
      ensures Snapshot() == Navigation.ClearPrevious(old(Snapshot()))
    {
      while |previous| > 0
        invariant fading + PopOrder(previous) == old(fading) + PopOrder(old(previous))
        invariant Snapshot() == old(Snapshot()).(previous := previous, fading := fading)
        decreases |previous|
      {
        var top := previous[|previous| - 1];
        assert PopOrder(previous) == [top] + PopOrder(previous[..|previous| - 1]);
        previous := previous[..|previous| - 1];
        fading := fading + [top];
      }
    }

    /** A click on the thumb reel's right button: pause, then the scroll target, if any. */
    method ClickReelRight(left: int, lastLeft: int, lastWidth: int, viewport: int) returns (target: Option<int>)
      requires Valid()
      modifies this
      ensures Valid()
      ensures Snapshot() == Navigation.Pause(old(Snapshot()))
      ensures target == ThumbReel.ScrollRight(left, lastLeft, lastWidth, viewport)
    {
      timer := Stopped;
      target := ThumbReel.ScrollRight(left, lastLeft, lastWidth, viewport);
    }

    /** A click on the thumb reel's left button: pause, then the scroll target. */
    method ClickReelLeft(left: int, viewport: int) returns (target: int)
      requires Valid()
      modifies this
      ensures Valid()
      ensures Snapshot() == Navigation.Pause(old(Snapshot()))
      ensures target == ThumbReel.ScrollLeft(left, viewport)
    {
      timer := Stopped;
      target := ThumbReel.ScrollLeft(left, viewport);
    }
  }
}
