# gallery.js navigation and thumb reel, in Dafny

`gallery.js` is a browser image gallery widget. It takes an ordered list of image
descriptors (full-size URL, thumbnail URL, caption, credit) and renders:

- a main viewing area;
- prev/next buttons;
- a caption panel reading "i of n";
- a scrollable reel of thumbnails.

It can also advance through the images on a timer. This project models the
widget's logic, leaving out its DOM work.

- **Navigation state machine** (`navigation.dfy`, module `Navigation`). A pure
  `State` holds:
  - the selected index, which is undefined until the first accepted `goTo`;
  - the displayed element;
  - the stack of outgoing elements;
  - the autoplay timer;
  - the image elements whose load and error handlers are still attached;
  - the `change` listeners that `_renderImage` registered to detach them;
  - the `change` events emitted so far;
  - the state of the controls and the caption.

  `goTo`, `next`, `prev`, `pause`, `resume`, `play`, one timer tick and the
  load/error handler are functions on `State`. Lemmas state the widget's
  promises about them, and an invariant shows that every reachable state keeps
  those promises.
- **The `Gallery` object** (`gallery.dfy`, class `GalleryWidget.Gallery`). It has the
  same fields, updated in place. Each method runs the source's steps and
  is proved to produce the `Navigation` function of the old state. Its `ClearPrevious`
  drains the stack with the source's `while`/`pop` loop.
- **The `change` listeners' outputs** (`display.dfy`, module `Display`). These are the
  prev/next `disabled` classes, the thumbnail `selected` classes and the caption
  panel's contents.
- **Thumb reel scroll arithmetic** (`thumb_reel.dfy`, module `ThumbReel`). This covers
  the right and left buttons, the auto-scroll on `change` and the `no-scroll` test,
  on integer pixel offsets.

Image elements are identified by `Elem(request, image)`. `request` numbers the
`new Image()` objects in creation order, and so stands for object identity.
Each `_renderImage` call does three things:

- attaches load and error handlers to its new element (`attached`);
- registers a `change` listener that detaches them again (`listeners`);
- never removes that listener.

Every later `change` therefore reaches every listener registered so far, and
each one detaches its own element (`Detach`). The invariant proves that no
element but the one the latest accepted `goTo` created still has handlers
attached.

`handleError` (`src/gallery.js:305-309`) passes a blank `new Image()` to
`callback`. That `callback` is `_showNextImage`, which ignores its argument and
shows `this.current`. Line 312 binds `error` to `handleLoad` instead, so
`handleError` is never called. A failed load
makes the broken element itself the displayed one, exactly as a successful load
does.

## Model

| member | source | states |
|---|---|---|
| Display.OnChange | src/gallery.js:268-279 | after `change(i)` prev is disabled iff `i == 0`, next iff `i == n-1`, thumbnail `j` is selected iff `j == i`, and exactly one thumbnail is selected when `i` is in range (none otherwise) |
| Display.CountOneHot | src/gallery.js:428-434 | a highlight pattern that marks exactly position `i` marks one thumbnail when `i` is in range and none otherwise |
| Display.Initial | src/gallery.js:250-265 | before any `change` there is one highlight slot per image, none selected (the thumbnails are built without `selected`, src/gallery.js:420-434) and neither button disabled |
| Display.CaptionFor | src/gallery.js:548-553 | the caption for image `i` carries that image's caption and credit and reads `i+1` of `n`; the count equals the total iff next is disabled, and is 1 iff prev is disabled |
| Navigation.Init | src/gallery.js:88-92 | the gallery as built (src/gallery.js:35-37) and given its images: no index, nothing displayed, an empty stack, no timer, no element or listener; `InitInv` proves it satisfies the invariant |
| Navigation.Wrapped | src/gallery.js:118-121 | `goTo`'s wrap: image `n` stands for image 0 under `options.loop`; `GoToPastEnd` states its effect |
| Navigation.Ignored | src/gallery.js:123-127 | `goTo`'s guard: out of range, or already the index; `GoToIgnored` proves such a request changes nothing |
| Navigation.Detach | src/gallery.js:314-317 | a `change` reaching every listener `_renderImage` registered, in order, leaves no element with a registered listener attached and every other element as it was |
| Navigation.Accept | src/gallery.js:129-143 | `goTo` past the guard; `GoToAccepted` and `AcceptInv` state what it does |
| Navigation.GoTo | src/gallery.js:114-146 | `goTo(k, pause)`; its properties are `GoToIgnored`, `GoToPastEnd`, `GoToAccepted`, `GoToTimer` and `GoToInv` |
| Navigation.Next | src/gallery.js:97-100 | `next(pause)` is `goTo(index + 1, pause)`; `ControlsMatchNavigation` relates it to the next button |
| Navigation.Prev | src/gallery.js:105-108 | `prev(pause)` is `goTo(index - 1, pause)`; `ControlsMatchNavigation` relates it to the prev button |
| Navigation.Pause | src/gallery.js:151-154 | `pause()` clears the timer and nothing else; `PauseInv` proves it keeps the invariant |
| Navigation.Resume | src/gallery.js:159-166 | `resume()`; `ResumeOnlyRestartsTimer` proves it only installs its timer |
| Navigation.Play | src/gallery.js:173-184 | `play(k)`; `PlayIsGoTo` proves it is `goTo(k or 0)` with `play`'s timer running |
| Navigation.LoadDone | src/gallery.js:292-317 | the load/error handler; `LoadCompletes`, `OnlyLatestLoadCompletes`, `StaleLoadIgnored` and `ErrorCompletesLikeLoad` state what it does |
| Navigation.ShowNextImage | src/gallery.js:524-559 | `_showNextImage`: the caption follows the index, then the stack is cleared; `LoadCompletes` states the result |
| Navigation.ClearPrevious | src/gallery.js:561-570 | `_clearPrevious`: the stack becomes empty and its elements start fading in pop order; `LoadCompletes` states the order |
| Navigation.PopOrder | src/gallery.js:563-568 | the order in which the `while`/`pop` loop visits the stack; `PopOrderReverses` states it |
| Navigation.PopOrderReverses | src/gallery.js:561-570 | draining the stack by repeated `pop` visits every element exactly once (same length, same multiset), top first |
| Navigation.InitInv | src/gallery.js:35-37 | the freshly built gallery satisfies the invariant |
| Navigation.AcceptInv | src/gallery.js:129-143 | the steps past the guard preserve the invariant, including that only the new element stays attached |
| Navigation.GoToInv | src/gallery.js:114-146 | `goTo` preserves the invariant: the index is in range and equals the last `change` emitted; the controls match the index; there is one listener per accepted `goTo`; only the latest element stays attached; the displayed element is one the gallery created; the caption describes it; the stack holds only the displayed element |
| Navigation.PauseInv | src/gallery.js:151-154 | `pause` preserves the invariant |
| Navigation.ResumeInv | src/gallery.js:159-166 | `resume` preserves the invariant |
| Navigation.PlayInv | src/gallery.js:173-184 | `play` preserves the invariant |
| Navigation.LoadDoneInv | src/gallery.js:292-317 | the load/error handler preserves the invariant |
| Navigation.GoToIgnored | src/gallery.js:123-127 | a request that the guard rejects after wrapping (out of range, or already the index) changes nothing (no `change`, same index, stack, displayed element, attached handlers) except clearing the timer when `pause` is set |
| Navigation.GoToPastEnd | src/gallery.js:118-121 | `goTo(n)` is `goTo(0)` when `options.loop` is set and a no-op (apart from `pause`) otherwise |
| Navigation.GoToAccepted | src/gallery.js:129-143 | an accepted `goTo(k)` does the following: <br>• sets the index to `k` and emits exactly `change(k)`; <br>• pushes the displayed element iff there is one; <br>• detaches every earlier element whose listener is registered; <br>• creates a new element for `k`, with its handlers attached and its listener registered; <br>• leaves the displayed element and the caption alone |
| Navigation.AcceptedGoToAwaitsOnlyItsElement | src/gallery.js:314-317 | in a reachable state, after an accepted `goTo` the new element is the only one with handlers attached |
| Navigation.GoToTimer | src/gallery.js:116 | `goTo(_, true)` always clears the timer, whether or not the request is accepted, and `goTo(_, false)` never touches it |
| Navigation.ResumeOnlyRestartsTimer | src/gallery.js:159-166 | `resume` only installs its timer: its `goTo(this.index)` is always rejected, so index, stack and display are unchanged |
| Navigation.PlayIsGoTo | src/gallery.js:173-184 | `play(k)` is `goTo(k or 0)` with `play`'s timer running |
| Navigation.Tick | src/gallery.js:175-181 | a tick keeps the index in `[0, n)`; `play`'s tick (and `resume`'s under `options.loop`) moves from `n-1` to 0 and otherwise to `index+1`; `resume`'s tick without `options.loop` stays at `n-1` |
| Navigation.Ticks | src/gallery.js:161-181 | any number of ticks of either timer keeps the timer and keeps the index in `[0, n)` |
| Navigation.AutoplayCycles | src/gallery.js:175-181 | after `m` ticks of `play`'s timer (or of `resume`'s under `options.loop`) the index is `(i + m) mod n` |
| Navigation.ResumedAutoplayStops | src/gallery.js:161-163 | after `m` ticks of `resume`'s timer without `options.loop` the index is `min(i + m, n - 1)` |
| Navigation.ControlsMatchNavigation | src/gallery.js:97-108 | prev is disabled iff `prev()` would do nothing, and next is disabled with no wrap available iff `next()` would do nothing |
| Navigation.OneThumbnailSelected | src/gallery.js:428-434 | once an image is selected exactly one thumbnail is highlighted, and it is the selected one |
| Navigation.AtMostOneAttached | src/gallery.js:311-317 | however many listeners are registered, in a reachable state at most one element has handlers attached: the latest one created, for the current index |
| Navigation.OnlyLatestLoadCompletes | src/gallery.js:314-317 | in a reachable state only the element created by the latest accepted `goTo` can change anything when its load or error event fires |
| Navigation.StaleLoadIgnored | src/gallery.js:314-317 | in a reachable state, after an accepted `goTo` the load or error event of any element created earlier has no effect |
| Navigation.ErrorCompletesLikeLoad | src/gallery.js:311-312 | a failed load completes exactly like a successful one |
| Navigation.LoadCompletes | src/gallery.js:300-301 | completing an awaited load has these effects: <br>• that element is displayed and no longer awaited; <br>• the caption describes the selected image; <br>• the stack is emptied, with every stacked element faded out once, top first; <br>• index, timer, images, buttons, thumbnails, emitted events and listeners are left alone |
| Navigation.CaptionDescribesCurrent | src/gallery.js:548-553 | in a reachable state with an image displayed, the caption reads that image's caption and counts its position plus one |
| GalleryWidget.Gallery.constructor | src/gallery.js:13-92 | `new Gallery(options)` followed by `images(list)`: the new object is the initial navigation state and satisfies the invariant |
| GalleryWidget.Gallery.GoTo | src/gallery.js:114-146 | the method's field updates yield `Navigation.GoTo` of the old state and keep the invariant |
| GalleryWidget.Gallery.Accept | src/gallery.js:129-143 | the steps past the guard yield `Navigation.Accept` of the old state |
| GalleryWidget.Gallery.Next | src/gallery.js:97-100 | yields `Navigation.Next` and keeps the invariant |
| GalleryWidget.Gallery.Prev | src/gallery.js:105-108 | yields `Navigation.Prev` and keeps the invariant |
| GalleryWidget.Gallery.Pause | src/gallery.js:151-154 | yields `Navigation.Pause` and keeps the invariant |
| GalleryWidget.Gallery.Resume | src/gallery.js:159-166 | yields `Navigation.Resume`, keeps the index and runs `resume`'s timer |
| GalleryWidget.Gallery.Play | src/gallery.js:173-184 | yields `Navigation.Play`, runs `play`'s timer and keeps the invariant |
| GalleryWidget.Gallery.Tick | src/gallery.js:175-181 | yields `Navigation.Tick` and keeps the invariant |
| GalleryWidget.Gallery.HandleLoad | src/gallery.js:292-303 | yields `Navigation.LoadDone` and keeps the invariant |
| GalleryWidget.Gallery.ShowNextImage | src/gallery.js:524-559 | yields `Navigation.ShowNextImage`: the caption is set from the index and the stack is cleared |
| GalleryWidget.Gallery.ClearPrevious | src/gallery.js:561-570 | the `while`/`pop` loop leaves the stack empty and appends the popped elements to the fading list in pop order, changing nothing else |
| GalleryWidget.Gallery.ClickReelRight | src/gallery.js:366-394 | the right button pauses autoplay and yields the right-scroll target |
| GalleryWidget.Gallery.ClickReelLeft | src/gallery.js:396-409 | the left button pauses autoplay and yields the left-scroll target |
| ThumbReel.NoScroll | src/gallery.js:201-210 | `checkThumbScroll`'s test (the last thumbnail ends inside the viewport); `LeftMax` and `NoScrollRightIdle` relate it to scrolling |
| ThumbReel.LeftMax | src/gallery.js:373-375 | the offset that puts the last thumbnail's right edge on the viewport's right edge; it is negative exactly when the reel does not get `no-scroll` |
| ThumbReel.ScrollRight | src/gallery.js:366-394 | the right button does nothing iff the thumbnails fit or the track is at its end; otherwise it moves one full viewport where that does not pass the end, and lands exactly on the end otherwise |
| ThumbReel.ScrollLeft | src/gallery.js:396-409 | the left button's offset is never positive, moves back at most one viewport and never moves the track forward |
| ThumbReel.AutoScroll | src/gallery.js:339-364 | the track moves iff the selected thumbnail is not wholly in view; offscreen right, its right edge meets the viewport's (clamped at the track's end), and offscreen left, its left edge meets the viewport's; afterwards a thumbnail that fits the viewport and does not extend past the last one is wholly in view |
| ThumbReel.NoScrollRightIdle | src/gallery.js:201-210 | a reel that gets the `no-scroll` class (the last thumbnail ends inside the viewport) is one whose right button never scrolls |
| ThumbReel.RightUndoesLeft | src/gallery.js:366-409 | away from both ends, the right button undoes the left button |
| ThumbReel.LeftUndoesRight | src/gallery.js:366-409 | away from both ends, the left button undoes the right button |
| ThumbReel.AutoScrollClampInactive | src/gallery.js:342-353 | for a thumbnail that does not extend past the last one, the auto-scroll's clamp at the track's end never applies |

## Left out

- DOM construction, templates and jQuery calls: `_renderStructure`, `_renderThumb`'s markup, the structure and caption templates, and `_renderThumbReel`'s element creation. These are user-interface plumbing over libraries that are not part of this model.
- `_updateImage`, `_handleResize` and `updateViewingHeight`: these compute floating-point ratios and centre the image, with no navigation state involved.
- Animations, opacity fades and the loading indicator. The fade-out of an outgoing element is recorded only as its entry in `fading`, in the order the fades start.
- Real timers, browser load and error events and window resizes. Each becomes an explicit step that the caller takes: `Tick`, `HandleLoad`/`LoadDone`, and the click methods. The interval length is not modelled.
- The constructor's options merge, the required-`selector` check and the module export. These are library calls and environment detection. The constructor and `images(list)` are modelled together as one constructor with a list of images and `options.loop`.
- `this.loop`: the constructor sets it, but nothing reads it. Wrapping depends only on `options.loop`.
- `handleError`: it is never attached, so it is never called.
- Navigation.Next, Navigation.Prev, Navigation.Tick: these require the index to be defined. Before the first accepted `goTo`, `next()`, `prev()` or a tick compute `undefined ± 1`, which is NaN, and NaN passes the guard. `trigger('change', NaN)` then runs the button and thumbnail listeners. After that, the auto-scroll listener reads `.position().left` of the empty selection `.eq(NaN)` and throws. So `goTo` stops inside `trigger` and the index stays undefined. Exceptions are not modelled.
- GalleryWidget.Gallery.constructor: `images([])` throws. `_renderThumbReel` calls `checkThumbScroll`, which reads `.position().left` of the empty last-thumbnail selection (src/gallery.js:205). By then `this.images` is `[]` and the `change` listeners are registered, and the model yields that state with no exception. Every later `goTo` is rejected in both, so index, stack and display never change. ThumbReel.NoScroll likewise assumes a last thumbnail exists.
- `goTo` before `images()` has been called, when `this.images` is still the prototype method. The model always starts with a list of images.
- Pixel positions and widths are integers. `parseInt` of the track's `left` and fractional layout positions are not modelled.
- Each image element fires at most one load or error event. After its handler has run, the element is no longer counted as attached.
- `example/js/example.js`: a demo page that builds ten image descriptors and calls `play()`.
