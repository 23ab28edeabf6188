# Hero frame player

A model of the scroll-scrubbed frame player in the portfolio page's hero
section (`src/components/Hero.jsx`). The player fetches 180 still frames,
keeps the ones that load in a shared frame store, and paints the frame that
the scroll timeline points at onto a 1920×1080 canvas. A poster overlay
covers the canvas until 30 images have loaded.

Stripped of React and GSAP, the player is a sequential state machine.
`Hero.State` holds the frame store (`imagesRef.current`), the counter
(`imagesLoaded`), the canvas, the loader runs started so far and the
requests still in flight. `Hero.Step` applies one event:

- `Mount`: the component's effects run in React's order. First the layout
  effect sizes the canvas, which clears it, and calls `render(0)`. Then the
  loading effect starts a loader run. Last comes the effect on
  `[imagesLoaded]`.
- `Resume(run)`: the `Promise.all` barrier of that run resolved, and the
  loop continues at frame 31.
- `LoadOk(req)` / `LoadErr(req)`: `img.onload` / `img.onerror` fired.
- `Scrub(x)`: the timeline's `onUpdate` fired with `obj.frame == x`.

The page runs on one thread, so each event is handled to completion before
the next. Every stretch of the loader loop runs without interruption: from
frame 1 up to the `await` at frame 30, and from frame 31 to the end.

Modules, leaves first:

- `Options`: the `Option` type for a slot.
- `FramePath`: `String(i).padStart(4, '0')`, the path template, and a
  parser that inverts it.
- `Canvas2D`: an abstract canvas. A canvas is its size plus the stack of
  full-surface `drawImage` calls made since it was last cleared.
- `FrameStore`: the 180 slots, the one write operation, and a count of
  filled slots.
- `Loader`: one uninterrupted stretch of the `runLoading` loop.
- `Renderer`: `render(index)`, `Math.round`, and the linear tween from
  timeline progress to a frame value.
- `Hero`: the state machine, its invariant `Valid`, and the lemmas about
  events and event sequences.

Three behaviours of the code that a reader might not expect, all modelled
as written:

- A failed load does not advance `imagesLoaded`. Only successful loads are
  counted, so with a single loader run, if more than 150 frames fail, the
  overlay never goes away.
- Requests in flight are not deduplicated. Two loader runs started before
  any image has loaded (React StrictMode runs effects twice) both request
  frames 1..30; after its barrier, each run skips the later frames the
  other has already loaded by then. Each success is counted, so the counter
  can pass the number of filled slots. `Hero.DoubleMountRequestsTwice`
  shows this with frame 1.
- The redraw while loading (`Hero.jsx:107`) draws frame 1 on top of the
  canvas without clearing it first.

## Model

| member | source | states |
|---|---|---|
| FramePath.Decimal | src/components/Hero.jsx:34 | `String(i)` is a non-empty string of decimal digits |
| FramePath.PadStart | src/components/Hero.jsx:34 | `padStart` returns a string already long enough unchanged; otherwise it returns exactly `width` characters, with the original string as the suffix and the fill character in front |
| FramePath.Pad4Digits | src/components/Hero.jsx:34 | below 10000 the padded index has exactly 4 characters; it is always all digits and denotes the index again; from 10000 on it is the plain numeral, longer than 4 |
| FramePath.Path | src/components/Hero.jsx:34 | the path starts with `/frames/frame_` and ends with `.webp`; below 10000 exactly four digits sit between them, and they denote the frame number |
| FramePath.ParsePath | src/components/Hero.jsx:34 | the inverse of the path template accepts only strings of the template's exact length; its result is below 10000, and the path of the result is the parsed string itself |
| FramePath.PathRoundTrip | src/components/Hero.jsx:29-34 | for every index below 10000, so for frames 1..180, the path is `/frames/frame_` + 4 digits + `.webp` and parses back to the index |
| FramePath.PathInjective | src/components/Hero.jsx:29-34 | distinct frames are fetched from distinct paths |
| FramePath.FirstAndLastPaths | src/components/Hero.jsx:7-34 | frame 1 is `/frames/frame_0001.webp` and frame 180 is `/frames/frame_0180.webp` |
| Canvas2D.Resize | src/components/Hero.jsx:62-63 | assigning the canvas size gives a surface of exactly that size with nothing drawn on it |
| FrameStore.Put | src/components/Hero.jsx:38 | a write fills its slot with the image and leaves every other slot as it was |
| FrameStore.PutGrows | src/components/Hero.jsx:38 | a write never empties a filled slot |
| FrameStore.PutCount | src/components/Hero.jsx:38 | a write adds one filled slot when its slot was empty, and none when the slot was already filled |
| FrameStore.CountEmpty | src/components/Hero.jsx:21 | the initial store has no filled slots |
| Loader.RunLoop | src/components/Hero.jsx:29-50 | one stretch of the loop requests frame `i` exactly when slot `i-1` is empty, in ascending order. It stops at the barrier exactly when frame 30 is reached and not skipped. If it stops there, nothing after frame 30 is requested |
| Loader.AscendingAppend | src/components/Hero.jsx:29 | the frames a run requests before and after its barrier form one ascending sequence |
| Renderer.Render | src/components/Hero.jsx:62-71 | an empty or out-of-range slot leaves the canvas exactly as it was. A filled slot makes the canvas that image alone, drawn at the canvas' full size over a cleared surface. The size never changes |
| Renderer.Round | src/components/Hero.jsx:92 | `Math.round(x)` is the integer within half a unit of `x`, and halves round up |
| Renderer.FrameAt | src/components/Hero.jsx:86-90 | the tweened frame for a progress in [0, 1] lies in [0, 179] |
| Renderer.RoundInRange | src/components/Hero.jsx:86-92 | every frame value in [0, 179] rounds to a valid store index |
| Renderer.TimelineEnds | src/components/Hero.jsx:86-92 | progress 0 shows index 0, progress 1 shows index 179, and progress 0.5 shows index 90 |
| Renderer.RenderIdempotent | src/components/Hero.jsx:65-71 | rendering the same index twice is the same as rendering it once |
| Hero.StartLoading | src/components/Hero.jsx:25-53 | starting `runLoading` adds one run that requests exactly the frames whose slot is empty, ascending, up to 30 if it pauses or 180 if not. It pauses exactly when slot 29 is empty, its requests join those in flight, and store, counter and canvas are unchanged |
| Hero.RedrawFirstFrame | src/components/Hero.jsx:101-111 | while the counter is below 30 and slot 0 is filled, frame 1 is drawn over the canvas without clearing it; otherwise the canvas is unchanged. Store, counter, runs and in-flight requests never change |
| Hero.Step | src/components/Hero.jsx:24-111 | every event keeps the invariant: store size, slot `k` holds only frame `k+1`'s image, canvas 1920×1080 once mounted, run records well formed, in-flight requests belong to their run. No slot is ever emptied. The counter grows by exactly one on a successful load and is otherwise unchanged |
| Hero.Replay | src/components/Hero.jsx:24-111 | any sequence of events that can occur keeps the invariant |
| Hero.InitValid | src/components/Hero.jsx:17-21 | the initial state satisfies the invariant, shows the overlay and has no filled slot |
| Hero.MountEffect | src/components/Hero.jsx:24-74 | mounting leaves store and counter alone. The canvas becomes a 1920×1080 surface, showing frame 1 if it is loaded and blank otherwise. The new run requests exactly the empty-slot frames, ascending, up to 30 if it pauses or 180 if not. It pauses exactly when slot 29 is empty |
| Hero.MountFromEmpty | src/components/Hero.jsx:29-44 | mounting over an empty store keeps it empty and has the new run request frame 1 |
| Hero.ResumeEffect | src/components/Hero.jsx:47-50 | passing the barrier ends the pause. The run then requests exactly the frames 31..180 whose slot is empty by then, and those are its only requests in flight. Its whole request list stays ascending. Store, counter, canvas and other runs are unchanged |
| Hero.LoadOkEffect | src/components/Hero.jsx:36-41 | a successful load writes its frame's image to slot `frame-1` and touches no other slot. It adds one to the counter and settles its request. If the new counter is below 30 and slot 0 is filled, frame 1 is drawn over the canvas; otherwise the canvas is unchanged |
| Hero.LoadFirstFrame | src/components/Hero.jsx:37-39 | a successful load of frame 1 writes slot 0 and counts one |
| Hero.LoadErrEffect | src/components/Hero.jsx:42 | a failed load changes neither store, counter, canvas nor runs; it only settles its request |
| Hero.LastSettlementOpensBarrier | src/components/Hero.jsx:36-49 | when the last in-flight request of a paused run settles, by load or by error, the run can pass its barrier |
| Hero.ScrubEffect | src/components/Hero.jsx:65-71 | a timeline update over an empty slot leaves the canvas unchanged. Over a filled slot, the canvas becomes exactly that frame's image on the cleared 1920×1080 surface |
| Hero.GateFlipsOnce | src/components/Hero.jsx:117 | once hidden, the overlay stays hidden. It goes away only on a successful load that brings the counter to exactly 30 |
| Hero.StepAccounts | src/components/Hero.jsx:37-39 | every event keeps the counter at or above the number of filled slots |
| Hero.ReplayCounts | src/components/Hero.jsx:37-42 | after any possible sequence of events, the counter equals its start value plus the number of successes. No filled slot has been emptied, a hidden overlay stays hidden, and the counter stays at or above the number of filled slots |
| Hero.OverlayUntilThirtySuccesses | src/components/Hero.jsx:102-117 | from a zero counter, the overlay shows exactly while fewer than 30 successful loads have occurred |
| Hero.DoubleMountRequestsTwice | src/components/Hero.jsx:29-39 | two mounts over an empty store both request frame 1. Two successful loads of it bring the counter to 2 while only slot 0 is filled |

## Left out

- React's scheduling: the effect lifecycle, StrictMode, and when re-renders happen. Effects on mount are one `Mount` event. The counter update and the effect on `[imagesLoaded]` happen at once inside `LoadOk`. React may batch several counter updates into one render and run the effect once for them; that is not modelled.
- Unmounting: `ctx.revert()` and the scoping of ScrollTrigger teardown are left out. A real unmount discards the refs and state, and a later mount starts from `Init`.
- GSAP internals: the `scrub: 0.5` lag, `snap`, and the `start`/`end` geometry. `Scrub(x)` receives whatever frame value the timeline produced. `Renderer.FrameAt` models only the linear (`ease: "none"`) tween from 0 to 179.
- Pixels, image decoding and the CSS size of the canvas. An image is its source path, and a draw is the image plus the size it was drawn at.
- The network and promise scheduling. A completion is a nondeterministic `LoadOk` or `LoadErr` event. A request may also never settle.
- `getContext('2d')` returning nothing and a missing canvas element (`Hero.jsx:59`, `:104`). The model assumes the canvas exists.
- The JSX markup, overlays, gradients, fonts and links (`Hero.jsx:113-165`), and `src/App.jsx`. These are presentation only.
