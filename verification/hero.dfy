/** The hero section's frame player as a state machine. Everything React,
    GSAP and the browser do asynchronously reaches the model as an event:
    the component mounting, a request settling with or without an image, the
    barrier of a loader run being passed, and the scroll timeline updating
    its frame value. Each event is handled to completion before the next, as
    on the page's single thread. */
module Hero {

  import opened Options
  import opened Canvas2D
  import opened FrameStore
  import opened FramePath
  import opened Loader
  import opened Renderer

  /** The `imagesLoaded` value below which the poster overlay is shown and
      frame 1 is redrawn on every change of the counter. */
  const ReadyThreshold: nat := 30

  /** One image request: frame `frame` (1-based), issued by loader run `run`. */
  datatype Request = Request(run: nat, frame: nat)

  datatype State = State(
    store: Store,            // imagesRef.current
    loaded: nat,             // imagesLoaded
    canvas: Canvas,
    mounted: bool,           // the scroll timeline has been bound
    runs: seq<LoaderRun>,    // every runLoading call so far, in order
    inflight: set<Request>)  // requests whose image has neither loaded nor failed

  datatype Event =
    | Mount                  // the component's effects run (twice under StrictMode)
    | Resume(run: nat)       // Promise.all of that run's first requests resolved
    | LoadOk(req: Request)   // img.onload
    | LoadErr(req: Request)  // img.onerror
    | Scrub(frame: real)     // the timeline's onUpdate, with obj.frame

  /** The image element created for frame `i`. */
  function FrameImage(i: nat): Image {
    Image(Path(i))
  }

  function Init(): State {
    State(Empty(), 0, Fresh, false, [], {})
  }

  /** What a run's record always satisfies: its frames ascend, a paused run
      has issued frame 30 and nothing after it, and every frame is in range. */
  predicate RunShape(lr: LoaderRun) {
    && Ascending(lr.issued)
    && (forall i :: i in lr.issued ==> 1 <= i <= (if lr.paused then BatchSize else FrameCount))
    && (lr.paused ==> BatchSize in lr.issued)
  }

  predicate Valid(h: State) {
    && |h.store| == FrameCount
    && (forall k :: 0 <= k < |h.runs| ==> RunShape(h.runs[k]))
    && (forall k :: 0 <= k < FrameCount && h.store[k].Some? ==> h.store[k].value == FrameImage(k + 1))
    && (h.mounted ==> h.canvas.width == SurfaceWidth && h.canvas.height == SurfaceHeight)
    && (forall q :: q in h.inflight ==>
          1 <= q.frame <= FrameCount && q.run < |h.runs| && q.frame in h.runs[q.run].issued)
  }

  /** `imagesLoaded < 30`: the poster overlay is rendered. */
  predicate OverlayShown(h: State) {
    h.loaded < ReadyThreshold
  }

  /** No request of run `run` is still in flight. */
  predicate Settled(h: State, run: nat) {
    forall q :: q in h.inflight ==> q.run != run
  }

  predicate Enabled(h: State, e: Event) {
    match e
    case Mount => true
    case Resume(run) => run < |h.runs| && h.runs[run].paused && Settled(h, run)
    case LoadOk(q) => q in h.inflight
    case LoadErr(q) => q in h.inflight
    case Scrub(_) => h.mounted
  }

  function Requests(run: nat, frames: seq<nat>): set<Request> {
    set f | f in frames :: Request(run, f)
  }

  /** `runLoading()` up to its barrier, or to its end when frame 30 is
      skipped: a new run that requests exactly the frames whose slot is
      empty, pausing exactly when frame 30 is among them, and whose requests
      join those in flight. Nothing else changes. */
  function StartLoading(h: State): (r: State)
    ensures r.store == h.store && r.loaded == h.loaded
    ensures r.canvas == h.canvas && r.mounted == h.mounted
    ensures |r.runs| == |h.runs| + 1 && r.runs[..|h.runs|] == h.runs
    ensures var run := r.runs[|h.runs|];
      && Ascending(run.issued)
      && (run.paused <==> !Filled(h.store, BatchSize - 1))
      && (forall i :: i in run.issued <==>
            1 <= i <= (if run.paused then BatchSize else FrameCount) && !Filled(h.store, i - 1))
      && (forall q :: q in r.inflight <==>
            q in h.inflight || (q.run == |h.runs| && q.frame in run.issued))
  {
    var st := RunLoop(h.store, 1);
    var runs := h.runs + [st];
    assert runs[|h.runs|] == st && runs[..|h.runs|] == h.runs;
    h.(runs := runs, inflight := h.inflight + Requests(|h.runs|, st.issued))
  }

  /** The effect on `[imagesLoaded]`: while the counter is below the
      threshold, frame 1 is drawn over the canvas (without clearing it). */
  function RedrawFirstFrame(h: State): (r: State)
    ensures r.store == h.store && r.loaded == h.loaded && r.runs == h.runs
    ensures r.inflight == h.inflight && r.mounted == h.mounted
    ensures h.loaded < ReadyThreshold && Filled(h.store, 0) ==>
      r.canvas == DrawFull(h.canvas, h.store[0].value)
    ensures h.loaded >= ReadyThreshold || !Filled(h.store, 0) ==> r.canvas == h.canvas
  {
    if OverlayShown(h) && Filled(h.store, 0) then h.(canvas := DrawFull(h.canvas, h.store[0].value)) else h
  }

  lemma StartLoadingValid(h: State)
    requires Valid(h)
    ensures Valid(StartLoading(h))
  {
    var r := StartLoading(h);
    forall k | 0 <= k < |r.runs| ensures RunShape(r.runs[k]) {
      if k < |h.runs| {
        assert r.runs[k] == h.runs[k];
      }
    }
  }

  /** The effect of one event. No slot is ever emptied, and the counter moves
      only on a successful load, by exactly one. */
  function Step(h: State, e: Event): (r: State)
    requires Valid(h) && Enabled(h, e)
    ensures Valid(r)
    ensures Grows(h.store, r.store)
    ensures r.loaded == h.loaded + (if e.LoadOk? then 1 else 0)
  {
    match e
    case Mount =>
      // layout effect: resize (which clears) and render(0); then the loading
      // effect; then the effect on [imagesLoaded]
      var surface := Resize(h.canvas, SurfaceWidth, SurfaceHeight);
      var laid := h.(canvas := Render(h.store, surface, 0), mounted := true);
      assert Valid(laid);
      StartLoadingValid(laid);
      RedrawFirstFrame(StartLoading(laid))
    case Resume(run) =>
      var st := RunLoop(h.store, BatchSize + 1);
      var lr := h.runs[run];
      AscendingAppend(lr.issued, st.issued, BatchSize);
      h.(runs := h.runs[run := LoaderRun(lr.issued + st.issued, false)],
         inflight := h.inflight + Requests(run, st.issued))
    case LoadOk(q) =>
      var filled := Put(h.store, q.frame - 1, FrameImage(q.frame));
      var h1 := h.(store := filled, loaded := h.loaded + 1, inflight := h.inflight - {q});
      assert Valid(h1);
      RedrawFirstFrame(h1)
    case LoadErr(q) =>
      h.(inflight := h.inflight - {q})
    case Scrub(x) =>
      h.(canvas := Render(h.store, h.canvas, Round(x)))
  }

  /** Replays a sequence of events; `None` when one of them cannot occur. */
  function Replay(h: State, es: seq<Event>): (r: Option<State>)
    requires Valid(h)
    ensures r.Some? ==> Valid(r.value)
    decreases |es|
  {
    if es == [] then Some(h)
    else if Enabled(h, es[0]) then Replay(Step(h, es[0]), es[1..])
    else None
  }

  /** The number of successful loads among `es`. */
  function Successes(es: seq<Event>): nat {
    if es == [] then 0 else (if es[0].LoadOk? then 1 else 0) + Successes(es[1..])
  }

  lemma InitValid()
    ensures Valid(Init())
    ensures OverlayShown(Init())
    ensures CountFilled(Init().store) == 0
  {
    CountEmpty(Init().store);
  }

  /** Mounting leaves the store and counter alone, shows frame 1 on a
      freshly sized 1920x1080 surface when it is loaded and a blank surface
      otherwise, and starts a loader run that requests exactly the frames
      whose slot is empty, pausing exactly when frame 30 is among them. */
  lemma MountEffect(h: State)
    requires Valid(h)
    ensures var r := Step(h, Mount);
      && r.store == h.store && r.loaded == h.loaded && r.mounted
      && r.canvas.width == SurfaceWidth && r.canvas.height == SurfaceHeight
      && (Filled(h.store, 0) ==> Top(r.canvas) == Some(FrameImage(1)))
      && (!Filled(h.store, 0) ==> r.canvas.paint == [])
      && |r.runs| == |h.runs| + 1 && r.runs[..|h.runs|] == h.runs
      && var run := r.runs[|h.runs|];
      && Ascending(run.issued)
      && (run.paused <==> !Filled(h.store, BatchSize - 1))
      && (forall i :: i in run.issued <==>
            1 <= i <= (if run.paused then BatchSize else FrameCount) && !Filled(h.store, i - 1))
      && (forall q :: q in r.inflight <==>
            q in h.inflight || (q.run == |h.runs| && q.frame in run.issued))
  {
  }

  /** Passing the barrier continues the run at frame 31: it requests exactly
      the later frames whose slot is empty by then, and those are the only
      requests of the run left in flight. */
  lemma ResumeEffect(h: State, run: nat)
    requires Valid(h) && Enabled(h, Resume(run))
    ensures var r := Step(h, Resume(run));
      && r.store == h.store && r.loaded == h.loaded && r.canvas == h.canvas
      && |r.runs| == |h.runs| && !r.runs[run].paused
      && Ascending(r.runs[run].issued)
      && (forall k :: 0 <= k < |h.runs| && k != run ==> r.runs[k] == h.runs[k])
      && (forall i :: i in r.runs[run].issued <==>
            i in h.runs[run].issued || (BatchSize < i <= FrameCount && !Filled(h.store, i - 1)))
      && (forall f: nat :: Request(run, f) in r.inflight <==>
            BatchSize < f <= FrameCount && !Filled(h.store, f - 1))
  {
  }

  /** A successful load fills slot `frame - 1` with that frame's image and
      no other, counts one more image, settles the request, and, while the
      counter stays below 30, draws frame 1 over the canvas. */
  lemma LoadOkEffect(h: State, q: Request)
    requires Valid(h) && Enabled(h, LoadOk(q))
    ensures var r := Step(h, LoadOk(q));
      && 1 <= q.frame <= FrameCount
      && r.store[q.frame - 1] == Some(FrameImage(q.frame))
      && (forall k :: 0 <= k < FrameCount && k != q.frame - 1 ==> r.store[k] == h.store[k])
      && r.loaded == h.loaded + 1
      && r.inflight == h.inflight - {q} && r.runs == h.runs
      && (r.loaded < ReadyThreshold && Filled(r.store, 0) ==>
            r.canvas == DrawFull(h.canvas, FrameImage(1)))
      && (r.loaded >= ReadyThreshold || !Filled(r.store, 0) ==> r.canvas == h.canvas)
  {
  }

  /** A failed load only settles its request. */
  lemma LoadErrEffect(h: State, q: Request)
    requires Valid(h) && Enabled(h, LoadErr(q))
    ensures var r := Step(h, LoadErr(q));
      && r.store == h.store && r.loaded == h.loaded && r.canvas == h.canvas
      && r.runs == h.runs && r.inflight == h.inflight - {q}
  {
  }

  /** Each request resolves its run's barrier whether it loads or fails: once
      the last of a paused run's requests settles, either way, the run can
      pass its barrier. */
  lemma LastSettlementOpensBarrier(h: State, q: Request, ok: bool)
    requires Valid(h) && q in h.inflight
    requires q.run < |h.runs| && h.runs[q.run].paused
    requires forall p :: p in h.inflight && p.run == q.run ==> p == q
    ensures Enabled(Step(h, if ok then LoadOk(q) else LoadErr(q)), Resume(q.run))
  {
    var r := Step(h, if ok then LoadOk(q) else LoadErr(q));
    assert r.runs == h.runs;
    assert r.inflight == h.inflight - {q};
  }

  /** A timeline update renders `Math.round(obj.frame)`: over an empty slot
      the canvas is left exactly as it was; over a filled one it becomes that
      frame's image alone on the cleared 1920x1080 surface. */
  lemma ScrubEffect(h: State, x: real)
    requires Valid(h) && Enabled(h, Scrub(x))
    ensures var r := Step(h, Scrub(x));
      && r.store == h.store && r.loaded == h.loaded
      && (!Filled(h.store, Round(x)) ==> r.canvas == h.canvas)
      && (Filled(h.store, Round(x)) ==>
            r.canvas == Canvas(SurfaceWidth, SurfaceHeight,
                               [Draw(FrameImage(Round(x) + 1), SurfaceWidth, SurfaceHeight)]))
  {
  }

  /** Once the overlay is gone it never returns, and it goes away only on
      the successful load that takes the counter to exactly 30. */
  lemma GateFlipsOnce(h: State, e: Event)
    requires Valid(h) && Enabled(h, e)
    ensures !OverlayShown(h) ==> !OverlayShown(Step(h, e))
    ensures OverlayShown(h) && !OverlayShown(Step(h, e)) ==>
      e.LoadOk? && Step(h, e).loaded == ReadyThreshold
  {
  }

  /** Every filled slot was filled by at least one successful load: the
      counter never falls behind the number of filled slots. */
  lemma StepAccounts(h: State, e: Event)
    requires Valid(h) && Enabled(h, e)
    requires CountFilled(h.store) <= h.loaded
    ensures CountFilled(Step(h, e).store) <= Step(h, e).loaded
  {
    match e
    case LoadOk(q) =>
      PutCount(h.store, q.frame - 1, FrameImage(q.frame));
    case _ =>
  }

  /** Over any run of events: the counter is its start value plus the
      successes, no filled slot is emptied, a hidden overlay stays hidden,
      and the counter keeps up with the filled slots. */
  lemma {:induction false} ReplayCounts(h: State, es: seq<Event>)
    requires Valid(h) && Replay(h, es).Some?
    ensures var r := Replay(h, es).value;
      && r.loaded == h.loaded + Successes(es)
      && Grows(h.store, r.store)
      && (!OverlayShown(h) ==> !OverlayShown(r))
      && (CountFilled(h.store) <= h.loaded ==> CountFilled(r.store) <= r.loaded)
    decreases |es|
  {
    if es != [] {
      var h1 := Step(h, es[0]);
      GateFlipsOnce(h, es[0]);
      if CountFilled(h.store) <= h.loaded {
        StepAccounts(h, es[0]);
      }
      ReplayCounts(h1, es[1..]);
    }
  }

  /** From a zero counter the overlay is shown exactly until the thirtieth
      successful load, whatever else happens in between. */
  lemma OverlayUntilThirtySuccesses(h: State, es: seq<Event>)
    requires Valid(h) && h.loaded == 0 && Replay(h, es).Some?
    ensures OverlayShown(Replay(h, es).value) <==> Successes(es) < ReadyThreshold
  {
    ReplayCounts(h, es);
  }

  /** Replaying `[e] + es` is one step on `e` followed by replaying `es`. */
  lemma ReplayStep(h: State, e: Event, es: seq<Event>)
    requires Valid(h) && Enabled(h, e)
    ensures Replay(h, [e] + es) == Replay(Step(h, e), es)
  {
    assert ([e] + es)[1..] == es;
  }

  /** Mounting over an empty store keeps it empty and has the new run
      request frame 1. */
  lemma MountFromEmpty(h: State)
    requires Valid(h) && h.store == Empty()
    ensures var r := Step(h, Mount);
      && r.store == Empty() && r.loaded == h.loaded && h.inflight <= r.inflight
      && Request(|h.runs|, 1) in r.inflight
  {
    MountEffect(h);
  }

  /** A successful load of frame 1 puts that frame's image in slot 0. */
  lemma LoadFirstFrame(h: State, q: Request)
    requires Valid(h) && q in h.inflight && q.frame == 1
    ensures var r := Step(h, LoadOk(q));
      && r.store == Put(h.store, 0, FrameImage(1))
      && r.loaded == h.loaded + 1 && r.inflight == h.inflight - {q}
  {
  }

  /** Two mounts start two runs that both request frame 1, and both loads
      count: the counter reaches 2 with a single slot filled. */
  lemma DoubleMountRequestsTwice()
    ensures var h2 := Replay(Init(), [Mount, Mount]);
      && h2.Some?
      && Request(0, 1) in h2.value.inflight && Request(1, 1) in h2.value.inflight
    ensures var h4 := Replay(Init(), [Mount, Mount, LoadOk(Request(0, 1)), LoadOk(Request(1, 1))]);
      && h4.Some?
      && h4.value.loaded == 2
      && h4.value.store == Put(Empty(), 0, FrameImage(1))
  {
    InitValid();
    var h0 := Init();
    MountFromEmpty(h0);
    var h1 := Step(h0, Mount);
    MountFromEmpty(h1);
    var h2 := Step(h1, Mount);
    LoadFirstFrame(h2, Request(0, 1));
    var h3 := Step(h2, LoadOk(Request(0, 1)));
    LoadFirstFrame(h3, Request(1, 1));
    var h4 := Step(h3, LoadOk(Request(1, 1)));
    ReplayStep(h3, LoadOk(Request(1, 1)), []);
    ReplayStep(h2, LoadOk(Request(0, 1)), [LoadOk(Request(1, 1))]);
    ReplayStep(h1, Mount, [LoadOk(Request(0, 1)), LoadOk(Request(1, 1))]);
    ReplayStep(h0, Mount, [Mount, LoadOk(Request(0, 1)), LoadOk(Request(1, 1))]);
    ReplayStep(h1, Mount, []);
    ReplayStep(h0, Mount, [Mount]);
  }

}
