/** The body of `runLoading`: a `for` loop over frames 1..frameCount that
    skips frames whose slot is already filled, issues one request per other
    frame, and awaits every request issued so far when it issues frame 30.
    JavaScript runs the loop without interruption up to that `await` and
    again from frame 31 onward, so each stretch is one step here. */
module Loader {

  import opened FrameStore

  /** `initialBatchSize`: the frame at which the loop awaits. */
  const BatchSize: nat := 30

  /** A loader run's record: the frames it has requested, in order, and
      whether it is waiting at its barrier. One uninterrupted stretch of the
      loop yields such a record too. */
  datatype LoaderRun = LoaderRun(issued: seq<nat>, paused: bool)

  predicate Ascending(s: seq<nat>) {
    forall a, b :: 0 <= a < b < |s| ==> s[a] < s[b]
  }

  /** The loop from iteration `from` until it awaits or passes the last
      frame, reading the store as it is when the stretch runs. Frame `i` is
      requested exactly when its slot `i - 1` is empty, in ascending order;
      the loop stops at the barrier exactly when frame 30 is reached and not
      skipped. */
  function RunLoop(s: Store, from: nat): (r: LoaderRun)
    requires 1 <= from
    ensures Ascending(r.issued)
    ensures r.paused <==> from <= BatchSize && !Filled(s, BatchSize - 1)
    ensures forall i :: i in r.issued <==>
      from <= i <= (if r.paused then BatchSize else FrameCount) && !Filled(s, i - 1)
    decreases FrameCount + 1 - from
  {
    if from > FrameCount then LoaderRun([], false)
    else if Filled(s, from - 1) then RunLoop(s, from + 1)
    else if from == BatchSize then LoaderRun([from], true)
    else
      var rest := RunLoop(s, from + 1);
      assert forall b :: 0 <= b < |rest.issued| ==> from < rest.issued[b] by {
        forall b | 0 <= b < |rest.issued| ensures from < rest.issued[b] {
          assert rest.issued[b] in rest.issued;
        }
      }
      LoaderRun([from] + rest.issued, rest.paused)
  }

  /** Two ascending runs of frames, the first wholly below the second,
      ascend together. */
  lemma AscendingAppend(a: seq<nat>, b: seq<nat>, m: nat)
    requires Ascending(a) && Ascending(b)
    requires forall i :: i in a ==> i <= m
    requires forall i :: i in b ==> m < i
    ensures Ascending(a + b)
  {
    forall x, y | 0 <= x < y < |a + b| ensures (a + b)[x] < (a + b)[y] {
      if y < |a| {
      } else if x >= |a| {
        assert (a + b)[x] == b[x - |a|] && (a + b)[y] == b[y - |a|];
      } else {
        assert a[x] in a && b[y - |a|] in b;
      }
    }
  }

}
