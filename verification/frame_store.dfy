/** The frame store: `imagesRef.current`, one slot per frame of the
    sequence, index `i - 1` for frame `i`. A slot is written only when its
    image has loaded; nothing ever clears one. */
module FrameStore {

  import opened Options
  import opened Canvas2D

  /** `frameCount`. */
  const FrameCount: nat := 180

  type Store = seq<Option<Image>>

  /** The store before any image has loaded. */
  function Empty(): (s: Store)
    ensures |s| == FrameCount
    ensures forall k :: 0 <= k < |s| ==> s[k] == None
  {
    seq(FrameCount, _ => None)
  }

  /** `imagesRef.current[k]` is truthy: an index outside the store reads
      as `undefined`, like an empty slot. */
  predicate Filled(s: Store, k: int) {
    0 <= k < |s| && s[k].Some?
  }

  /** `imagesRef.current[k] = img`. */
  function Put(s: Store, k: nat, img: Image): (r: Store)
    requires k < |s|
    ensures |r| == |s|
    ensures Filled(r, k) && r[k].value == img
    ensures forall j :: 0 <= j < |s| && j != k ==> r[j] == s[j]
  {
    s[k := Some(img)]
  }

  /** Every slot filled in `s` is still filled in `t`. */
  predicate Grows(s: Store, t: Store) {
    |s| == |t| && forall k :: 0 <= k < |s| && s[k].Some? ==> t[k].Some?
  }

  /** The number of filled slots. */
  function CountFilled(s: Store): (n: nat)
    ensures n <= |s|
  {
    if s == [] then 0 else CountFilled(s[..|s| - 1]) + (if s[|s| - 1].Some? then 1 else 0)
  }

  lemma PutGrows(s: Store, k: nat, img: Image)
    requires k < |s|
    ensures Grows(s, Put(s, k, img))
  {
  }

  lemma {:induction false} CountEmpty(s: Store)
    requires forall k :: 0 <= k < |s| ==> s[k] == None
    ensures CountFilled(s) == 0
  {
    if s != [] {
      CountEmpty(s[..|s| - 1]);
    }
  }

  /** Filling a slot adds one to the number of filled slots when it was
      empty and nothing when it already held an image. */
  lemma {:induction false} PutCount(s: Store, k: nat, img: Image)
    requires k < |s|
    ensures CountFilled(Put(s, k, img)) == CountFilled(s) + (if s[k].None? then 1 else 0)
  {
    var t := Put(s, k, img);
    var n := |s| - 1;
    if k == n {
      assert t[..n] == s[..n];
    } else {
      assert t[..n] == Put(s[..n], k, img);
      PutCount(s[..n], k, img);
    }
  }

}
