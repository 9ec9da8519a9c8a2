/** Keyframe selection and the coverage check of `Video`
    (video_process.py:79-98, 113-136, 161-168, 188-196).

    A frame is a value of the type parameter `H` (the record `load_video`
    builds: the cropped image and its hash); `distance` compares two frames
    by their hashes. Keyframe selection is a greedy windowed deduplication:
    the anchor is compared with the frames after it, and at the first one
    that is at least `dist` away the anchor becomes a key frame and that
    frame the next anchor. An anchor with no such frame is dropped and the
    frame right after it becomes the anchor, so the last frame is never a
    key frame. */
module VideoProcess {
  import opened Hashes

  // ---------------------------------------------------------------------------
  // Specification of the selection
  // ---------------------------------------------------------------------------

  /** Frame `j` is far enough from anchor `a` to close `a`'s window: the
      comparison is `>=`, so a frame exactly at the threshold closes it. */
  predicate Far<H>(frames: seq<H>, dist: int, distance: (H, H) -> int, a: nat, j: nat)
    requires a < |frames| && j < |frames|
  {
    distance(frames[a], frames[j]) >= dist
  }

  /** Some frame after `a`, among the first `n`, is far from `a`. */
  ghost predicate HasFarSuccessor<H>(frames: seq<H>, n: nat, dist: int, distance: (H, H) -> int, a: nat)
    requires a < n <= |frames|
  {
    exists j :: a < j < n && Far(frames, dist, distance, a, j)
  }

  /** The first frame at or after `j` (and before `n`) that is far from
      anchor `a`, or `n` when there is none: where the inner scan of
      `process_video` stops. */
  function FirstFar<H>(frames: seq<H>, n: nat, dist: int, distance: (H, H) -> int, a: nat, j: nat): (r: nat)
    requires n <= |frames| && a < n && j <= n
    ensures j <= r <= n
    ensures r < n ==> Far(frames, dist, distance, a, r)
    ensures forall k :: j <= k < r ==> !Far(frames, dist, distance, a, k)
    decreases n - j
  {
    if j == n then n
    else if Far(frames, dist, distance, a, j) then j
    else FirstFar(frames, n, dist, distance, a, j + 1)
  }

  /** The indices of the key frames that selection emits over the first `n`
      frames once `a` is the anchor. */
  function KeyIndices<H>(frames: seq<H>, n: nat, dist: int, distance: (H, H) -> int, a: nat): (r: seq<nat>)
    requires n <= |frames|
    ensures forall m :: 0 <= m < |r| ==> a <= r[m] && r[m] + 1 < n
    decreases n - a
  {
    if a >= n then []
    else
      var j := FirstFar(frames, n, dist, distance, a, a + 1);
      if j < n then [a] + KeyIndices(frames, n, dist, distance, j)
      else KeyIndices(frames, n, dist, distance, a + 1)
  }

  /** The frames at the given indices, in that order. */
  function Pick<H>(frames: seq<H>, indices: seq<nat>): (r: seq<H>)
    requires forall m :: 0 <= m < |indices| ==> indices[m] < |frames|
    ensures |r| == |indices|
    ensures forall m :: 0 <= m < |indices| ==> r[m] == frames[indices[m]]
  {
    seq(|indices|, m requires 0 <= m < |indices| => frames[indices[m]])
  }

  /** The key frames selected from the first `n` frames: fewer than `n`,
      since the last frame is never one. */
  function Select<H>(frames: seq<H>, n: nat, dist: int, distance: (H, H) -> int): (r: seq<H>)
    requires n <= |frames|
    ensures n == 0 ==> r == []
    ensures n > 0 ==> |r| < n
  {
    KeyIndicesIncreasing(frames, n, dist, distance, 0);
    Pick(frames, KeyIndices(frames, n, dist, distance, 0))
  }

  // ---------------------------------------------------------------------------
  // Specification of the coverage check
  // ---------------------------------------------------------------------------

  /** Some key frame is within `dist` of `frame`. */
  ghost predicate Covered<H>(frame: H, keys: seq<H>, dist: int, distance: (H, H) -> int)
  {
    exists k :: 0 <= k < |keys| && distance(frame, keys[k]) <= dist
  }

  /** The number of frames that some key frame covers: at most the number
      of frames. */
  ghost function CoveredCount<H>(frames: seq<H>, keys: seq<H>, dist: int, distance: (H, H) -> int): (r: nat)
    ensures r <= |frames|
  {
    if frames == [] then 0
    else
      CoveredCount(frames[..|frames| - 1], keys, dist, distance)
        + (if Covered(frames[|frames| - 1], keys, dist, distance) then 1 else 0)
  }

  // ---------------------------------------------------------------------------
  // The video object
  // ---------------------------------------------------------------------------

  /** `Video`: the frames loaded from the capture and the key frames chosen
      among them. `length` is the frame count the capture reports; `dist`
      the threshold; `distance` the comparison the hash method selects. */
  class Video<H> {
    const length: nat
    const dist: int
    const distance: (H, H) -> int
    var frames: seq<H>
    var keyFrames: seq<H>

    constructor (length: nat, dist: int, distance: (H, H) -> int)
      ensures this.length == length && this.dist == dist && this.distance == distance
      ensures frames == [] && keyFrames == []
    {
      this.length := length;
      this.dist := dist;
      this.distance := distance;
      frames := [];
      keyFrames := [];
    }

    /** `load_video`: up to `length` reads; the first failed read (the end of
        `stream`) stops the loop. Cropping and hashing are already applied to
        the elements of `stream`. */
    method LoadVideo(stream: seq<H>)
      modifies this`frames
      ensures |stream| < length ==> frames == old(frames) + stream
      ensures length <= |stream| ==> frames == old(frames) + stream[..length]
    {
      for n := 0 to length
        invariant n <= |stream|
        invariant frames == old(frames) + stream[..n]
      {
        if n == |stream| {
          break;
        }
        frames := frames + [stream[n]];
      }
      assert stream[..|stream|] == stream;
    }

    /** `process_video`: appends the selected key frames. The anchor is
        `frames[i]`; `i` moves past it before the scan, so when no frame is
        far enough the next frame becomes the anchor. */
    method ProcessVideo()
      requires length <= |frames|
      modifies this`keyFrames
      ensures keyFrames == old(keyFrames) + Select(frames, length, dist, distance)
    {
      var i := 0;
      ghost var emitted: seq<nat> := [];
      while i < length
        invariant i <= length
        invariant forall m :: 0 <= m < |emitted| ==> emitted[m] < |frames|
        invariant emitted + KeyIndices(frames, length, dist, distance, i)
               == KeyIndices(frames, length, dist, distance, 0)
        invariant keyFrames == old(keyFrames) + Pick(frames, emitted)
        decreases length - i
      {
        var first := frames[i];
        ghost var a, before := i, keyFrames;
        ghost var found := false;
        i := i + 1;
        for j := i to length
          invariant i == a + 1 && keyFrames == before && !found
          invariant forall k :: a < k < j ==> !Far(frames, dist, distance, a, k)
        {
          var second := frames[j];
          if distance(first, second) >= dist {
            keyFrames := keyFrames + [first];
            i := j;
            found := true;
            break;
          }
        }
        if found {
          AnchorEmitted(frames, length, dist, distance, a, i);
          EmitStep(frames, emitted, a, KeyIndices(frames, length, dist, distance, i));
          emitted := emitted + [a];
        } else {
          AnchorDropped(frames, length, dist, distance, a);
        }
      }
    }

    /** `check_hits`: the number of frames that some key frame lies within
        `dist` of; the scan of the key frames stops at the first match, so a
        frame is counted once. */
    method CheckHits() returns (hits: nat)
      ensures hits == CoveredCount(frames, keyFrames, dist, distance)
      ensures hits <= |frames|
    {
      hits := 0;
      for f := 0 to |frames|
        invariant hits == CoveredCount(frames[..f], keyFrames, dist, distance)
        invariant hits <= f
      {
        var frame := frames[f];
        assert frames[..f + 1][..f] == frames[..f];
        for k := 0 to |keyFrames|
          invariant forall m :: 0 <= m < k ==> distance(frame, keyFrames[m]) > dist
        {
          if distance(frame, keyFrames[k]) <= dist {
            hits := hits + 1;
            break;
          }
        }
      }
      assert frames[..|frames|] == frames;
    }
  }

  /** Emitting anchor `a` moves it from the pending indices to the emitted
      ones and appends its frame. */
  lemma EmitStep<H>(frames: seq<H>, emitted: seq<nat>, a: nat, rest: seq<nat>)
    requires forall m :: 0 <= m < |emitted| ==> emitted[m] < |frames|
    requires a < |frames|
    ensures Pick(frames, emitted + [a]) == Pick(frames, emitted) + [frames[a]]
    ensures (emitted + [a]) + rest == emitted + ([a] + rest)
  {
  }

  /** An anchor `a` with a far frame after it is a key frame, the frames
      between it and the first far frame `j` are all closer than `dist`, and
      `j` is the next anchor. */
  lemma AnchorEmitted<H>(frames: seq<H>, n: nat, dist: int, distance: (H, H) -> int, a: nat, j: nat)
    requires n <= |frames| && a < j < n
    requires Far(frames, dist, distance, a, j)
    requires forall k :: a < k < j ==> !Far(frames, dist, distance, a, k)
    ensures KeyIndices(frames, n, dist, distance, a) == [a] + KeyIndices(frames, n, dist, distance, j)
  {
    assert FirstFar(frames, n, dist, distance, a, a + 1) == j;
  }

  /** An anchor with no far frame after it is dropped, and the frame right
      after it becomes the anchor. */
  lemma AnchorDropped<H>(frames: seq<H>, n: nat, dist: int, distance: (H, H) -> int, a: nat)
    requires a < n <= |frames|
    requires forall k :: a < k < n ==> !Far(frames, dist, distance, a, k)
    ensures KeyIndices(frames, n, dist, distance, a) == KeyIndices(frames, n, dist, distance, a + 1)
  {
  }

  /** Key frames come in strictly increasing frame order, so there are at
      most `n - 1 - a` of them: the last frame is never one. */
  lemma {:induction false} KeyIndicesIncreasing<H>(frames: seq<H>, n: nat, dist: int, distance: (H, H) -> int, a: nat)
    requires n <= |frames|
    ensures forall m, m' :: 0 <= m < m' < |KeyIndices(frames, n, dist, distance, a)|
              ==> KeyIndices(frames, n, dist, distance, a)[m] < KeyIndices(frames, n, dist, distance, a)[m']
    ensures a < n ==> |KeyIndices(frames, n, dist, distance, a)| <= n - 1 - a
    decreases n - a
  {
    if a < n {
      var j := FirstFar(frames, n, dist, distance, a, a + 1);
      if j < n {
        KeyIndicesIncreasing(frames, n, dist, distance, j);
      } else {
        KeyIndicesIncreasing(frames, n, dist, distance, a + 1);
      }
    }
  }

  /** An anchor is emitted exactly when some later frame (among the first
      `n`) is far from it. */
  lemma AnchorEmittedIff<H>(frames: seq<H>, n: nat, dist: int, distance: (H, H) -> int, a: nat)
    requires a < n <= |frames|
    ensures var r := KeyIndices(frames, n, dist, distance, a);
            (r != [] && r[0] == a) <==> HasFarSuccessor(frames, n, dist, distance, a)
  {
    var j := FirstFar(frames, n, dist, distance, a, a + 1);
    if j == n {
      assert forall k :: a < k < n ==> !Far(frames, dist, distance, a, k);
    }
  }

  /** Every key frame has a later frame far from it. */
  lemma {:induction false} KeyFramesHaveFarSuccessor<H>(frames: seq<H>, n: nat, dist: int, distance: (H, H) -> int, a: nat)
    requires n <= |frames|
    ensures forall m :: 0 <= m < |KeyIndices(frames, n, dist, distance, a)|
              ==> HasFarSuccessor(frames, n, dist, distance, KeyIndices(frames, n, dist, distance, a)[m])
    decreases n - a
  {
    if a < n {
      var j := FirstFar(frames, n, dist, distance, a, a + 1);
      if j < n {
        KeyFramesHaveFarSuccessor(frames, n, dist, distance, j);
      } else {
        KeyFramesHaveFarSuccessor(frames, n, dist, distance, a + 1);
      }
    }
  }

  /** The indices `lo`, `lo + 1`, ..., `hi - 1`. */
  function Range(lo: nat, hi: nat): (r: seq<nat>)
    ensures |r| == if lo < hi then hi - lo else 0
    ensures forall m :: 0 <= m < |r| ==> r[m] == lo + m
    decreases hi - lo
  {
    if lo >= hi then [] else [lo] + Range(lo + 1, hi)
  }

  /** When every pair of frames is at least `dist` apart (the Hamming
      distance with `dist <= 0`), every frame from the anchor on except the
      last is a key frame. */
  lemma {:induction false} AllFarKeepsAllButLast<H>(frames: seq<H>, n: nat, dist: int, distance: (H, H) -> int, a: nat)
    requires a < n <= |frames|
    requires forall x, y :: distance(x, y) >= dist
    ensures KeyIndices(frames, n, dist, distance, a) == Range(a, n - 1)
    decreases n - a
  {
    if a + 1 < n {
      assert Far(frames, dist, distance, a, a + 1);
      AnchorEmitted(frames, n, dist, distance, a, a + 1);
      AllFarKeepsAllButLast(frames, n, dist, distance, a + 1);
    }
  }

  /** With the Hamming distance and a threshold `dist <= 0`, the key frames
      are all the frames but the last. */
  lemma HammingNonPositiveThreshold(frames: seq<nat>, n: nat, dist: int)
    requires 1 <= n <= |frames| && dist <= 0
    ensures Select(frames, n, dist, Hamming) == frames[..n - 1]
  {
    forall x: nat, y: nat ensures Hamming(x, y) >= dist {
    }
    AllFarKeepsAllButLast<nat>(frames, n, dist, Hamming, 0);
  }

  /** When no frame is `dist` away from an earlier one, there are no key
      frames at all. */
  lemma NoFarPairNoKeyFrames<H>(frames: seq<H>, n: nat, dist: int, distance: (H, H) -> int)
    requires n <= |frames|
    requires forall i, j :: 0 <= i < j < n ==> distance(frames[i], frames[j]) < dist
    ensures Select(frames, n, dist, distance) == []
  {
    var r := KeyIndices(frames, n, dist, distance, 0);
    if r != [] {
      var a := r[0];
      KeyFramesHaveFarSuccessor(frames, n, dist, distance, 0);
      assert false;
    }
  }

  /** Each frame at a strictly increasing list of indices that is covered
      adds one to the count. */
  lemma {:induction false} CoveredCountAtLeast<H>(frames: seq<H>, keys: seq<H>, dist: int, distance: (H, H) -> int, indices: seq<nat>)
    requires forall m :: 0 <= m < |indices| ==> indices[m] < |frames|
    requires forall m, m' :: 0 <= m < m' < |indices| ==> indices[m] < indices[m']
    requires forall m :: 0 <= m < |indices| ==> Covered(frames[indices[m]], keys, dist, distance)
    ensures CoveredCount(frames, keys, dist, distance) >= |indices|
    decreases |frames|
  {
    if frames != [] {
      var n := |frames|;
      var init := frames[..n - 1];
      if indices != [] && indices[|indices| - 1] == n - 1 {
        var rest := indices[..|indices| - 1];
        assert forall m :: 0 <= m < |rest| ==> init[rest[m]] == frames[rest[m]];
        CoveredCountAtLeast(init, keys, dist, distance, rest);
      } else {
        assert forall m :: 0 <= m < |indices| ==> indices[m] < n - 1 by {
          forall m | 0 <= m < |indices| ensures indices[m] < n - 1 {
            if m < |indices| - 1 {
              assert indices[m] < indices[|indices| - 1];
            }
          }
        }
        assert forall m :: 0 <= m < |indices| ==> init[indices[m]] == frames[indices[m]];
        CoveredCountAtLeast(init, keys, dist, distance, indices);
      }
    }
  }

  /** When every frame is within `dist` of itself, every key frame covers
      itself, so the coverage check counts at least as many frames as there
      are key frames. */
  lemma HitsAtLeastKeyFrames<H>(frames: seq<H>, n: nat, dist: int, distance: (H, H) -> int)
    requires n <= |frames|
    requires forall x :: distance(x, x) <= dist
    ensures CoveredCount(frames, Select(frames, n, dist, distance), dist, distance)
         >= |Select(frames, n, dist, distance)|
  {
    var indices := KeyIndices(frames, n, dist, distance, 0);
    var keys := Select(frames, n, dist, distance);
    forall m | 0 <= m < |indices|
      ensures Covered(frames[indices[m]], keys, dist, distance)
    {
      assert keys[m] == frames[indices[m]];
      assert distance(frames[indices[m]], keys[m]) <= dist;
    }
    KeyIndicesIncreasing(frames, n, dist, distance, 0);
    CoveredCountAtLeast(frames, keys, dist, distance, indices);
  }

  /** With the Hamming distance and `dist >= 0` every key frame matches
      itself at distance 0. */
  lemma HammingHitsAtLeastKeyFrames(frames: seq<nat>, n: nat, dist: int)
    requires n <= |frames| && dist >= 0
    ensures CoveredCount(frames, Select(frames, n, dist, Hamming), dist, Hamming)
         >= |Select(frames, n, dist, Hamming)|
  {
    forall x: nat ensures Hamming(x, x) <= dist {
    }
    HitsAtLeastKeyFrames<nat>(frames, n, dist, Hamming);
  }

  // ---------------------------------------------------------------------------
  // The pipeline of `main`
  // ---------------------------------------------------------------------------

  /** `main` up to the coverage check: build the video, load `length` frames
      from `stream`, select the key frames and count the hits. */
  method Run<H>(stream: seq<H>, length: nat, dist: int, distance: (H, H) -> int)
    returns (keyFrames: seq<H>, hits: nat)
    requires length <= |stream|
    ensures keyFrames == Select(stream[..length], length, dist, distance)
    ensures hits == CoveredCount(stream[..length], keyFrames, dist, distance)
    ensures |keyFrames| < length || length == 0
    ensures hits <= length
    ensures (forall x :: distance(x, x) <= dist) ==> |keyFrames| <= hits
  {
    var video := new Video(length, dist, distance);
    video.LoadVideo(stream);
    assert video.frames == stream[..length];
    video.ProcessVideo();
    hits := video.CheckHits();
    keyFrames := video.keyFrames;
    KeyIndicesIncreasing(stream[..length], length, dist, distance, 0);
    assert |keyFrames| == |KeyIndices(stream[..length], length, dist, distance, 0)|;
    if forall x :: distance(x, x) <= dist {
      HitsAtLeastKeyFrames(stream[..length], length, dist, distance);
    }
  }

  // ---------------------------------------------------------------------------
  // Concrete runs with the Hamming distance
  // ---------------------------------------------------------------------------

  /** Hashes 1, 1, 2, 2, 3 with threshold 0: every frame but the last. */
  lemma ZeroThresholdExample()
    ensures Select<nat>([1, 1, 2, 2, 3], 5, 0, Hamming) == [1, 1, 2, 2]
  {
    HammingNonPositiveThreshold([1, 1, 2, 2, 3], 5, 0);
  }

  /** Hashes 10, 10, 10, 50, 50 with threshold 5: 10 and 50 differ in only
      three bits, so no anchor ever closes its window and no key frame is
      selected. */
  lemma FewDifferingBitsExample(frames: seq<nat>)
    requires frames == [10, 10, 10, 50, 50]
    ensures Select(frames, 5, 5, Hamming) == []
  {
    forall i, j | 0 <= i < j < 5 ensures Hamming(frames[i], frames[j]) < 5 {
      TenOrFiftyClose(frames[i], frames[j]);
    }
    NoFarPairNoKeyFrames<nat>(frames, 5, 5, Hamming);
  }

  /** Hashes 1, 0, 3 with the Hamming distance and threshold 2: frame 0 is
      within one bit of both later frames and is dropped; frame 1 becomes
      the anchor and frame 2, two bits away, closes its window; frame 2, the
      trailing anchor, is not kept. */
  lemma DroppedThenKeptExample(frames: seq<nat>)
    requires frames == [1, 0, 3]
    ensures KeyIndices(frames, 3, 2, Hamming, 0) == [1]
    ensures Select(frames, 3, 2, Hamming) == [0]
  {
    assert Xor(1, 0) == 1 && PopCount(1) == 1;
    assert Xor(0, 1) == 1 && Xor(1, 3) == 2 && PopCount(2) == 1;
    assert Xor(0, 3) == 3 && PopCount(3) == 2;
    AnchorDropped<nat>(frames, 3, 2, Hamming, 0);
    AnchorEmitted<nat>(frames, 3, 2, Hamming, 1, 2);
    AnchorDropped<nat>(frames, 3, 2, Hamming, 2);
  }

  /** Any two hashes among 10 and 50 are fewer than five bits apart. */
  lemma TenOrFiftyClose(x: nat, y: nat)
    requires (x == 10 || x == 50) && (y == 10 || y == 50)
    ensures Hamming(x, y) < 5
  {
    if x != y {
      TenFiftyHamming();
      HammingSymmetric(10, 50);
    }
  }

  /** 10 = 0b001010 and 50 = 0b110010 differ in three bits. */
  lemma TenFiftyHamming()
    ensures Hamming(10, 50) == 3
  {
    assert Xor(0, 1) == 1;
    assert Xor(0, 3) == 3;
    assert Xor(1, 6) == 7;
    assert Xor(2, 12) == 14;
    assert Xor(5, 25) == 28;
    assert Xor(10, 50) == 56;
    assert PopCount(7) == 3;
    assert PopCount(56) == 3;
  }
}
