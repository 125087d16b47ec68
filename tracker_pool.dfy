/** The pool of the centroid trackers (`ctrs_mtx` in Nuclei3dTracker.py): one
    entry per object of every frame, frame after frame, and within a frame by
    ascending label as `regionprops_table` lists them. The centroid of the
    object with a given label in a frame is an external function. */
module CentroidPool {
  import opened Volumes
  import opened CentroidTracker

  /** The entries of frame t: its labels in ascending order, each with the
      centroid of its object. */
  function FrameEntries(f: Frame, t: nat, centroid: (Frame, nat) -> Centroid): seq<Entry> {
    EntriesIn(f, Labels(f), t, centroid)
  }

  /** The entries for the labels of s, smallest label first. */
  function EntriesIn(f: Frame, s: set<nat>, t: nat, centroid: (Frame, nat) -> Centroid): seq<Entry>
    decreases |s|
  {
    if s == {} then [] else
      var m := Least(s);
      [Entry(m, centroid(f, m), t)] + EntriesIn(f, s - {m}, t, centroid)
  }

  /** The pool after the frames before n have been appended. */
  function PoolUpTo(segm: seq<Frame>, centroid: (Frame, nat) -> Centroid, n: nat): seq<Entry>
    requires n <= |segm|
  {
    if n == 0 then [] else PoolUpTo(segm, centroid, n - 1) + FrameEntries(segm[n - 1], n - 1, centroid)
  }

  function Pool(segm: seq<Frame>, centroid: (Frame, nat) -> Centroid): seq<Entry> {
    PoolUpTo(segm, centroid, |segm|)
  }

  /** The frame holds an object with the entry's label and centroid. */
  predicate Holds(f: Frame, centroid: (Frame, nat) -> Centroid, e: Entry) {
    e.lbl in Labels(f) && e.c == centroid(f, e.lbl)
  }

  /** An entry describes an object that its frame of segm really holds. */
  predicate Describes(segm: seq<Frame>, centroid: (Frame, nat) -> Centroid, e: Entry) {
    e.t < |segm| && Holds(segm[e.t], centroid, e)
  }

  /** Entries sorted by frame, then by label. */
  predicate Ordered(pool: seq<Entry>) {
    forall i, j :: 0 <= i < j < |pool| ==>
      pool[i].t < pool[j].t || (pool[i].t == pool[j].t && pool[i].lbl < pool[j].lbl)
  }

  lemma OrderedUnique(pool: seq<Entry>)
    requires Ordered(pool)
    ensures UniqueKeys(pool)
  {
    forall i, j | 0 <= i < j < |pool| ensures Key(pool[i]) != Key(pool[j]) {
      assert pool[i].t < pool[j].t || pool[i].lbl < pool[j].lbl;
    }
  }

  /** The entries of a frame carry its time and are in label order. */
  lemma FrameEntriesShape(f: Frame, t: nat, centroid: (Frame, nat) -> Centroid)
    ensures Ordered(FrameEntries(f, t, centroid))
    ensures forall k :: 0 <= k < |FrameEntries(f, t, centroid)| ==> FrameEntries(f, t, centroid)[k].t == t
  {
    EntriesInShape(f, Labels(f), t, centroid);
  }

  /** The entries of a frame are exactly its objects, one per label. */
  lemma FrameEntriesMembers(f: Frame, t: nat, centroid: (Frame, nat) -> Centroid)
    ensures |FrameEntries(f, t, centroid)| == |Labels(f)|
    ensures forall e :: e in FrameEntries(f, t, centroid) <==> e.t == t && Holds(f, centroid, e)
  {
    EntriesInMembers(f, Labels(f), t, centroid);
  }

  lemma {:induction false} EntriesInMembers(f: Frame, s: set<nat>, t: nat, centroid: (Frame, nat) -> Centroid)
    ensures |EntriesIn(f, s, t, centroid)| == |s|
    ensures forall e :: e in EntriesIn(f, s, t, centroid) <==> e.t == t && e.lbl in s && e.c == centroid(f, e.lbl)
    decreases |s|
  {
    if s != {} {
      EntriesInMembers(f, s - {Least(s)}, t, centroid);
    }
  }

  lemma {:induction false} EntriesInShape(f: Frame, s: set<nat>, t: nat, centroid: (Frame, nat) -> Centroid)
    ensures Ordered(EntriesIn(f, s, t, centroid))
    ensures forall k :: 0 <= k < |EntriesIn(f, s, t, centroid)| ==> EntriesIn(f, s, t, centroid)[k].t == t
    decreases |s|
  {
    if s != {} {
      EntriesInShape(f, s - {Least(s)}, t, centroid);
      EntriesInMembers(f, s - {Least(s)}, t, centroid);
      var m := Least(s);
      var r := EntriesIn(f, s, t, centroid);
      var rest := EntriesIn(f, s - {m}, t, centroid);
      assert r == [Entry(m, centroid(f, m), t)] + rest;
      forall i, j | 0 <= i < j < |r|
        ensures r[i].t < r[j].t || (r[i].t == r[j].t && r[i].lbl < r[j].lbl)
      {
        assert r[j] == rest[j - 1];
        if i == 0 {
          assert rest[j - 1] in rest;
        } else {
          assert r[i] == rest[i - 1];
        }
      }
    }
  }

  /** The pool of the first n frames holds exactly the objects of those
      frames, each once, ordered by frame and then by label. */
  lemma PoolUpToFacts(segm: seq<Frame>, centroid: (Frame, nat) -> Centroid, n: nat)
    requires n <= |segm|
    ensures var p := PoolUpTo(segm, centroid, n);
      && Ordered(p)
      && (forall e :: e in p <==> e.t < n && Describes(segm, centroid, e))
  {
    PoolUpToOrdered(segm, centroid, n);
    PoolUpToMembers(segm, centroid, n);
  }

  lemma {:induction false} PoolUpToOrdered(segm: seq<Frame>, centroid: (Frame, nat) -> Centroid, n: nat)
    requires n <= |segm|
    ensures Ordered(PoolUpTo(segm, centroid, n))
    ensures forall e :: e in PoolUpTo(segm, centroid, n) ==> e.t < n
  {
    if n > 0 {
      PoolUpToOrdered(segm, centroid, n - 1);
      FrameEntriesShape(segm[n - 1], n - 1, centroid);
      OrderedAppend(PoolUpTo(segm, centroid, n - 1), FrameEntries(segm[n - 1], n - 1, centroid), n - 1);
    }
  }

  lemma {:induction false} PoolUpToMembers(segm: seq<Frame>, centroid: (Frame, nat) -> Centroid, n: nat)
    requires n <= |segm|
    ensures forall e :: e in PoolUpTo(segm, centroid, n) <==> e.t < n && Describes(segm, centroid, e)
  {
    if n > 0 {
      PoolUpToMembers(segm, centroid, n - 1);
      FrameEntriesMembers(segm[n - 1], n - 1, centroid);
    }
  }

  /** Appending the ordered entries of frame u to an ordered pool of earlier
      frames keeps it ordered. */
  lemma OrderedAppend(prev: seq<Entry>, last: seq<Entry>, u: nat)
    requires Ordered(prev) && Ordered(last)
    requires forall e :: e in prev ==> e.t < u
    requires forall k :: 0 <= k < |last| ==> last[k].t == u
    ensures Ordered(prev + last)
  {
    var p := prev + last;
    forall i, j | 0 <= i < j < |p|
      ensures p[i].t < p[j].t || (p[i].t == p[j].t && p[i].lbl < p[j].lbl)
    {
      if j >= |prev| {
        assert p[j] == last[j - |prev|];
        if i < |prev| {
          assert p[i] in prev;
        } else {
          assert p[i] == last[i - |prev|];
        }
      } else {
        assert p[i] == prev[i] && p[j] == prev[j];
      }
    }
  }

  /** The whole pool: every object of every frame, once, in frame and label
      order, so no two entries share a (frame, label) pair. */
  lemma PoolFacts(segm: seq<Frame>, centroid: (Frame, nat) -> Centroid)
    ensures var p := Pool(segm, centroid);
      && Ordered(p) && UniqueKeys(p)
      && (forall e :: e in p <==> Describes(segm, centroid, e))
      && (forall e :: e in p ==> e.lbl != 0)
  {
    PoolUpToFacts(segm, centroid, |segm|);
    OrderedUnique(Pool(segm, centroid));
  }

  /** The first frame, among the first n, that holds exactly one object. */
  function FirstSingle(segm: seq<Frame>, n: nat): (r: Option<nat>)
    requires n <= |segm|
    ensures r.Some? ==> r.value < n && |Labels(segm[r.value])| == 1
    ensures forall t :: 0 <= t < n && (r.None? || t < r.value) ==> |Labels(segm[t])| != 1
  {
    if n == 0 then None
    else
      match FirstSingle(segm, n - 1)
      case Some(t) => Some(t)
      case None => if |Labels(segm[n - 1])| == 1 then Some(n - 1) else None
  }

  /** The construction of `ctrs_mtx`. As written it indexes `nucs_segm[0]`,
      so it fails without frames, and `np.squeeze` turns the matrix of a
      frame with exactly one object into a vector whose `shape[1]` does not
      exist, so it fails at the first such frame; the corrected construction
      takes every frame. */
  function BuildPool(mode: Mode, segm: seq<Frame>, centroid: (Frame, nat) -> Centroid): Result<seq<Entry>, TrackError> {
    if |segm| == 0 then Err(NoFrames)
    else if mode == AsWritten && FirstSingle(segm, |segm|).Some? then Err(SingleObjectFrame(FirstSingle(segm, |segm|).value))
    else Ok(Pool(segm, centroid))
  }

  /** When the construction fails and when it succeeds. */
  lemma BuildPoolFacts(mode: Mode, segm: seq<Frame>, centroid: (Frame, nat) -> Centroid)
    ensures var r := BuildPool(mode, segm, centroid);
      && (r == Err(NoFrames) <==> |segm| == 0)
      && (forall t: nat :: r == Err(SingleObjectFrame(t)) <==>
            mode == AsWritten && 0 < |segm| && t < |segm| && |Labels(segm[t])| == 1 &&
            forall s :: 0 <= s < t ==> |Labels(segm[s])| != 1)
      && (r.Ok? ==> r.value == Pool(segm, centroid))
      && (mode == Corrected && 0 < |segm| ==> r.Ok?)
  {
    var r := BuildPool(mode, segm, centroid);
    forall t: nat ensures r == Err(SingleObjectFrame(t)) <==>
      mode == AsWritten && 0 < |segm| && t < |segm| && |Labels(segm[t])| == 1 &&
      forall s :: 0 <= s < t ==> |Labels(segm[s])| != 1
    {
      if mode == AsWritten && 0 < |segm| && t < |segm| && |Labels(segm[t])| == 1 &&
         forall s :: 0 <= s < t ==> |Labels(segm[s])| != 1 {
        var first := FirstSingle(segm, |segm|);
        assert first.Some?;
        assert !(first.value < t);
        assert !(t < first.value);
      }
    }
  }

  /** One frame holding one object (a single voxel with label 1): the code as
      written fails on it, the corrected construction makes one entry, and
      the corrected tracker makes one track of it. */
  lemma SingleObjectCrash(dist: (Centroid, Centroid) -> real, thr: real, centroid: (Frame, nat) -> Centroid)
    ensures var segm := [map[Voxel(0, 0, 0) := 1]];
      var e := Entry(1, centroid(segm[0], 1), 0);
      && BuildPool(AsWritten, segm, centroid) == Err(SingleObjectFrame(0))
      && BuildPool(Corrected, segm, centroid) == Ok([e])
      && Tracks(dist, thr, Corrected, [e], 1, 1) == Ok([Track(1, [e])])
  {
    var v := Voxel(0, 0, 0);
    var f := map[v := 1];
    var segm := [f];
    var e := Entry(1, centroid(f, 1), 0);
    assert Labels(f) == {1} by {
      assert f[v] in Labels(f);
    }
    assert Least({1}) == 1;
    assert {1} - {1} == {};
    assert FrameEntries(f, 0, centroid) == [e] + [];
    assert PoolUpTo(segm, centroid, 1) == [] + [e];
    assert [] + [e] == [e];
    assert FirstSingle(segm, 1) == Some(0);
    assert BuildPool(AsWritten, segm, centroid) == Err(SingleObjectFrame(0));
    assert BuildPool(Corrected, segm, centroid) == Ok([e]);
    assert [e][1..] == [];
    assert Tracks(dist, thr, Corrected, [], 1, 2) == Ok([]);
    assert [e] + [] == [e];
    assert [Track(1, [e])] + [] == [Track(1, [e])];
  }
}
