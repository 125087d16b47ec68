/** The centroid trackers end to end (`Nuclei3dTracker` and `Nuclei2dTracker`
    in Nuclei3dTracker.py): build the pool, pop references and scan the
    following frames, and paint every track into a zeroed copy of the movie.
    The spec functions say what comes out; the methods follow the loops of
    the source and are proved to compute it. */
module CentroidRun {
  import opened Volumes
  import opened CentroidTracker
  import opened CentroidPool
  import opened CentroidPaint

  /** `np.zeros_like(nucs_segm)`. */
  function ZeroFrames(segm: seq<Frame>): (r: seq<Frame>)
    ensures SameShape(r, segm)
  {
    seq(|segm|, i requires 0 <= i < |segm| => Zeros(segm[i]))
  }

  /** The members of the tracks of a pool whose entries lie in the first n
      frames lie there too. */
  lemma TracksWithinFrames(dist: (Centroid, Centroid) -> real, thr: real, mode: Mode, pool: seq<Entry>, n: nat, ts: seq<Track>)
    requires UniqueKeys(pool) && forall e :: e in pool ==> e.t < n
    requires Tracks(dist, thr, mode, pool, n, 1) == Ok(ts)
    ensures WithinFrames(ts, n)
  {
    TracksFacts(dist, thr, mode, pool, n, 1);
    forall k, j | 0 <= k < |ts| && 0 <= j < |ts[k].members| ensures ts[k].members[j].t < n {
      FlattenHas(ts, k, j);
      assert ts[k].members[j] in multiset(pool);
    }
  }

  /** Tracking a pool and painting its tracks into zeroed frames. */
  function Outcome(dist: (Centroid, Centroid) -> real, thr: real, mode: Mode, segm: seq<Frame>, pool: seq<Entry>)
    : Result<seq<Frame>, TrackError>
    requires UniqueKeys(pool) && forall e :: e in pool ==> e.t < |segm|
  {
    match Tracks(dist, thr, mode, pool, |segm|, 1)
    case Err(e) => Err(e)
    case Ok(ts) =>
      TracksWithinFrames(dist, thr, mode, pool, |segm|, ts);
      Ok(PaintTracks(ZeroFrames(segm), segm, ts))
  }

  /** The whole tracker: `nucs_trck`, or the failure of the code as written. */
  function Tracked(dist: (Centroid, Centroid) -> real, thr: real, mode: Mode, segm: seq<Frame>, centroid: (Frame, nat) -> Centroid)
    : Result<seq<Frame>, TrackError>
  {
    match BuildPool(mode, segm, centroid)
    case Err(e) => Err(e)
    case Ok(pool) =>
      PoolFacts(segm, centroid);
      Outcome(dist, thr, mode, segm, pool)
  }

  /** The tracks of the run, when it succeeds. */
  function TracksOf(dist: (Centroid, Centroid) -> real, thr: real, mode: Mode, segm: seq<Frame>, centroid: (Frame, nat) -> Centroid)
    : Result<seq<Track>, TrackError>
  {
    Tracks(dist, thr, mode, Pool(segm, centroid), |segm|, 1)
  }

  // ---------------------------------------------------------------------
  // What the output holds.

  /** The tracks of a successful run lie within the movie, their keys are
      distinct, and their members are exactly the objects of the movie. */
  lemma RunTracksFacts(dist: (Centroid, Centroid) -> real, thr: real, mode: Mode, segm: seq<Frame>, centroid: (Frame, nat) -> Centroid,
                       ts: seq<Track>)
    requires TracksOf(dist, thr, mode, segm, centroid) == Ok(ts)
    ensures WithinFrames(ts, |segm|)
    ensures UniqueKeys(Flatten(ts))
    ensures forall e :: e in Flatten(ts) <==> Describes(segm, centroid, e)
    ensures TracksOutcome(dist, thr, Pool(segm, centroid), 1, ts)
  {
    PoolFacts(segm, centroid);
    TracksFacts(dist, thr, mode, Pool(segm, centroid), |segm|, 1);
    TracksWithinFrames(dist, thr, mode, Pool(segm, centroid), |segm|, ts);
    UniqueKeysPermuted(Flatten(ts), Pool(segm, centroid));
    forall e ensures e in Flatten(ts) <==> Describes(segm, centroid, e) {
      assert e in Flatten(ts) <==> e in multiset(Flatten(ts));
      assert e in Pool(segm, centroid) <==> e in multiset(Pool(segm, centroid));
    }
  }

  /** Background voxels stay 0. */
  lemma BackgroundValue(dist: (Centroid, Centroid) -> real, thr: real, mode: Mode, segm: seq<Frame>, centroid: (Frame, nat) -> Centroid,
                        ts: seq<Track>, t: nat, v: Voxel)
    requires TracksOf(dist, thr, mode, segm, centroid) == Ok(ts)
    requires t < |segm| && v in segm[t] && segm[t][v] == 0
    ensures WithinFrames(ts, |segm|)
    ensures v in PaintTracks(ZeroFrames(segm), segm, ts)[t] && PaintTracks(ZeroFrames(segm), segm, ts)[t][v] == 0
  {
    RunTracksFacts(dist, thr, mode, segm, centroid, ts);
    PaintTracksValue(ZeroFrames(segm), segm, ts, t, v);
    forall e | e in Flatten(ts) ensures Key(e) != (t, 0) {
      assert e.lbl in Labels(segm[e.t]);
    }
    AddedNone(ts, t, 0);
  }

  /** A voxel of an object holds the id of the one track that took the
      entry of that object, modulo 65536. */
  lemma ObjectValue(dist: (Centroid, Centroid) -> real, thr: real, mode: Mode, segm: seq<Frame>, centroid: (Frame, nat) -> Centroid,
                    ts: seq<Track>, t: nat, v: Voxel) returns (k: nat)
    requires TracksOf(dist, thr, mode, segm, centroid) == Ok(ts)
    requires t < |segm| && v in segm[t] && segm[t][v] != 0
    ensures WithinFrames(ts, |segm|)
    ensures k < |ts| && Entry(segm[t][v], centroid(segm[t], segm[t][v]), t) in ts[k].members
    ensures v in PaintTracks(ZeroFrames(segm), segm, ts)[t]
    ensures PaintTracks(ZeroFrames(segm), segm, ts)[t][v] == (k + 1) % IdRange
  {
    RunTracksFacts(dist, thr, mode, segm, centroid, ts);
    assert segm[t][v] in Labels(segm[t]);
    assert Describes(segm, centroid, Entry(segm[t][v], centroid(segm[t], segm[t][v]), t));
    var j;
    k, j := FlattenFind(ts, Entry(segm[t][v], centroid(segm[t], segm[t][v]), t));
    AddedOwner(ts, k, j);
    PaintTracksValue(ZeroFrames(segm), segm, ts, t, v);
  }

  /** What the tracker delivers. The corrected tracker never fails on a
      non-empty movie; the output has the shape of the movie; background
      stays 0; every voxel of an object holds the id (1, 2, ... in the order
      the references were popped, modulo 65536) of the one track that holds
      the object; and every track is chained to its reference. */
  lemma TrackedFacts(dist: (Centroid, Centroid) -> real, thr: real, mode: Mode, segm: seq<Frame>, centroid: (Frame, nat) -> Centroid)
    ensures var r := Tracked(dist, thr, mode, segm, centroid);
      && (mode == Corrected && |segm| > 0 ==> r.Ok?)
      && (r.Ok? ==> TracksOf(dist, thr, mode, segm, centroid).Ok?)
      && (r.Ok? ==> SameShape(r.value, segm))
      && (r.Ok? ==> forall t, v :: 0 <= t < |segm| && v in segm[t] && segm[t][v] == 0 ==> r.value[t][v] == 0)
      && (r.Ok? ==> var ts := TracksOf(dist, thr, mode, segm, centroid).value;
            && TracksOutcome(dist, thr, Pool(segm, centroid), 1, ts)
            && forall t, v :: 0 <= t < |segm| && v in segm[t] && segm[t][v] != 0 ==>
                 exists k :: 0 <= k < |ts| && Entry(segm[t][v], centroid(segm[t], segm[t][v]), t) in ts[k].members
                   && r.value[t][v] == (k + 1) % IdRange)
  {
    BuildPoolFacts(mode, segm, centroid);
    PoolFacts(segm, centroid);
    if mode == Corrected && |segm| > 0 {
      CorrectedTracksSucceed(dist, thr, Pool(segm, centroid), |segm|, 1);
    }
    if Tracked(dist, thr, mode, segm, centroid).Ok? {
      var r := Tracked(dist, thr, mode, segm, centroid);
      var ts := TracksOf(dist, thr, mode, segm, centroid).value;
      RunTracksFacts(dist, thr, mode, segm, centroid, ts);
      assert r.value == PaintTracks(ZeroFrames(segm), segm, ts);
      PaintTracksShape(ZeroFrames(segm), segm, ts);
      forall t, v | 0 <= t < |segm| && v in segm[t] && segm[t][v] == 0 ensures r.value[t][v] == 0 {
        BackgroundValue(dist, thr, mode, segm, centroid, ts, t, v);
      }
      forall t, v | 0 <= t < |segm| && v in segm[t] && segm[t][v] != 0
        ensures exists k :: 0 <= k < |ts| && Entry(segm[t][v], centroid(segm[t], segm[t][v]), t) in ts[k].members
                  && r.value[t][v] == (k + 1) % IdRange
      {
        var k := ObjectValue(dist, thr, mode, segm, centroid, ts, t, v);
      }
    }
  }

  // ---------------------------------------------------------------------
  // The loops of the source.

  /** The pool as the `for tt` loop builds it, frame after frame; the code as
      written stops at the first frame holding one object. */
  method BuildPoolLoop(mode: Mode, segm: seq<Frame>, centroid: (Frame, nat) -> Centroid)
    returns (r: Result<seq<Entry>, TrackError>)
    ensures r == BuildPool(mode, segm, centroid)
  {
    if |segm| == 0 {
      return Err(NoFrames);
    }
    var pool := [];
    for tt := 0 to |segm|
      invariant pool == PoolUpTo(segm, centroid, tt)
      invariant mode == AsWritten ==> FirstSingle(segm, tt) == None
    {
      if mode == AsWritten && |Labels(segm[tt])| == 1 {
        assert FirstSingle(segm, tt + 1) == Some(tt);
        FirstSingleStays(segm, tt + 1, |segm|);
        return Err(SingleObjectFrame(tt));
      }
      pool := pool + FrameEntries(segm[tt], tt, centroid);
    }
    return Ok(pool);
  }

  /** `Nuclei3dTracker`: the pool, then the greedy tracks painted into zeroed
      frames, with distances in micrometres over z, x and y. */
  method Track3D(pxy: real, pz: real, root: real -> real, thr: real, mode: Mode, segm: seq<Frame>,
                 centroid: (Frame, nat) -> Centroid)
    returns (r: Result<seq<Frame>, TrackError>)
    ensures r == Tracked(Distance(Space(pxy, pz), root), thr, mode, segm, centroid)
  {
    var pool := BuildPoolLoop(mode, segm, centroid);
    if pool.Err? {
      return Err(pool.error);
    }
    PoolFacts(segm, centroid);
    r := TrackGreedy(Distance(Space(pxy, pz), root), thr, mode, segm, pool.value);
  }

  /** `Nuclei2dTracker`: the same with the z coordinate dropped. */
  method Track2D(pxy: real, root: real -> real, thr: real, mode: Mode, segm: seq<Frame>,
                 centroid: (Frame, nat) -> Centroid)
    returns (r: Result<seq<Frame>, TrackError>)
    ensures r == Tracked(Distance(Plane(pxy), root), thr, mode, segm, centroid)
  {
    var pool := BuildPoolLoop(mode, segm, centroid);
    if pool.Err? {
      return Err(pool.error);
    }
    PoolFacts(segm, centroid);
    r := TrackGreedy(Distance(Plane(pxy), root), thr, mode, segm, pool.value);
  }

  /** Once found among the first n frames, the first single-object frame stays the same. */
  lemma {:induction false} FirstSingleStays(segm: seq<Frame>, n: nat, m: nat)
    requires n <= m <= |segm| && FirstSingle(segm, n).Some?
    ensures FirstSingle(segm, m) == FirstSingle(segm, n)
    decreases m - n
  {
    if n < m {
      FirstSingleStays(segm, n, m - 1);
    }
  }

  /** The result of a scan with the matches ms found before it. */
  function AfterMatches(ms: seq<Entry>, r: Result<(seq<Entry>, seq<Entry>), TrackError>): Result<(seq<Entry>, seq<Entry>), TrackError> {
    match r
    case Err(e) => Err(e)
    case Ok(p) => Ok((ms + p.0, p.1))
  }

  /** The result of the tracker with the tracks done found before it. */
  function AfterTracks(done: seq<Track>, r: Result<seq<Track>, TrackError>): Result<seq<Track>, TrackError> {
    match r
    case Err(e) => Err(e)
    case Ok(ts) => Ok(done + ts)
  }

  /** One match of the scan, seen from the matches before it. */
  lemma ScanAdvance(dist: (Centroid, Centroid) -> real, thr: real, mode: Mode, ref: Centroid, pool: seq<Entry>, u: nat, tlen: nat,
                    ms: seq<Entry>, m: Entry)
    requires u < tlen && AtTime(pool, u) != []
    requires m == AtTime(pool, u)[ArgMin(dist, ref, AtTime(pool, u))] && Near(dist, thr, ref, m.c)
    ensures AfterMatches(ms, Scan(dist, thr, mode, ref, pool, u, tlen))
         == AfterMatches(ms + [m], Scan(dist, thr, mode, ref, Without(pool, m), u + 1, tlen))
  {
    ScanMatch(dist, thr, mode, ref, pool, u, tlen, m);
    AfterMatchesTwice(ms, m, Scan(dist, thr, mode, ref, Without(pool, m), u + 1, tlen));
  }

  /** A scan that matches m at frame u goes on from frame u + 1 without m. */
  lemma ScanMatch(dist: (Centroid, Centroid) -> real, thr: real, mode: Mode, ref: Centroid, pool: seq<Entry>, u: nat, tlen: nat,
                  m: Entry)
    requires u < tlen && AtTime(pool, u) != []
    requires m == AtTime(pool, u)[ArgMin(dist, ref, AtTime(pool, u))] && Near(dist, thr, ref, m.c)
    ensures Scan(dist, thr, mode, ref, pool, u, tlen)
         == AfterMatches([m], Scan(dist, thr, mode, ref, Without(pool, m), u + 1, tlen))
  {
  }

  lemma AfterMatchesTwice(ms: seq<Entry>, m: Entry, r: Result<(seq<Entry>, seq<Entry>), TrackError>)
    ensures AfterMatches(ms, AfterMatches([m], r)) == AfterMatches(ms + [m], r)
  {
    if r.Ok? {
      assert ms + ([m] + r.value.0) == ms + [m] + r.value.0;
    }
  }

  /** One track of the outer loop, seen from the tracks before it. */
  lemma TracksAdvance(dist: (Centroid, Centroid) -> real, thr: real, mode: Mode, pool: seq<Entry>, tlen: nat, id: nat,
                      done: seq<Track>, ms: seq<Entry>, rest: seq<Entry>)
    requires pool != [] && Scan(dist, thr, mode, pool[0].c, pool[1..], pool[0].t + 1, tlen) == Ok((ms, rest))
    ensures AfterTracks(done, Tracks(dist, thr, mode, pool, tlen, id))
         == AfterTracks(done + [Track(id, [pool[0]] + ms)], Tracks(dist, thr, mode, rest, tlen, id + 1))
  {
    match Tracks(dist, thr, mode, rest, tlen, id + 1)
    case Err(e) =>
    case Ok(ts) =>
      assert done + ([Track(id, [pool[0]] + ms)] + ts) == done + [Track(id, [pool[0]] + ms)] + ts;
  }

  lemma PaintMembersLast(trck: seq<Frame>, segm: seq<Frame>, ms: seq<Entry>, m: Entry, id: nat)
    requires |trck| == |segm| && m.t < |segm|
    requires forall j :: 0 <= j < |ms| ==> ms[j].t < |segm|
    ensures forall j :: 0 <= j < |ms + [m]| ==> (ms + [m])[j].t < |segm|
    ensures PaintMembers(trck, segm, ms + [m], id) == PaintEntry(PaintMembers(trck, segm, ms, id), segm, m, id)
  {
    assert (ms + [m])[..|ms|] == ms;
  }

  lemma PaintTracksLast(trck: seq<Frame>, segm: seq<Frame>, done: seq<Track>, tr: Track)
    requires |trck| == |segm| && WithinFrames(done, |segm|)
    requires forall j :: 0 <= j < |tr.members| ==> tr.members[j].t < |segm|
    ensures WithinFrames(done + [tr], |segm|)
    ensures PaintTracks(trck, segm, done + [tr]) == PaintMembers(PaintTracks(trck, segm, done), segm, tr.members, tr.id)
  {
    assert (done + [tr])[..|done|] == done;
    forall k, j | 0 <= k < |done + [tr]| && 0 <= j < |(done + [tr])[k].members|
      ensures (done + [tr])[k].members[j].t < |segm|
    {
      if k < |done| {
        assert (done + [tr])[k] == done[k];
      }
    }
  }

  /** `nucs_trck[t] += ((nucs_segm[t] == lbl) * id).astype(np.uint16)` for
      the object of entry e. */
  method PaintObject(trck: array<Frame>, segm: seq<Frame>, e: Entry, id: nat)
    requires trck.Length == |segm| && e.t < |segm|
    modifies trck
    ensures trck[..] == PaintEntry(old(trck[..]), segm, e, id)
  {
    trck[e.t] := Stamp(trck[e.t], segm[e.t], e.lbl, id);
  }

  /** Paints the objects of every member of a track with its id, in member
      order. */
  method PaintTrack(trck: array<Frame>, segm: seq<Frame>, tr: Track)
    requires trck.Length == |segm|
    requires forall j :: 0 <= j < |tr.members| ==> tr.members[j].t < |segm|
    modifies trck
    ensures trck[..] == PaintMembers(old(trck[..]), segm, tr.members, tr.id)
  {
    ghost var base := trck[..];
    for j := 0 to |tr.members|
      invariant trck[..] == PaintMembers(base, segm, tr.members[..j], tr.id)
    {
      ghost var before := trck[..];
      PaintObject(trck, segm, tr.members[j], tr.id);
      PaintMembersStep(base, segm, tr.members, j, tr.id, before, trck[..]);
    }
    assert tr.members[..|tr.members|] == tr.members;
  }

  /** PaintMembersLast, stated over the prefix of j + 1 members. */
  lemma PaintMembersStep(base: seq<Frame>, segm: seq<Frame>, ms: seq<Entry>, j: nat, id: nat, before: seq<Frame>, after: seq<Frame>)
    requires |base| == |segm| && j < |ms|
    requires forall i :: 0 <= i < |ms| ==> ms[i].t < |segm|
    requires before == PaintMembers(base, segm, ms[..j], id)
    requires after == PaintEntry(before, segm, ms[j], id)
    ensures after == PaintMembers(base, segm, ms[..j + 1], id)
  {
    assert ms[..j + 1] == ms[..j] + [ms[j]];
    PaintMembersLast(base, segm, ms[..j], ms[j], id);
  }

  /** The `for uu` loop of one track: from frame u0 on, take the closest
      remaining entry of each frame while it is within the threshold of the
      reference, and delete it from the pool. */
  method ScanFrames(dist: (Centroid, Centroid) -> real, thr: real, mode: Mode, tlen: nat,
                    ref: Centroid, pool0: seq<Entry>, u0: nat)
    returns (r: Result<(seq<Entry>, seq<Entry>), TrackError>)
    requires u0 <= tlen
    ensures r == Scan(dist, thr, mode, ref, pool0, u0, tlen)
  {
    var pool := pool0;
    var ms := [];
    AfterNoMatches(Scan(dist, thr, mode, ref, pool0, u0, tlen));
    var uu := u0;
    while uu < tlen
      invariant u0 <= uu <= tlen
      invariant Scan(dist, thr, mode, ref, pool0, u0, tlen) == AfterMatches(ms, Scan(dist, thr, mode, ref, pool, uu, tlen))
    {
      var ext := AtTime(pool, uu);
      if ext == [] {
        if mode == AsWritten {
          return Err(EmptyFrame(uu));
        }
        break;
      }
      var m := ext[ArgMin(dist, ref, ext)];
      if !Near(dist, thr, ref, m.c) {
        break;
      }
      ghost var pool1, ms1, u1 := pool, ms, uu;
      pool := Without(pool, m);
      ms := ms + [m];
      uu := uu + 1;
      ScanStep(dist, thr, mode, ref, pool1, u1, tlen, ms1, m, pool, ms, uu);
    }
    AfterNoScan(dist, thr, mode, ref, pool, ms);
    return Ok((ms, pool));
  }

  /** ScanAdvance, stated over the pool and matches after the step. */
  lemma ScanStep(dist: (Centroid, Centroid) -> real, thr: real, mode: Mode, ref: Centroid, pool: seq<Entry>, u: nat, tlen: nat,
                 ms: seq<Entry>, m: Entry, pool': seq<Entry>, ms': seq<Entry>, u': nat)
    requires u < tlen && AtTime(pool, u) != []
    requires m == AtTime(pool, u)[ArgMin(dist, ref, AtTime(pool, u))] && Near(dist, thr, ref, m.c)
    requires pool' == Without(pool, m) && ms' == ms + [m] && u' == u + 1
    ensures AfterMatches(ms, Scan(dist, thr, mode, ref, pool, u, tlen))
         == AfterMatches(ms', Scan(dist, thr, mode, ref, pool', u', tlen))
  {
    ScanAdvance(dist, thr, mode, ref, pool, u, tlen, ms, m);
  }

  /** A successful scan keeps the keys of what it leaves unique, and what it
      matches and what it leaves lie within the frames of the pool. */
  lemma ScanWithin(dist: (Centroid, Centroid) -> real, thr: real, mode: Mode, ref: Centroid, pool: seq<Entry>, u: nat, tlen: nat,
                   ms: seq<Entry>, rest: seq<Entry>)
    requires UniqueKeys(pool) && forall e :: e in pool ==> e.t < tlen
    requires Scan(dist, thr, mode, ref, pool, u, tlen) == Ok((ms, rest))
    ensures UniqueKeys(rest) && forall e :: e in rest ==> e.t < tlen
    ensures forall j :: 0 <= j < |ms| ==> ms[j].t < tlen
  {
    ScanFacts(dist, thr, mode, ref, pool, u, tlen);
    forall e | e in rest ensures e.t < tlen {
      assert e in multiset(rest);
      assert e in multiset(pool);
    }
    forall j | 0 <= j < |ms| ensures ms[j].t < tlen {
      assert ms[j] in multiset(ms);
      assert ms[j] in multiset(pool);
    }
  }

  lemma AfterNoMatches(r: Result<(seq<Entry>, seq<Entry>), TrackError>)
    ensures AfterMatches([], r) == r
  {
    if r.Ok? {
      assert [] + r.value.0 == r.value.0;
    }
  }

  lemma AfterNoTracks(r: Result<seq<Track>, TrackError>)
    ensures AfterTracks([], r) == r
  {
    if r.Ok? {
      assert [] + r.value == r.value;
    }
  }

  lemma AfterNoScan(dist: (Centroid, Centroid) -> real, thr: real, mode: Mode, ref: Centroid, pool: seq<Entry>, ms: seq<Entry>)
    ensures AfterMatches(ms, Ok(([], pool))) == Ok((ms, pool))
  {
    assert ms + [] == ms;
  }

  /** A failed scan fails the whole run. */
  lemma TracksFail(dist: (Centroid, Centroid) -> real, thr: real, mode: Mode, pool: seq<Entry>, tlen: nat, id: nat,
                   done: seq<Track>, e: TrackError)
    requires pool != [] && Scan(dist, thr, mode, pool[0].c, pool[1..], pool[0].t + 1, tlen) == Err(e)
    ensures AfterTracks(done, Tracks(dist, thr, mode, pool, tlen, id)) == Err(e)
  {
  }

  lemma OutcomeOk(dist: (Centroid, Centroid) -> real, thr: real, mode: Mode, segm: seq<Frame>, pool: seq<Entry>, ts: seq<Track>)
    requires UniqueKeys(pool) && forall e :: e in pool ==> e.t < |segm|
    requires Tracks(dist, thr, mode, pool, |segm|, 1) == Ok(ts) && WithinFrames(ts, |segm|)
    ensures Outcome(dist, thr, mode, segm, pool) == Ok(PaintTracks(ZeroFrames(segm), segm, ts))
  {
  }

  lemma OutcomeErr(dist: (Centroid, Centroid) -> real, thr: real, mode: Mode, segm: seq<Frame>, pool: seq<Entry>, e: TrackError)
    requires UniqueKeys(pool) && forall e :: e in pool ==> e.t < |segm|
    requires Tracks(dist, thr, mode, pool, |segm|, 1) == Err(e)
    ensures Outcome(dist, thr, mode, segm, pool) == Err(e)
  {
  }

  /** The greedy tracker as the source runs it: `nucs_trck` is an array of
      frames painted in place, `ctrs_mtx` a pool that shrinks as references
      are popped and matches deleted, and the ids count up from 1. */
  method TrackGreedy(dist: (Centroid, Centroid) -> real, thr: real, mode: Mode, segm: seq<Frame>, pool0: seq<Entry>)
    returns (r: Result<seq<Frame>, TrackError>)
    requires UniqueKeys(pool0) && forall e :: e in pool0 ==> e.t < |segm|
    ensures r == Outcome(dist, thr, mode, segm, pool0)
  {
    var tlen := |segm|;
    var trck := new Frame[tlen](i => if 0 <= i < tlen then Zeros(segm[i]) else map[]);
    assert trck[..] == ZeroFrames(segm);
    var pool := pool0;
    var id := 0;
    ghost var done: seq<Track> := [];
    AfterNoTracks(Tracks(dist, thr, mode, pool0, tlen, 1));
    while pool != []
      invariant UniqueKeys(pool) && forall e :: e in pool ==> e.t < tlen
      invariant id == |done| && WithinFrames(done, tlen)
      invariant Tracks(dist, thr, mode, pool0, tlen, 1) == AfterTracks(done, Tracks(dist, thr, mode, pool, tlen, id + 1))
      invariant trck[..] == PaintTracks(ZeroFrames(segm), segm, done)
      decreases |pool|
    {
      var next := NextTrack(dist, thr, mode, tlen, pool, id + 1, done);
      if next.Err? {
        OutcomeErr(dist, thr, mode, segm, pool0, next.error);
        return Err(next.error);
      }
      var tr := next.value.0;
      PaintNext(trck, segm, done, tr);
      done := done + [tr];
      pool := next.value.1;
      id := id + 1;
    }
    assert Tracks(dist, thr, mode, pool0, tlen, 1) == AfterTracks(done, Ok([]));
    assert done + [] == done;
    OutcomeOk(dist, thr, mode, segm, pool0, done);
    return Ok(trck[..]);
  }

  /** One pass of the outer loop, on the pool: pop the reference at the head
      of the pool and scan the following frames for its matches; the track
      found, with the given id, and the pool left are returned. */
  method NextTrack(dist: (Centroid, Centroid) -> real, thr: real, mode: Mode, tlen: nat, pool: seq<Entry>, id: nat,
                   ghost done: seq<Track>)
    returns (r: Result<(Track, seq<Entry>), TrackError>)
    requires pool != [] && UniqueKeys(pool) && forall e :: e in pool ==> e.t < tlen
    ensures r.Err? ==> AfterTracks(done, Tracks(dist, thr, mode, pool, tlen, id)) == Err(r.error)
    ensures r.Ok? ==>
      AfterTracks(done, Tracks(dist, thr, mode, pool, tlen, id))
      == AfterTracks(done + [r.value.0], Tracks(dist, thr, mode, r.value.1, tlen, id + 1))
    ensures r.Ok? ==> UniqueKeys(r.value.1) && forall e :: e in r.value.1 ==> e.t < tlen
    ensures r.Ok? ==> |r.value.1| < |pool| && r.value.0.id == id
    ensures r.Ok? ==> forall j :: 0 <= j < |r.value.0.members| ==> r.value.0.members[j].t < tlen
  {
    var ref := pool[0];
    assert ref in pool;
    UniqueTail(pool);
    var s := ScanFrames(dist, thr, mode, tlen, ref.c, pool[1..], ref.t + 1);
    if s.Err? {
      TracksFail(dist, thr, mode, pool, tlen, id, done, s.error);
      return Err(s.error);
    }
    var ms, rest := s.value.0, s.value.1;
    ScanWithin(dist, thr, mode, ref.c, pool[1..], ref.t + 1, tlen, ms, rest);
    var tr := Track(id, [ref] + ms);
    TrackWithin(tr, ref, ms, tlen);
    TracksAdvance(dist, thr, mode, pool, tlen, id, done, ms, rest);
    return Ok((tr, rest));
  }

  /** Paints one more finished track into frames that hold the tracks done
      so far. */
  method PaintNext(trck: array<Frame>, segm: seq<Frame>, ghost done: seq<Track>, tr: Track)
    requires trck.Length == |segm| && WithinFrames(done, |segm|)
    requires forall j :: 0 <= j < |tr.members| ==> tr.members[j].t < |segm|
    requires trck[..] == PaintTracks(ZeroFrames(segm), segm, done)
    modifies trck
    ensures WithinFrames(done + [tr], |segm|)
    ensures trck[..] == PaintTracks(ZeroFrames(segm), segm, done + [tr])
  {
    PaintTrack(trck, segm, tr);
    PaintTracksLast(ZeroFrames(segm), segm, done, tr);
  }

  /** A track made of a reference and matches within the frames lies within
      the frames. */
  lemma TrackWithin(tr: Track, ref: Entry, ms: seq<Entry>, tlen: nat)
    requires tr.members == [ref] + ms && ref.t < tlen
    requires forall j :: 0 <= j < |ms| ==> ms[j].t < tlen
    ensures forall j :: 0 <= j < |tr.members| ==> tr.members[j].t < tlen
  {
    forall j | 0 <= j < |tr.members| ensures tr.members[j].t < tlen {
      if j > 0 {
        assert tr.members[j] == ms[j - 1];
      }
    }
  }
}
