/** The greedy nearest-centroid trackers of Nuclei3dTracker.py (`Nuclei3dTracker`
    in 3D and `Nuclei2dTracker` in the XY plane). Every object of every frame
    becomes one pool entry (label, centroid, frame); the tracker pops the first
    entry as the reference of a new track and scans the following frames, each
    time taking the closest remaining entry of that frame while it lies within
    the distance threshold of the reference. Centroids come from an external
    function of the voxel set. The tracker is given its distance as a function
    of two centroids; the source's distance is `Distance(g, root)`, the
    scaled Euclidean distance with the square root as the parameter `root`. */
module CentroidTracker {
  import opened Volumes

  datatype Centroid = Centroid(z: real, x: real, y: real)

  /** One column of `ctrs_mtx`: label, centroid and time frame of one object. */
  datatype Entry = Entry(lbl: nat, c: Centroid, t: nat)

  /** 3D distances scale z by `pix_size_Z` and x, y by `pix_size_XY`; the 2D
      tracker drops z altogether. */
  datatype Geometry = Space(pxy: real, pz: real) | Plane(pxy: real)

  /** One track: its id and its entries in frame order. */
  datatype Track = Track(id: nat, members: seq<Entry>)

  datatype TrackError =
    | NoFrames               // `nucs_segm[0]` on an empty sequence
    | SingleObjectFrame(t: nat)  // `np.squeeze` drops the object axis of a one-object frame
    | EmptyFrame(t: nat)     // `ppp.min()` over a frame with no remaining entries

  /** `AsWritten` follows the code, including its two crashes (a frame with a
      single object while the pool is built, a frame without remaining
      entries during a scan); `Corrected` builds the pool from such frames
      too and ends the track at an empty frame as a failed match does. */
  datatype Mode = AsWritten | Corrected

  function Sq(r: real): (s: real)
    ensures s >= 0.0
  {
    r * r
  }

  /** Squared physical distance between two centroids (`ppp ** 2`). */
  function Dist2(g: Geometry, a: Centroid, b: Centroid): (d: real)
    ensures d >= 0.0
  {
    match g
    case Space(pxy, pz) => Sq((a.z - b.z) * pz) + Sq((a.x - b.x) * pxy) + Sq((a.y - b.y) * pxy)
    case Plane(pxy) => Sq((a.x - b.x) * pxy) + Sq((a.y - b.y) * pxy)
  }

  /** `ppp < dist_thr`: the distance from the reference is below the threshold. */
  predicate Near(dist: (Centroid, Centroid) -> real, thr: real, a: Centroid, b: Centroid) {
    dist(a, b) < thr
  }

  /** The distance of the source, `np.sqrt` of the squared distance, with the
      square root given as root. */
  function Distance(g: Geometry, root: real -> real): (Centroid, Centroid) -> real {
    (a: Centroid, b: Centroid) => root(Dist2(g, a, b))
  }

  /** Wherever root is a square root, the distance lies below the threshold
      exactly when the threshold is positive and the squared distance lies
      below its square: the test can be decided without the root. */
  lemma NearMeansSquaredBelow(g: Geometry, root: real -> real, thr: real, a: Centroid, b: Centroid)
    requires root(Dist2(g, a, b)) >= 0.0 && root(Dist2(g, a, b)) * root(Dist2(g, a, b)) == Dist2(g, a, b)
    ensures Near(Distance(g, root), thr, a, b) <==> 0.0 < thr && Dist2(g, a, b) < thr * thr
  {
    var d := root(Dist2(g, a, b));
    assert Distance(g, root)(a, b) == d;
    if d < thr {
      SquareBelow(d, thr);
    } else if 0.0 < thr {
      SquareBelow(thr, d);
    }
  }

  /** Squaring keeps the strict order of non-negative reals (and so does not
      create it either). */
  lemma SquareBelow(x: real, y: real)
    requires 0.0 <= x && 0.0 <= y
    ensures x < y <==> x * x < y * y
  {
    if x < y {
      ProductPositive(y - x, y + x);
      assert y * y - x * x == (y - x) * (y + x);
    } else {
      ProductNonNegative(x - y, x + y);
      assert x * x - y * y == (x - y) * (x + y);
    }
  }

  lemma ProductPositive(a: real, b: real)
    requires a > 0.0 && b > 0.0
    ensures a * b > 0.0
  {
  }

  lemma ProductNonNegative(a: real, b: real)
    requires a >= 0.0 && b >= 0.0
    ensures a * b >= 0.0
  {
  }

  // ---------------------------------------------------------------------
  // The pool.

  function Key(e: Entry): (nat, nat) {
    (e.t, e.lbl)
  }

  /** No two entries share a (frame, label) pair. */
  predicate UniqueKeys(pool: seq<Entry>) {
    forall i, j :: 0 <= i < j < |pool| ==> Key(pool[i]) != Key(pool[j])
  }

  /** `ctrs_mtx[:, ctrs_mtx[4, :] == uu]`: the entries of frame u, in pool order. */
  function AtTime(pool: seq<Entry>, u: nat): (r: seq<Entry>)
    ensures |r| <= |pool|
  {
    if pool == [] then []
    else if pool[0].t == u then [pool[0]] + AtTime(pool[1..], u)
    else AtTime(pool[1..], u)
  }

  /** AtTime keeps exactly the entries of frame u. */
  lemma {:induction false} AtTimeMembers(pool: seq<Entry>, u: nat)
    ensures forall e :: e in AtTime(pool, u) <==> e in pool && e.t == u
    decreases |pool|
  {
    if pool != [] {
      AtTimeMembers(pool[1..], u);
      assert pool == [pool[0]] + pool[1..];
    }
  }

  /** `np.argmin(ppp)`: the position of the first entry at minimal distance. */
  function ArgMin(dist: (Centroid, Centroid) -> real, ref: Centroid, ext: seq<Entry>): (k: nat)
    requires ext != []
    ensures k < |ext|
  {
    if |ext| == 1 then 0
    else
      var k := ArgMin(dist, ref, ext[..|ext| - 1]);
      if dist(ref, ext[|ext| - 1].c) < dist(ref, ext[k].c) then |ext| - 1 else k
  }

  /** The entry ArgMin picks is at minimal distance from the reference, and
      strictly closer than every entry before it. */
  lemma {:induction false} ArgMinIsMin(dist: (Centroid, Centroid) -> real, ref: Centroid, ext: seq<Entry>)
    requires ext != []
    ensures var k := ArgMin(dist, ref, ext);
      && (forall j :: 0 <= j < |ext| ==> dist(ref, ext[k].c) <= dist(ref, ext[j].c))
      && (forall j :: 0 <= j < k ==> dist(ref, ext[k].c) < dist(ref, ext[j].c))
    decreases |ext|
  {
    if |ext| > 1 {
      var init := ext[..|ext| - 1];
      ArgMinIsMin(dist, ref, init);
      var k0 := ArgMin(dist, ref, init);
      forall j | 0 <= j < |init| ensures ext[j] == init[j] {
      }
    }
  }

  /** `np.delete(ctrs_mtx, dd, axis=1)` with dd the columns whose time and
      label are those of e. */
  function Without(pool: seq<Entry>, e: Entry): (r: seq<Entry>)
    ensures |r| <= |pool|
  {
    if pool == [] then []
    else if Key(pool[0]) == Key(e) then Without(pool[1..], e)
    else [pool[0]] + Without(pool[1..], e)
  }

  /** Deleting an entry of frame u shortens the pool. */
  lemma PickShrinks(pool: seq<Entry>, u: nat, k: nat)
    requires k < |AtTime(pool, u)|
    ensures |Without(pool, AtTime(pool, u)[k])| < |pool|
  {
    AtTimeMembers(pool, u);
    WithoutMembers(pool, AtTime(pool, u)[k]);
  }

  /** Without drops exactly the entries with the key of e, and at least one
      entry when e is in the pool. */
  lemma {:induction false} WithoutMembers(pool: seq<Entry>, e: Entry)
    ensures forall x :: x in Without(pool, e) <==> x in pool && Key(x) != Key(e)
    ensures e in pool ==> |Without(pool, e)| < |pool|
    decreases |pool|
  {
    if pool != [] {
      WithoutMembers(pool[1..], e);
      assert pool == [pool[0]] + pool[1..];
    }
  }

  // ---------------------------------------------------------------------
  // The forward scan of one track and the sequence of tracks.

  /** The scan of `for uu in range(t_ref + 1, tlen)` from frame u on: the
      entries it matches, in frame order, and the pool it leaves behind. */
  function Scan(dist: (Centroid, Centroid) -> real, thr: real, mode: Mode, ref: Centroid, pool: seq<Entry>, u: nat, tlen: nat)
    : (r: Result<(seq<Entry>, seq<Entry>), TrackError>)
    ensures r.Ok? ==> |r.value.0| + |r.value.1| <= |pool|
    decreases tlen - u
  {
    if u >= tlen then Ok(([], pool))
    else
      var ext := AtTime(pool, u);
      if ext == [] then
        if mode == AsWritten then Err(EmptyFrame(u)) else Ok(([], pool))
      else
        var m := ext[ArgMin(dist, ref, ext)];
        if !Near(dist, thr, ref, m.c) then Ok(([], pool))
        else
          PickShrinks(pool, u, ArgMin(dist, ref, ext));
          match Scan(dist, thr, mode, ref, Without(pool, m), u + 1, tlen)
          case Err(e) => Err(e)
          case Ok(res) => Ok(([m] + res.0, res.1))
  }

  /** The outer `while` loop: tracks with ids id, id + 1, ... until the pool is empty. */
  function Tracks(dist: (Centroid, Centroid) -> real, thr: real, mode: Mode, pool: seq<Entry>, tlen: nat, id: nat)
    : Result<seq<Track>, TrackError>
    decreases |pool|
  {
    if pool == [] then Ok([])
    else
      var ref := pool[0];
      match Scan(dist, thr, mode, ref.c, pool[1..], ref.t + 1, tlen)
      case Err(e) => Err(e)
      case Ok(res) =>
        match Tracks(dist, thr, mode, res.1, tlen, id + 1)
        case Err(e) => Err(e)
        case Ok(ts) => Ok([Track(id, [ref] + res.0)] + ts)
  }

  /** All members of all tracks, track after track. */
  function Flatten(ts: seq<Track>): seq<Entry> {
    if ts == [] then [] else ts[0].members + Flatten(ts[1..])
  }

  // ---------------------------------------------------------------------
  // Consumption: every entry ends up in exactly one track.

  lemma UniqueTail(pool: seq<Entry>)
    requires UniqueKeys(pool) && pool != []
    ensures UniqueKeys(pool[1..])
    ensures forall x :: x in pool[1..] ==> Key(x) != Key(pool[0])
  {
    forall x | x in pool[1..] ensures Key(x) != Key(pool[0]) {
      var j :| 0 <= j < |pool[1..]| && pool[1..][j] == x;
      assert pool[j + 1] == x;
    }
  }

  lemma UniqueCons(x: Entry, s: seq<Entry>)
    requires UniqueKeys(s) && forall y :: y in s ==> Key(y) != Key(x)
    ensures UniqueKeys([x] + s)
  {
    var r := [x] + s;
    forall i, j | 0 <= i < j < |r| ensures Key(r[i]) != Key(r[j]) {
      assert r[j] == s[j - 1];
      if i > 0 {
        assert r[i] == s[i - 1];
      } else {
        assert s[j - 1] in s;
      }
    }
  }

  /** With distinct keys, deleting by the key of a pool entry removes exactly that entry. */
  lemma {:induction false} WithoutRemovesOne(pool: seq<Entry>, e: Entry)
    requires UniqueKeys(pool)
    ensures e in pool ==> multiset(Without(pool, e)) + multiset{e} == multiset(pool)
    ensures e !in pool && (forall x :: x in pool ==> Key(x) != Key(e)) ==> Without(pool, e) == pool
    ensures UniqueKeys(Without(pool, e))
    decreases |pool|
  {
    if pool != [] {
      UniqueTail(pool);
      WithoutRemovesOne(pool[1..], e);
      assert pool == [pool[0]] + pool[1..];
      if Key(pool[0]) == Key(e) {
        if e in pool {
          assert e !in pool[1..];
          WithoutKeyAbsent(pool[1..], e);
        }
      } else {
        WithoutMembers(pool[1..], e);
        UniqueCons(pool[0], Without(pool[1..], e));
      }
    }
  }

  lemma {:induction false} WithoutKeyAbsent(pool: seq<Entry>, e: Entry)
    requires forall x :: x in pool ==> Key(x) != Key(e)
    ensures Without(pool, e) == pool
    decreases |pool|
  {
    if pool != [] {
      WithoutKeyAbsent(pool[1..], e);
      assert pool == [pool[0]] + pool[1..];
    }
  }

  /** What a successful scan from frame u delivers: the matched entries ms
      and the remaining pool rest split the pool it started from; the matches
      sit at consecutive frames from u on, each within the threshold of the
      reference (never of the previous match); and the scan ends at the last
      frame or at the first frame where no remaining entry is within the
      threshold. */
  predicate ScanOutcome(dist: (Centroid, Centroid) -> real, thr: real, ref: Centroid, pool: seq<Entry>, u: nat, tlen: nat,
                        ms: seq<Entry>, rest: seq<Entry>) {
    && multiset(ms) + multiset(rest) == multiset(pool)
    && UniqueKeys(rest)
    && (forall k :: 0 <= k < |ms| ==> ms[k].t == u + k && Near(dist, thr, ref, ms[k].c))
    && (u + |ms| < tlen ==> forall e :: e in rest && e.t == u + |ms| ==> !Near(dist, thr, ref, e.c))
  }

  lemma {:induction false} ScanFacts(dist: (Centroid, Centroid) -> real, thr: real, mode: Mode, ref: Centroid, pool: seq<Entry>, u: nat, tlen: nat)
    requires UniqueKeys(pool)
    ensures var r := Scan(dist, thr, mode, ref, pool, u, tlen);
      r.Ok? ==> ScanOutcome(dist, thr, ref, pool, u, tlen, r.value.0, r.value.1)
    decreases tlen - u
  {
    if u < tlen {
      var ext := AtTime(pool, u);
      AtTimeMembers(pool, u);
      if ext != [] {
        var m := ext[ArgMin(dist, ref, ext)];
        if !Near(dist, thr, ref, m.c) {
          ScanStopOutcome(dist, thr, ref, pool, u, tlen);
        } else {
          assert m in ext;
          WithoutRemovesOne(pool, m);
          ScanFacts(dist, thr, mode, ref, Without(pool, m), u + 1, tlen);
          var r' := Scan(dist, thr, mode, ref, Without(pool, m), u + 1, tlen);
          if r'.Ok? {
            ScanConsOutcome(dist, thr, ref, pool, u, tlen, m, r'.value.0, r'.value.1);
          }
        }
      }
    }
  }

  /** A scan that stops at frame u, below the last frame, because the entry of
      frame u closest to the reference is not within the threshold. */
  lemma ScanStopOutcome(dist: (Centroid, Centroid) -> real, thr: real, ref: Centroid, pool: seq<Entry>, u: nat, tlen: nat)
    requires UniqueKeys(pool) && u < tlen
    requires var ext := AtTime(pool, u); ext != [] && !Near(dist, thr, ref, ext[ArgMin(dist, ref, ext)].c)
    ensures ScanOutcome(dist, thr, ref, pool, u, tlen, [], pool)
  {
    var ext := AtTime(pool, u);
    AtTimeMembers(pool, u);
    ArgMinIsMin(dist, ref, ext);
    forall e | e in pool && e.t == u ensures !Near(dist, thr, ref, e.c) {
      assert e in ext;
      var j :| 0 <= j < |ext| && ext[j] == e;
    }
  }

  /** A match m at frame u followed by the scan of what its deletion leaves. */
  lemma ScanConsOutcome(dist: (Centroid, Centroid) -> real, thr: real, ref: Centroid, pool: seq<Entry>, u: nat, tlen: nat,
                        m: Entry, ms: seq<Entry>, rest: seq<Entry>)
    requires UniqueKeys(pool) && m in pool && m.t == u && Near(dist, thr, ref, m.c)
    requires ScanOutcome(dist, thr, ref, Without(pool, m), u + 1, tlen, ms, rest)
    ensures ScanOutcome(dist, thr, ref, pool, u, tlen, [m] + ms, rest)
  {
    WithoutRemovesOne(pool, m);
    var all := [m] + ms;
    assert multiset(all) == multiset{m} + multiset(ms);
    forall k | 0 <= k < |all| ensures all[k].t == u + k && Near(dist, thr, ref, all[k].c) {
      if k > 0 {
        assert all[k] == ms[k - 1];
      }
    }
  }

  /** A track starts at its reference and holds one entry per frame at
      consecutive frames, each within the threshold of the reference. */
  predicate ChainedTrack(dist: (Centroid, Centroid) -> real, thr: real, tr: Track) {
    && |tr.members| >= 1
    && forall j :: 0 <= j < |tr.members| ==>
         tr.members[j].t == tr.members[0].t + j &&
         (j > 0 ==> Near(dist, thr, tr.members[0].c, tr.members[j].c))
  }

  /** What a successful run delivers: the members of all tracks are exactly
      the pool, each entry once; track ids run id, id + 1, ...; every track is
      chained. */
  predicate TracksOutcome(dist: (Centroid, Centroid) -> real, thr: real, pool: seq<Entry>, id: nat, ts: seq<Track>) {
    && multiset(Flatten(ts)) == multiset(pool)
    && forall k :: 0 <= k < |ts| ==> ts[k].id == id + k && ChainedTrack(dist, thr, ts[k])
  }

  lemma HeadTrackChained(dist: (Centroid, Centroid) -> real, thr: real, ref: Entry, pool: seq<Entry>, tlen: nat,
                         ms: seq<Entry>, rest: seq<Entry>, id: nat)
    requires ScanOutcome(dist, thr, ref.c, pool, ref.t + 1, tlen, ms, rest)
    ensures ChainedTrack(dist, thr, Track(id, [ref] + ms))
  {
    var tr := Track(id, [ref] + ms);
    forall j | 0 <= j < |tr.members|
      ensures tr.members[j].t == tr.members[0].t + j && (j > 0 ==> Near(dist, thr, tr.members[0].c, tr.members[j].c))
    {
      if j > 0 {
        assert tr.members[j] == ms[j - 1];
      }
    }
  }

  lemma TracksConsOutcome(dist: (Centroid, Centroid) -> real, thr: real, ref: Entry, pool: seq<Entry>, tlen: nat,
                          ms: seq<Entry>, rest: seq<Entry>, id: nat, ts: seq<Track>)
    requires ScanOutcome(dist, thr, ref.c, pool, ref.t + 1, tlen, ms, rest)
    requires TracksOutcome(dist, thr, rest, id + 1, ts)
    ensures TracksOutcome(dist, thr, [ref] + pool, id, [Track(id, [ref] + ms)] + ts)
  {
    var tr := Track(id, [ref] + ms);
    var all := [tr] + ts;
    HeadTrackChained(dist, thr, ref, pool, tlen, ms, rest, id);
    assert all[1..] == ts;
    assert Flatten(all) == tr.members + Flatten(ts);
    forall k | 0 <= k < |all| ensures all[k].id == id + k && ChainedTrack(dist, thr, all[k]) {
      if k > 0 {
        assert all[k] == ts[k - 1];
      }
    }
  }

  /** One step of the outer loop: the first track is the pool's head plus
      what its scan matched, and the rest are the tracks of what it left. */
  lemma TracksSplit(dist: (Centroid, Centroid) -> real, thr: real, mode: Mode, pool: seq<Entry>, tlen: nat, id: nat)
    returns (ms: seq<Entry>, rest: seq<Entry>, ts: seq<Track>)
    requires pool != [] && Tracks(dist, thr, mode, pool, tlen, id).Ok?
    ensures Scan(dist, thr, mode, pool[0].c, pool[1..], pool[0].t + 1, tlen) == Ok((ms, rest))
    ensures |rest| < |pool|
    ensures Tracks(dist, thr, mode, rest, tlen, id + 1) == Ok(ts)
    ensures Tracks(dist, thr, mode, pool, tlen, id) == Ok([Track(id, [pool[0]] + ms)] + ts)
  {
    var s := Scan(dist, thr, mode, pool[0].c, pool[1..], pool[0].t + 1, tlen);
    ms, rest := s.value.0, s.value.1;
    ts := Tracks(dist, thr, mode, rest, tlen, id + 1).value;
  }

  lemma ScanHead(dist: (Centroid, Centroid) -> real, thr: real, mode: Mode, pool: seq<Entry>, tlen: nat,
                 ms: seq<Entry>, rest: seq<Entry>)
    requires UniqueKeys(pool) && pool != []
    requires Scan(dist, thr, mode, pool[0].c, pool[1..], pool[0].t + 1, tlen) == Ok((ms, rest))
    ensures ScanOutcome(dist, thr, pool[0].c, pool[1..], pool[0].t + 1, tlen, ms, rest)
  {
    UniqueTail(pool);
    ScanFacts(dist, thr, mode, pool[0].c, pool[1..], pool[0].t + 1, tlen);
  }

  /** Every entry of a pool with distinct keys ends up in exactly one track,
      and every track is chained. */
  lemma {:induction false} TracksFacts(dist: (Centroid, Centroid) -> real, thr: real, mode: Mode, pool: seq<Entry>, tlen: nat, id: nat)
    requires UniqueKeys(pool)
    ensures var r := Tracks(dist, thr, mode, pool, tlen, id);
      r.Ok? ==> TracksOutcome(dist, thr, pool, id, r.value)
    decreases |pool|
  {
    if pool != [] && Tracks(dist, thr, mode, pool, tlen, id).Ok? {
      var ms, rest, ts := TracksSplit(dist, thr, mode, pool, tlen, id);
      ScanHead(dist, thr, mode, pool, tlen, ms, rest);
      TracksFacts(dist, thr, mode, rest, tlen, id + 1);
      assert pool == [pool[0]] + pool[1..];
      TracksConsOutcome(dist, thr, pool[0], pool[1..], tlen, ms, rest, id, ts);
    }
  }

  // ---------------------------------------------------------------------
  // The two modes.

  lemma {:induction false} CorrectedScanSucceeds(dist: (Centroid, Centroid) -> real, thr: real, ref: Centroid, pool: seq<Entry>, u: nat, tlen: nat)
    ensures Scan(dist, thr, Corrected, ref, pool, u, tlen).Ok?
    decreases tlen - u
  {
    if u < tlen {
      var ext := AtTime(pool, u);
      if ext != [] {
        var m := ext[ArgMin(dist, ref, ext)];
        CorrectedScanSucceeds(dist, thr, ref, Without(pool, m), u + 1, tlen);
      }
    }
  }

  /** The corrected tracker never fails. */
  lemma {:induction false} CorrectedTracksSucceed(dist: (Centroid, Centroid) -> real, thr: real, pool: seq<Entry>, tlen: nat, id: nat)
    ensures Tracks(dist, thr, Corrected, pool, tlen, id).Ok?
    decreases |pool|
  {
    if pool != [] {
      CorrectedScanSucceeds(dist, thr, pool[0].c, pool[1..], pool[0].t + 1, tlen);
      var s := Scan(dist, thr, Corrected, pool[0].c, pool[1..], pool[0].t + 1, tlen);
      CorrectedTracksSucceed(dist, thr, s.value.1, tlen, id + 1);
    }
  }

  lemma {:induction false} ScanModesAgree(dist: (Centroid, Centroid) -> real, thr: real, ref: Centroid, pool: seq<Entry>, u: nat, tlen: nat)
    ensures Scan(dist, thr, AsWritten, ref, pool, u, tlen).Ok? ==>
      Scan(dist, thr, AsWritten, ref, pool, u, tlen) == Scan(dist, thr, Corrected, ref, pool, u, tlen)
    decreases tlen - u
  {
    if u < tlen {
      var ext := AtTime(pool, u);
      if ext != [] {
        var m := ext[ArgMin(dist, ref, ext)];
        ScanModesAgree(dist, thr, ref, Without(pool, m), u + 1, tlen);
      }
    }
  }

  /** Where the code as written does not crash, the correction changes nothing. */
  lemma {:induction false} TracksModesAgree(dist: (Centroid, Centroid) -> real, thr: real, pool: seq<Entry>, tlen: nat, id: nat)
    ensures Tracks(dist, thr, AsWritten, pool, tlen, id).Ok? ==>
      Tracks(dist, thr, AsWritten, pool, tlen, id) == Tracks(dist, thr, Corrected, pool, tlen, id)
    decreases |pool|
  {
    if pool != [] {
      ScanModesAgree(dist, thr, pool[0].c, pool[1..], pool[0].t + 1, tlen);
      var s := Scan(dist, thr, AsWritten, pool[0].c, pool[1..], pool[0].t + 1, tlen);
      if s.Ok? {
        TracksModesAgree(dist, thr, s.value.1, tlen, id + 1);
      }
    }
  }

  /** Three objects in frame 0 and two in frame 1, all at one place c within
      the threshold of itself: the first two tracks take both objects of
      frame 1, so the scan of the third track meets frame 1 without remaining
      entries. The code as written fails there; the corrected tracker ends
      the third track at frame 0. */
  lemma EmptyFrameCrash(dist: (Centroid, Centroid) -> real, thr: real, c: Centroid)
    requires Near(dist, thr, c, c)
    ensures var pool := [Entry(1, c, 0), Entry(2, c, 0), Entry(3, c, 0), Entry(1, c, 1), Entry(2, c, 1)];
      && Tracks(dist, thr, AsWritten, pool, 2, 1) == Err(EmptyFrame(1))
      && Tracks(dist, thr, Corrected, pool, 2, 1) ==
           Ok([Track(1, [Entry(1, c, 0), Entry(1, c, 1)]),
               Track(2, [Entry(2, c, 0), Entry(2, c, 1)]),
               Track(3, [Entry(3, c, 0)])])
  {
    CrashAsWritten(dist, thr, c);
    CrashCorrected(dist, thr, c);
  }

  lemma CrashAsWritten(dist: (Centroid, Centroid) -> real, thr: real, c: Centroid)
    requires Near(dist, thr, c, c)
    ensures Tracks(dist, thr, AsWritten, [Entry(1, c, 0), Entry(2, c, 0), Entry(3, c, 0), Entry(1, c, 1), Entry(2, c, 1)], 2, 1)
         == Err(EmptyFrame(1))
  {
    CrashSecondTrack(dist, thr, AsWritten, c);
    CrashFirstTrack(dist, thr, AsWritten, c);
  }

  lemma CrashCorrected(dist: (Centroid, Centroid) -> real, thr: real, c: Centroid)
    requires Near(dist, thr, c, c)
    ensures Tracks(dist, thr, Corrected, [Entry(1, c, 0), Entry(2, c, 0), Entry(3, c, 0), Entry(1, c, 1), Entry(2, c, 1)], 2, 1)
         == Ok([Track(1, [Entry(1, c, 0), Entry(1, c, 1)]), Track(2, [Entry(2, c, 0), Entry(2, c, 1)]), Track(3, [Entry(3, c, 0)])])
  {
    var a1, a2, a3, b1, b2 := Entry(1, c, 0), Entry(2, c, 0), Entry(3, c, 0), Entry(1, c, 1), Entry(2, c, 1);
    var later := [Track(2, [a2, b2]), Track(3, [a3])];
    CrashSecondTrack(dist, thr, Corrected, c);
    assert Tracks(dist, thr, Corrected, [a2, a3, b2], 2, 2) == Ok(later);
    CrashFirstTrack(dist, thr, Corrected, c);
    assert Tracks(dist, thr, Corrected, [a1, a2, a3, b1, b2], 2, 1) == Ok([Track(1, [a1] + [b1])] + later);
    Cons2(a1, b1);
    Cons3(Track(1, [a1, b1]), Track(2, [a2, b2]), Track(3, [a3]));
  }

  lemma Cons2<T>(x: T, y: T)
    ensures [x] + [y] == [x, y]
  {
  }

  lemma Cons3<T>(x: T, y: T, z: T)
    ensures [x] + [y, z] == [x, y, z]
  {
  }

  /** One unfolding of `Tracks` after a successful scan. */
  lemma TracksStep(dist: (Centroid, Centroid) -> real, thr: real, mode: Mode, pool: seq<Entry>, tlen: nat, id: nat,
                   ms: seq<Entry>, rest: seq<Entry>)
    requires pool != []
    requires Scan(dist, thr, mode, pool[0].c, pool[1..], pool[0].t + 1, tlen) == Ok((ms, rest))
    ensures Tracks(dist, thr, mode, pool, tlen, id) ==
      match Tracks(dist, thr, mode, rest, tlen, id + 1)
      case Err(e) => Err(e)
      case Ok(ts) => Ok([Track(id, [pool[0]] + ms)] + ts)
  {
  }

  lemma CrashThirdTrack(dist: (Centroid, Centroid) -> real, thr: real, mode: Mode, c: Centroid)
    ensures Tracks(dist, thr, mode, [Entry(3, c, 0)], 2, 3) ==
      if mode == AsWritten then Err(EmptyFrame(1)) else Ok([Track(3, [Entry(3, c, 0)])])
  {
    assert [Entry(3, c, 0)][1..] == [];
    assert AtTime([], 1) == [];
    assert Tracks(dist, thr, mode, [], 2, 4) == Ok([]);
    assert [Entry(3, c, 0)] + [] == [Entry(3, c, 0)];
    assert [Track(3, [Entry(3, c, 0)])] + [] == [Track(3, [Entry(3, c, 0)])];
  }

  lemma CrashSecondTrack(dist: (Centroid, Centroid) -> real, thr: real, mode: Mode, c: Centroid)
    requires Near(dist, thr, c, c)
    ensures Tracks(dist, thr, mode, [Entry(2, c, 0), Entry(3, c, 0), Entry(2, c, 1)], 2, 2) ==
      if mode == AsWritten then Err(EmptyFrame(1))
      else Ok([Track(2, [Entry(2, c, 0), Entry(2, c, 1)]), Track(3, [Entry(3, c, 0)])])
  {
    CrashSecondScan(dist, thr, mode, c);
    CrashThirdTrack(dist, thr, mode, c);
    assert [Entry(2, c, 0), Entry(3, c, 0), Entry(2, c, 1)][1..] == [Entry(3, c, 0), Entry(2, c, 1)];
    assert [Entry(2, c, 0)] + [Entry(2, c, 1)] == [Entry(2, c, 0), Entry(2, c, 1)];
    assert [Track(2, [Entry(2, c, 0), Entry(2, c, 1)])] + [Track(3, [Entry(3, c, 0)])]
        == [Track(2, [Entry(2, c, 0), Entry(2, c, 1)]), Track(3, [Entry(3, c, 0)])];
  }

  lemma CrashFirstTrack(dist: (Centroid, Centroid) -> real, thr: real, mode: Mode, c: Centroid)
    requires Near(dist, thr, c, c)
    ensures Tracks(dist, thr, mode, [Entry(1, c, 0), Entry(2, c, 0), Entry(3, c, 0), Entry(1, c, 1), Entry(2, c, 1)], 2, 1) ==
      match Tracks(dist, thr, mode, [Entry(2, c, 0), Entry(3, c, 0), Entry(2, c, 1)], 2, 2)
      case Err(e) => Err(e)
      case Ok(ts) => Ok([Track(1, [Entry(1, c, 0)] + [Entry(1, c, 1)])] + ts)
  {
    var pool := [Entry(1, c, 0), Entry(2, c, 0), Entry(3, c, 0), Entry(1, c, 1), Entry(2, c, 1)];
    CrashFirstScan(dist, thr, mode, c);
    assert pool[1..] == [Entry(2, c, 0), Entry(3, c, 0), Entry(1, c, 1), Entry(2, c, 1)];
    TracksStep(dist, thr, mode, pool, 2, 1, [Entry(1, c, 1)], [Entry(2, c, 0), Entry(3, c, 0), Entry(2, c, 1)]);
  }

  lemma CrashFirstScan(dist: (Centroid, Centroid) -> real, thr: real, mode: Mode, c: Centroid)
    requires Near(dist, thr, c, c)
    ensures Scan(dist, thr, mode, c, [Entry(2, c, 0), Entry(3, c, 0), Entry(1, c, 1), Entry(2, c, 1)], 1, 2)
         == Ok(([Entry(1, c, 1)], [Entry(2, c, 0), Entry(3, c, 0), Entry(2, c, 1)]))
  {
    var a2, a3, b1, b2 := Entry(2, c, 0), Entry(3, c, 0), Entry(1, c, 1), Entry(2, c, 1);
    CrashFrameOne(c);
    assert ArgMin(dist, c, [b1, b2]) == 0;
    CrashFirstDelete(c);
    assert Scan(dist, thr, mode, c, [a2, a3, b2], 2, 2) == Ok(([], [a2, a3, b2]));
    assert [b1] + [] == [b1];
  }

  lemma CrashFrameOne(c: Centroid)
    ensures AtTime([Entry(2, c, 0), Entry(3, c, 0), Entry(1, c, 1), Entry(2, c, 1)], 1) == [Entry(1, c, 1), Entry(2, c, 1)]
  {
    var a2, a3, b1, b2 := Entry(2, c, 0), Entry(3, c, 0), Entry(1, c, 1), Entry(2, c, 1);
    assert AtTime([b2], 1) == [b2];
    assert AtTime([b1, b2], 1) == [b1, b2] by { assert [b1, b2][1..] == [b2]; }
    assert AtTime([a3, b1, b2], 1) == [b1, b2] by { assert [a3, b1, b2][1..] == [b1, b2]; }
    assert [a2, a3, b1, b2][1..] == [a3, b1, b2];
  }

  lemma CrashFirstDelete(c: Centroid)
    ensures Without([Entry(2, c, 0), Entry(3, c, 0), Entry(1, c, 1), Entry(2, c, 1)], Entry(1, c, 1))
         == [Entry(2, c, 0), Entry(3, c, 0), Entry(2, c, 1)]
  {
    var a2, a3, b1, b2 := Entry(2, c, 0), Entry(3, c, 0), Entry(1, c, 1), Entry(2, c, 1);
    assert Without([b2], b1) == [b2];
    assert Without([b1, b2], b1) == [b2] by { assert [b1, b2][1..] == [b2]; }
    assert Without([a3, b1, b2], b1) == [a3, b2] by { assert [a3, b1, b2][1..] == [b1, b2]; }
    assert [a2, a3, b1, b2][1..] == [a3, b1, b2];
  }

  lemma CrashSecondScan(dist: (Centroid, Centroid) -> real, thr: real, mode: Mode, c: Centroid)
    requires Near(dist, thr, c, c)
    ensures Scan(dist, thr, mode, c, [Entry(3, c, 0), Entry(2, c, 1)], 1, 2) == Ok(([Entry(2, c, 1)], [Entry(3, c, 0)]))
  {
    var a3, b2 := Entry(3, c, 0), Entry(2, c, 1);
    assert AtTime([b2], 1) == [b2];
    assert AtTime([a3, b2], 1) == [b2] by { assert [a3, b2][1..] == [b2]; }
    assert Without([a3, b2], b2) == [a3] by { assert [a3, b2][1..] == [b2]; }
    assert Scan(dist, thr, mode, c, [a3], 2, 2) == Ok(([], [a3]));
    assert [b2] + [] == [b2];
  }
}
