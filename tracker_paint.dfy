/** The output of the centroid trackers, `nucs_trck`: for every member of a
    track, the voxels of its object in its frame receive the track id,
    `((nucs_segm[t] == lbl) * new_lbl).astype(np.uint16)` added to what they
    hold. The cast keeps the id modulo 65536. */
module CentroidPaint {
  import opened Volumes
  import opened CentroidTracker

  /** The range of `np.uint16`: an id reaches the frames modulo this. */
  const IdRange: nat := 65536

  /** Adds the id, cast to uint16, to the voxels of f whose label in seg is lbl. */
  function Stamp(f: Frame, seg: Frame, lbl: nat, id: nat): (r: Frame)
    ensures r.Keys == f.Keys
  {
    map v | v in f :: if v in seg && seg[v] == lbl then f[v] + id % IdRange else f[v]
  }

  /** An id that is a multiple of 65536 paints nothing: ids wrap around. */
  lemma IdWrapsAtRange(f: Frame, seg: Frame, lbl: nat, k: nat)
    ensures Stamp(f, seg, lbl, k * IdRange) == f
  {
    assert (k * IdRange) % IdRange == 0;
  }

  /** The frame of every member of every track is a frame of the movie. */
  predicate WithinFrames(ts: seq<Track>, n: nat) {
    forall k, j :: 0 <= k < |ts| && 0 <= j < |ts[k].members| ==> ts[k].members[j].t < n
  }

  /** The output frames cover the same voxels as the segmented frames. */
  predicate SameShape(trck: seq<Frame>, segm: seq<Frame>) {
    |trck| == |segm| && forall t :: 0 <= t < |trck| ==> trck[t].Keys == segm[t].Keys
  }

  /** The object of member e, in its frame, receives id. */
  function PaintEntry(trck: seq<Frame>, segm: seq<Frame>, e: Entry, id: nat): (r: seq<Frame>)
    requires |trck| == |segm| && e.t < |segm|
    ensures |r| == |trck|
  {
    trck[e.t := Stamp(trck[e.t], segm[e.t], e.lbl, id)]
  }

  /** The members of one track, painted one after the other. */
  function PaintMembers(trck: seq<Frame>, segm: seq<Frame>, ms: seq<Entry>, id: nat): (r: seq<Frame>)
    requires |trck| == |segm|
    requires forall j :: 0 <= j < |ms| ==> ms[j].t < |segm|
    ensures |r| == |trck|
    decreases |ms|
  {
    if ms == [] then trck
    else PaintEntry(PaintMembers(trck, segm, ms[..|ms| - 1], id), segm, ms[|ms| - 1], id)
  }

  /** The tracks painted in order. */
  function PaintTracks(trck: seq<Frame>, segm: seq<Frame>, ts: seq<Track>): (r: seq<Frame>)
    requires |trck| == |segm| && WithinFrames(ts, |segm|)
    ensures |r| == |trck|
    decreases |ts|
  {
    if ts == [] then trck
    else
      var last := ts[|ts| - 1];
      assert forall j :: 0 <= j < |last.members| ==> last.members[j].t < |segm|;
      PaintMembers(PaintTracks(trck, segm, ts[..|ts| - 1]), segm, last.members, last.id)
  }

  // ---------------------------------------------------------------------
  // What the painting adds to one voxel.

  /** What the members of one track add to a voxel of frame t labelled l. */
  function AddedBy(ms: seq<Entry>, id: nat, t: nat, l: nat): nat
    decreases |ms|
  {
    if ms == [] then 0
    else AddedBy(ms[..|ms| - 1], id, t, l) + (if Key(ms[|ms| - 1]) == (t, l) then id % IdRange else 0)
  }

  /** What all tracks add to a voxel of frame t labelled l. */
  function Added(ts: seq<Track>, t: nat, l: nat): nat
    decreases |ts|
  {
    if ts == [] then 0
    else Added(ts[..|ts| - 1], t, l) + AddedBy(ts[|ts| - 1].members, ts[|ts| - 1].id, t, l)
  }

  /** Painting keeps every frame's voxels. */
  lemma {:induction false} PaintMembersShape(trck: seq<Frame>, segm: seq<Frame>, ms: seq<Entry>, id: nat)
    requires SameShape(trck, segm)
    requires forall j :: 0 <= j < |ms| ==> ms[j].t < |segm|
    ensures SameShape(PaintMembers(trck, segm, ms, id), segm)
    decreases |ms|
  {
    if ms != [] {
      PaintMembersShape(trck, segm, ms[..|ms| - 1], id);
    }
  }

  lemma {:induction false} PaintTracksShape(trck: seq<Frame>, segm: seq<Frame>, ts: seq<Track>)
    requires SameShape(trck, segm) && WithinFrames(ts, |segm|)
    ensures SameShape(PaintTracks(trck, segm, ts), segm)
    decreases |ts|
  {
    if ts != [] {
      var last := ts[|ts| - 1];
      PaintTracksShape(trck, segm, ts[..|ts| - 1]);
      PaintMembersShape(PaintTracks(trck, segm, ts[..|ts| - 1]), segm, last.members, last.id);
    }
  }

  lemma {:induction false} PaintMembersValue(trck: seq<Frame>, segm: seq<Frame>, ms: seq<Entry>, id: nat, t: nat, v: Voxel)
    requires SameShape(trck, segm)
    requires forall j :: 0 <= j < |ms| ==> ms[j].t < |segm|
    requires t < |segm| && v in segm[t]
    ensures SameShape(PaintMembers(trck, segm, ms, id), segm)
    ensures PaintMembers(trck, segm, ms, id)[t][v] == trck[t][v] + AddedBy(ms, id, t, segm[t][v])
    decreases |ms|
  {
    if ms != [] {
      PaintMembersValue(trck, segm, ms[..|ms| - 1], id, t, v);
    }
  }

  /** Every voxel ends with what it started with plus what the tracks add. */
  lemma {:induction false} PaintTracksValue(trck: seq<Frame>, segm: seq<Frame>, ts: seq<Track>, t: nat, v: Voxel)
    requires SameShape(trck, segm) && WithinFrames(ts, |segm|)
    requires t < |segm| && v in segm[t]
    ensures SameShape(PaintTracks(trck, segm, ts), segm)
    ensures PaintTracks(trck, segm, ts)[t][v] == trck[t][v] + Added(ts, t, segm[t][v])
    decreases |ts|
  {
    if ts != [] {
      var last := ts[|ts| - 1];
      PaintTracksValue(trck, segm, ts[..|ts| - 1], t, v);
      PaintMembersValue(PaintTracks(trck, segm, ts[..|ts| - 1]), segm, last.members, last.id, t, v);
    }
  }

  // ---------------------------------------------------------------------
  // With distinct keys, a voxel gets the id of the one track that holds its object.

  lemma {:induction false} AddedByNone(ms: seq<Entry>, id: nat, t: nat, l: nat)
    requires forall e :: e in ms ==> Key(e) != (t, l)
    ensures AddedBy(ms, id, t, l) == 0
    decreases |ms|
  {
    if ms != [] {
      assert ms[|ms| - 1] in ms;
      assert forall e :: e in ms[..|ms| - 1] ==> e in ms;
      AddedByNone(ms[..|ms| - 1], id, t, l);
    }
  }

  lemma {:induction false} AddedByOwner(ms: seq<Entry>, id: nat, j: nat)
    requires UniqueKeys(ms) && j < |ms|
    ensures AddedBy(ms, id, ms[j].t, ms[j].lbl) == id % IdRange
    decreases |ms|
  {
    var n := |ms| - 1;
    var init := ms[..n];
    if j == n {
      forall e | e in init ensures Key(e) != (ms[j].t, ms[j].lbl) {
        var i :| 0 <= i < n && init[i] == e;
        assert Key(ms[i]) != Key(ms[n]);
      }
      AddedByNone(init, id, ms[j].t, ms[j].lbl);
    } else {
      assert Key(ms[j]) != Key(ms[n]);
      assert UniqueKeys(init);
      AddedByOwner(init, id, j);
      assert init[j] == ms[j];
    }
  }

  lemma {:induction false} FlattenLast(ts: seq<Track>)
    requires ts != []
    ensures Flatten(ts) == Flatten(ts[..|ts| - 1]) + ts[|ts| - 1].members
    decreases |ts|
  {
    var n := |ts| - 1;
    if n == 0 {
      assert ts[..0] == [] && ts[1..] == [];
      assert Flatten(ts) == ts[0].members + [];
    } else {
      var tail := ts[1..];
      FlattenLast(tail);
      assert tail[..n - 1] == ts[..n][1..];
      assert tail[n - 1] == ts[n];
      assert Flatten(ts[..n]) == ts[0].members + Flatten(tail[..n - 1]);
    }
  }

  /** Every member of every track is in the flattened tracks. */
  lemma {:induction false} FlattenHas(ts: seq<Track>, k: nat, j: nat)
    requires k < |ts| && j < |ts[k].members|
    ensures ts[k].members[j] in Flatten(ts)
    decreases |ts|
  {
    if k == 0 {
      assert ts[0].members[j] in ts[0].members;
    } else {
      FlattenHas(ts[1..], k - 1, j);
      assert ts[1..][k - 1] == ts[k];
    }
  }

  /** Every entry of the flattened tracks is a member of some track. */
  lemma {:induction false} FlattenFind(ts: seq<Track>, e: Entry) returns (k: nat, j: nat)
    requires e in Flatten(ts)
    ensures k < |ts| && j < |ts[k].members| && ts[k].members[j] == e
    decreases |ts|
  {
    if e in ts[0].members {
      k := 0;
      j :| 0 <= j < |ts[0].members| && ts[0].members[j] == e;
    } else {
      var k', j' := FlattenFind(ts[1..], e);
      k, j := k' + 1, j';
      assert ts[1..][k'] == ts[k];
    }
  }

  /** Distinct keys in a concatenation: in each half, and across the halves. */
  lemma UniqueSplit(a: seq<Entry>, b: seq<Entry>)
    requires UniqueKeys(a + b)
    ensures UniqueKeys(a) && UniqueKeys(b)
    ensures forall x, y :: x in a && y in b ==> Key(x) != Key(y)
  {
    var ab := a + b;
    forall i, j | 0 <= i < j < |a| ensures Key(a[i]) != Key(a[j]) {
      assert a[i] == ab[i] && a[j] == ab[j];
    }
    forall i, j | 0 <= i < j < |b| ensures Key(b[i]) != Key(b[j]) {
      assert b[i] == ab[|a| + i] && b[j] == ab[|a| + j];
    }
    forall x, y | x in a && y in b ensures Key(x) != Key(y) {
      var i :| 0 <= i < |a| && a[i] == x;
      var j :| 0 <= j < |b| && b[j] == y;
      assert ab[i] == x && ab[|a| + j] == y;
    }
  }

  lemma {:induction false} AddedNone(ts: seq<Track>, t: nat, l: nat)
    requires forall e :: e in Flatten(ts) ==> Key(e) != (t, l)
    ensures Added(ts, t, l) == 0
    decreases |ts|
  {
    if ts != [] {
      FlattenLast(ts);
      AddedNone(ts[..|ts| - 1], t, l);
      AddedByNone(ts[|ts| - 1].members, ts[|ts| - 1].id, t, l);
    }
  }

  /** With distinct keys over all tracks, the object of member j of track k
      receives exactly the id of track k, modulo 65536. */
  lemma {:induction false} AddedOwner(ts: seq<Track>, k: nat, j: nat)
    requires UniqueKeys(Flatten(ts))
    requires k < |ts| && j < |ts[k].members|
    ensures Added(ts, ts[k].members[j].t, ts[k].members[j].lbl) == ts[k].id % IdRange
    decreases |ts|
  {
    var n := |ts| - 1;
    var m := ts[k].members[j];
    FlattenLast(ts);
    UniqueSplit(Flatten(ts[..n]), ts[n].members);
    if k == n {
      forall e | e in Flatten(ts[..n]) ensures Key(e) != (m.t, m.lbl) {
        assert m in ts[n].members;
      }
      AddedNone(ts[..n], m.t, m.lbl);
      AddedByOwner(ts[n].members, ts[n].id, j);
    } else {
      assert ts[..n][k] == ts[k];
      FlattenHas(ts[..n], k, j);
      forall e | e in ts[n].members ensures Key(e) != (m.t, m.lbl) {
      }
      AddedByNone(ts[n].members, ts[n].id, m.t, m.lbl);
      AddedOwner(ts[..n], k, j);
    }
  }

  // ---------------------------------------------------------------------
  // Distinct keys survive a permutation.

  lemma {:induction false} TwiceInMultiset(s: seq<Entry>, x: Entry)
    requires multiset(s)[x] >= 2
    ensures exists i, j :: 0 <= i < j < |s| && s[i] == x && s[j] == x
    decreases |s|
  {
    assert s == [s[0]] + s[1..];
    if s[0] == x {
      assert x in multiset(s[1..]);
      var j :| 0 <= j < |s[1..]| && s[1..][j] == x;
      assert s[0] == x && s[j + 1] == x;
    } else {
      TwiceInMultiset(s[1..], x);
      var i, j :| 0 <= i < j < |s[1..]| && s[1..][i] == x && s[1..][j] == x;
      assert s[i + 1] == x && s[j + 1] == x;
    }
  }

  lemma TwiceInSeq(s: seq<Entry>, i: nat, j: nat)
    requires i < j < |s| && s[i] == s[j]
    ensures multiset(s)[s[i]] >= 2
  {
    assert s == s[..j] + s[j..];
    assert s[i] in s[..j];
    assert s[j] in s[j..];
  }

  /** Two positions of a permutation a hold entries found at two distinct
      positions of b. */
  lemma TwoPlaces(a: seq<Entry>, b: seq<Entry>, i: nat, j: nat) returns (i': nat, j': nat)
    requires multiset(a) == multiset(b) && i < j < |a|
    ensures i' < |b| && j' < |b| && i' != j'
    ensures b[i'] == a[i] && b[j'] == a[j]
  {
    if a[i] == a[j] {
      TwiceInSeq(a, i, j);
      TwiceInMultiset(b, a[i]);
      i', j' :| 0 <= i' < j' < |b| && b[i'] == a[i] && b[j'] == a[i];
    } else {
      assert a[i] in multiset(b) && a[j] in multiset(b);
      i' :| 0 <= i' < |b| && b[i'] == a[i];
      j' :| 0 <= j' < |b| && b[j'] == a[j];
    }
  }

  /** The tracks hold the pool permuted, so their keys are distinct too. */
  lemma UniqueKeysPermuted(a: seq<Entry>, b: seq<Entry>)
    requires multiset(a) == multiset(b) && UniqueKeys(b)
    ensures UniqueKeys(a)
  {
    forall i, j | 0 <= i < j < |a| ensures Key(a[i]) != Key(a[j]) {
      var i', j' := TwoPlaces(a, b, i, j);
      if i' < j' {
        assert Key(b[i']) != Key(b[j']);
      } else {
        assert Key(b[j']) != Key(b[i']);
      }
    }
  }
}
