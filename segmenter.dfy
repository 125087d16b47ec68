/** The discrete label-volume edits a frame goes through after watershed in
    NucleiSegmenter3D: degenerate-fragment reassignment, removal of objects on
    the XY border, and the classifier-guided merge of over-segmented fragments.
    Image filtering, watershed, connected-component labelling, region features
    and the trained classifier stay outside: the classifier and the
    "infinite solidity" test are function parameters over voxel sets. */
module Segmenter {
  import opened Volumes
  import opened Subsets

  // ---------------------------------------------------------------------
  // The one-voxel ring of `expand_labels(mask, distance=1)`.

  /** The voxels at Euclidean distance 1 from v: its six face neighbours. */
  function FaceNeighbours(v: Voxel): set<Voxel> {
    { Voxel(v.z - 1, v.x, v.y), Voxel(v.z + 1, v.x, v.y),
      Voxel(v.z, v.x - 1, v.y), Voxel(v.z, v.x + 1, v.y),
      Voxel(v.z, v.x, v.y - 1), Voxel(v.z, v.x, v.y + 1) }
  }

  /** `expand_labels(mask) ^ mask` inside the frame: the voxels of the frame
      outside s that touch s by a face. */
  function Ring(f: Frame, s: set<Voxel>): set<Voxel>
  {
    set u, w | u in s && w in FaceNeighbours(u) && w in f && w !in s :: w
  }

  /** The squared Euclidean distance between two voxels, in voxel units. */
  function Dist2V(u: Voxel, w: Voxel): int {
    (w.z - u.z) * (w.z - u.z) + (w.x - u.x) * (w.x - u.x) + (w.y - u.y) * (w.y - u.y)
  }

  /** An integer square is never negative, and it is at most 1 only for -1, 0 and 1. */
  lemma SquareSmall(d: int)
    ensures d * d >= 0
    ensures d * d <= 1 ==> -1 <= d <= 1
    ensures d * d == 0 ==> d == 0
  {
    if d >= 2 {
      assert d * d >= 2 * d;
    } else if d <= -2 {
      assert d * d >= -2 * d;
    }
  }

  /** The face neighbours are exactly the voxels at distance 1. */
  lemma FaceNeighboursAtDistanceOne(u: Voxel, w: Voxel)
    ensures w in FaceNeighbours(u) <==> Dist2V(u, w) == 1
  {
    var dz, dx, dy := w.z - u.z, w.x - u.x, w.y - u.y;
    SquareSmall(dz);
    SquareSmall(dx);
    SquareSmall(dy);
    if Dist2V(u, w) == 1 {
      assert -1 <= dz <= 1 && -1 <= dx <= 1 && -1 <= dy <= 1;
    }
  }

  /** The ring is what `expand_labels(mask, distance=1)` adds to the mask:
      the voxels of the frame outside s within Euclidean distance 1 of s. */
  lemma RingMeaning(f: Frame, s: set<Voxel>, w: Voxel)
    ensures w in Ring(f, s) <==> w in f && w !in s && exists u :: u in s && Dist2V(u, w) <= 1
  {
    if w in f && w !in s && exists u :: u in s && Dist2V(u, w) <= 1 {
      var u :| u in s && Dist2V(u, w) <= 1;
      SquareSmall(w.z - u.z);
      SquareSmall(w.x - u.x);
      SquareSmall(w.y - u.y);
      FaceNeighboursAtDistanceOne(u, w);
    }
    if w in Ring(f, s) {
      var u :| u in s && w in FaceNeighbours(u) && w in f && w !in s;
      FaceNeighboursAtDistanceOne(u, w);
    }
  }

  /** The distinct nonzero labels of f found in the ring around s. */
  function RingLabels(f: Frame, s: set<Voxel>): set<nat>
  {
    set w | w in Ring(f, s) && f[w] != 0 :: f[w]
  }

  /** The labels around s are exactly the nonzero labels of the ring voxels. */
  lemma RingLabelsMeaning(f: Frame, s: set<Voxel>, n: nat)
    ensures n in RingLabels(f, s) <==> n != 0 && exists w :: w in Ring(f, s) && f[w] == n
  {
  }

  lemma RingLabelsAreLabels(f: Frame, s: set<Voxel>)
    ensures RingLabels(f, s) <= Labels(f)
  {
    forall n | n in RingLabels(f, s) ensures n in Labels(f) {
      RingLabelsMeaning(f, s, n);
      var w :| w in Ring(f, s) && f[w] == n;
    }
  }

  // ---------------------------------------------------------------------
  // Degenerate-fragment reassignment (objects whose solidity is infinite).

  /** One pass of the repair loop for the object labelled l whose voxels in
      the frame before the loop were coords: when some labelled voxel touches
      the current voxels of l, every voxel of coords takes the smallest
      touching label; otherwise nothing changes. */
  function RepairOne(f: Frame, l: nat, coords: set<Voxel>): (r: Frame)
    ensures r.Keys == f.Keys
  {
    var touching := RingLabels(f, Object(f, l));
    if touching == {} then f else Paint(f, coords, Least(touching))
  }

  /** One repair pass changes nothing when no labelled voxel touches object l,
      and otherwise moves every voxel of coords to the smallest touching label,
      leaving all other voxels alone. */
  lemma RepairOneFacts(f: Frame, l: nat, coords: set<Voxel>)
    ensures forall v :: v in f && v !in coords ==> RepairOne(f, l, coords)[v] == f[v]
    ensures RingLabels(f, Object(f, l)) == {} ==> RepairOne(f, l, coords) == f
    ensures RingLabels(f, Object(f, l)) != {} ==>
      forall v :: v in f && v in coords ==>
        RepairOne(f, l, coords)[v] in RingLabels(f, Object(f, l)) &&
        forall n :: n in RingLabels(f, Object(f, l)) ==> RepairOne(f, l, coords)[v] <= n
  {
  }

  /** The labels, in ascending order, of the objects with infinite solidity. */
  function DegenerateLabels(f: Frame, degenerate: set<Voxel> -> bool): (r: seq<nat>)
    ensures Increasing(r)
    ensures forall l :: l in r <==> l in Labels(f) && degenerate(Object(f, l))
  {
    SortedFacts(set l | l in Labels(f) && degenerate(Object(f, l)));
    Sorted(set l | l in Labels(f) && degenerate(Object(f, l)))
  }

  /** The repair loop over the first labels of ls, in order. */
  function RepairAll(f0: Frame, ls: seq<nat>): Frame
  {
    if ls == [] then f0
    else RepairOne(RepairAll(f0, ls[..|ls| - 1]), ls[|ls| - 1], Object(f0, ls[|ls| - 1]))
  }

  lemma PaintKeepsLabels(f: Frame, s: set<Voxel>, m: nat)
    requires m in Labels(f)
    ensures Labels(Paint(f, s, m)) <= Labels(f)
  {
    var g := Paint(f, s, m);
    forall n | n in Labels(g) ensures n in Labels(f) {
      var v :| v in g && g[v] != 0 && g[v] == n;
      if v !in s {
        assert f[v] == n;
      }
    }
  }

  /** The repair loop changes only voxels whose original label is among the
      labels it visits, and never introduces a label. */
  lemma {:induction false} RepairAllFacts(f0: Frame, ls: seq<nat>)
    requires forall i :: 0 <= i < |ls| ==> ls[i] in Labels(f0)
    ensures RepairAll(f0, ls).Keys == f0.Keys
    ensures forall v :: v in f0 && f0[v] !in ls ==> RepairAll(f0, ls)[v] == f0[v]
    ensures Labels(RepairAll(f0, ls)) <= Labels(f0)
  {
    if ls != [] {
      var prev := ls[..|ls| - 1];
      var l := ls[|ls| - 1];
      RepairAllFacts(f0, prev);
      var f := RepairAll(f0, prev);
      forall v | v in f0 && f0[v] !in ls ensures RepairAll(f0, ls)[v] == f0[v] {
        assert f0[v] !in prev by {
          assert forall x :: x in prev ==> x in ls;
        }
        assert v !in Object(f0, l);
        RepairOneFacts(f, l, Object(f0, l));
      }
      var touching := RingLabels(f, Object(f, l));
      if touching != {} {
        RingLabelsAreLabels(f, Object(f, l));
        PaintKeepsLabels(f, Object(f0, l), Least(touching));
      }
    }
  }

  /** The whole repair: only voxels of degenerate objects change, background
      stays background and no label is created. */
  lemma RepairDegenerateFacts(f0: Frame, degenerate: set<Voxel> -> bool)
    ensures var f := RepairAll(f0, DegenerateLabels(f0, degenerate));
      f.Keys == f0.Keys &&
      (forall v :: v in f0 && !(f0[v] in Labels(f0) && degenerate(Object(f0, f0[v]))) ==> f[v] == f0[v]) &&
      (forall v :: v in f0 && f0[v] == 0 ==> f[v] == 0) &&
      Labels(f) <= Labels(f0)
  {
    var uus := DegenerateLabels(f0, degenerate);
    forall i | 0 <= i < |uus| ensures uus[i] in Labels(f0) {
      assert uus[i] in uus;
    }
    RepairAllFacts(f0, uus);
    LabelsMeaning(f0, 0);
  }

  /** NucleiSegmenter3D.py:58-62: the repair loop over the labels uus, in order. */
  method RepairLoop(f0: Frame, uus: seq<nat>) returns (f: Frame)
    ensures f == RepairAll(f0, uus)
  {
    f := f0;
    for i := 0 to |uus|
      invariant f == RepairAll(f0, uus[..i])
    {
      var l := uus[i];
      assert uus[..i + 1][..i] == uus[..i];
      var coords := Object(f0, l);
      var touching := RingLabels(f, Object(f, l));
      ghost var next := RepairOne(f, l, coords);
      if touching != {} {
        f := Paint(f, coords, Least(touching));
      }
      assert f == next;
    }
    assert uus[..|uus|] == uus;
  }

  /** NucleiSegmenter3D.py:56-62. Only voxels of degenerate objects change,
      background stays background and no label is created. */
  method RepairDegenerate(f0: Frame, degenerate: set<Voxel> -> bool) returns (f: Frame)
    ensures f == RepairAll(f0, DegenerateLabels(f0, degenerate))
    ensures f.Keys == f0.Keys
    ensures forall v :: v in f0 && !(f0[v] in Labels(f0) && degenerate(Object(f0, f0[v]))) ==> f[v] == f0[v]
    ensures forall v :: v in f0 && f0[v] == 0 ==> f[v] == 0
    ensures Labels(f) <= Labels(f0)
  {
    var uus := DegenerateLabels(f0, degenerate);
    f := RepairLoop(f0, uus);
    RepairDegenerateFacts(f0, degenerate);
  }

  // ---------------------------------------------------------------------
  // Border exclusion.

  /** Inside the two-voxel band along the four XY faces of the frame
      (`[:, :2, :]`, `[:, -2:, :]`, `[:, :, :2]`, `[:, :, -2:]`). */
  predicate OnBorder(v: Voxel, d: Dims) {
    v.x < 2 || v.x >= d.nx - 2 || v.y < 2 || v.y >= d.ny - 2
  }

  /** The labels of the objects with at least one voxel in the band. */
  function BorderLabels(f: Frame, d: Dims): set<nat> {
    set v | v in f && f[v] != 0 && OnBorder(v, d) :: f[v]
  }

  /** NucleiSegmenter3D.py:64-74. An object with any voxel in the XY band is
      erased entirely, every other voxel keeps its label, and afterwards no
      labelled voxel lies in the band; the z faces are not examined. */
  method ExcludeBorder(f0: Frame, d: Dims) returns (f: Frame)
    ensures f.Keys == f0.Keys
    ensures forall v :: v in f0 ==> f[v] == if f0[v] in BorderLabels(f0, d) then 0 else f0[v]
    ensures forall v :: v in f && OnBorder(v, d) ==> f[v] == 0
  {
    var idxBrd := Sorted(BorderLabels(f0, d));
    SortedFacts(BorderLabels(f0, d));
    f := f0;
    for i := 0 to |idxBrd|
      invariant f.Keys == f0.Keys
      invariant forall v :: v in f0 ==> f[v] == if f0[v] in idxBrd[..i] then 0 else f0[v]
    {
      f := Paint(f, Object(f0, idxBrd[i]), 0);
      assert forall n :: n in idxBrd[..i + 1] <==> n in idxBrd[..i] || n == idxBrd[i];
    }
    assert idxBrd[..|idxBrd|] == idxBrd;
    forall v | v in f && OnBorder(v, d) ensures f[v] == 0 {
      if f0[v] != 0 {
        assert f0[v] in BorderLabels(f0, d);
      }
    }
  }

  // ---------------------------------------------------------------------
  // Classifier-guided merge of over-segmented fragments.

  /** Classifier verdicts: 0 well segmented, 1 over-segmented, 2 under-segmented. */
  const WellSegmented: nat := 0
  const OverSegmented: nat := 1

  datatype SegmentError =
    /** With fewer than two objects `np.squeeze` collapses the feature matrix
        and the feature slice or the classifier call raises. */
    FeatureMatrixCollapsed

  /** The labels that the classifier flags as over-segmented. */
  function Flagged(f: Frame, predict: set<Voxel> -> nat): set<nat> {
    set l | l in Labels(f) && predict(Object(f, l)) == OverSegmented
  }

  /** `idxs_over` as labels: the flagged labels in ascending order. */
  function FlaggedLabels(f: Frame, predict: set<Voxel> -> nat): (r: seq<nat>)
    ensures Increasing(r)
    ensures forall l :: l in r <==> l in Labels(f) && predict(Object(f, l)) == OverSegmented
  {
    SortedFacts(Flagged(f, predict));
    Sorted(Flagged(f, predict))
  }

  /** `over_mtx` as first built: f on the flagged objects, 0 elsewhere. */
  function OverMask(f: Frame, flagged: set<nat>): (r: Frame)
    ensures r.Keys == f.Keys
    ensures forall v :: v in f ==> r[v] == if f[v] in flagged then f[v] else 0
  {
    map v | v in f :: if f[v] in flagged then f[v] else 0
  }

  /** `bff_idxs`: the distinct nonzero labels of `over` in the ring around its
      object l, ascending; l itself is never among them. */
  function NeighbourLabels(over: Frame, l: nat): (r: seq<nat>)
    ensures Increasing(r)
    ensures forall n :: n in r <==> n in RingLabels(over, Object(over, l))
    ensures l !in r && 0 !in r
  {
    RingLabelsMeaning(over, Object(over, l), 0);
    RingLabelsMeaning(over, Object(over, l), l);
    SortedFacts(RingLabels(over, Object(over, l)));
    Sorted(RingLabels(over, Object(over, l)))
  }

  /** The nonzero voxels of a frame. */
  function Support(f: Frame): set<Voxel> {
    set v | v in f && f[v] != 0
  }

  /** Every entry of c is an index into a sequence of length n. */
  predicate IndicesBelow(c: seq<nat>, n: nat) {
    forall j :: 0 <= j < |c| ==> c[j] < n
  }

  /** Each subset from `all_possible_subsets(s)` indexes a sequence of length s. */
  lemma SubsetsIndexBelow(s: nat)
    ensures forall k :: 0 <= k < |SubsetsUpTo(s, s)| ==> IndicesBelow(SubsetsUpTo(s, s)[k], s)
  {
    SubsetsShape(s);
    forall k | 0 <= k < |SubsetsUpTo(s, s)| ensures IndicesBelow(SubsetsUpTo(s, s)[k], s) {
      var c := SubsetsUpTo(s, s)[k];
      assert c in SubsetsUpTo(s, s);
      forall j | 0 <= j < |c| ensures c[j] < s {
        assert c[j] in c;
      }
    }
  }

  /** Candidate nucleus for one subset: object l together with the objects
      of the neighbours whose indices are listed in c. */
  function Candidate(over: Frame, l: nat, nbrs: seq<nat>, c: seq<nat>): (r: set<Voxel>)
    requires IndicesBelow(c, |nbrs|)
    ensures Object(over, l) <= r
    decreases |c|
  {
    if c == [] then Object(over, l)
    else Candidate(over, l, nbrs, c[..|c| - 1]) + Object(over, nbrs[c[|c| - 1]])
  }

  /** A candidate built from nonzero labels lies in the support of the mask. */
  lemma {:induction false} CandidateWithin(over: Frame, l: nat, nbrs: seq<nat>, c: seq<nat>)
    requires l != 0 && 0 !in nbrs && IndicesBelow(c, |nbrs|)
    ensures Candidate(over, l, nbrs, c) <= Support(over)
    decreases |c|
  {
    if c != [] {
      CandidateWithin(over, l, nbrs, c[..|c| - 1]);
      assert nbrs[c[|c| - 1]] in nbrs;
    }
  }

  /** `new_nucs_test`: one candidate per subset, in enumeration order. */
  function Candidates(over: Frame, l: nat, nbrs: seq<nat>, combs: seq<seq<nat>>): (r: seq<set<Voxel>>)
    requires forall k :: 0 <= k < |combs| ==> IndicesBelow(combs[k], |nbrs|)
    ensures |r| == |combs|
  {
    seq(|combs|, k requires 0 <= k < |combs| => Candidate(over, l, nbrs, combs[k]))
  }

  /** `np.where(preds == 0)[0][-1]` when 0 occurs: the last candidate the
      classifier calls well segmented. */
  function LastWellSegmented(cands: seq<set<Voxel>>, predict: set<Voxel> -> nat): (r: Option<nat>)
    ensures r.Some? ==> (r.value < |cands| && predict(cands[r.value]) == WellSegmented &&
      forall j :: r.value < j < |cands| ==> predict(cands[j]) != WellSegmented)
    ensures r.None? <==> forall j :: 0 <= j < |cands| ==> predict(cands[j]) != WellSegmented
  {
    if cands == [] then None
    else if predict(cands[|cands| - 1]) == WellSegmented then Some(|cands| - 1)
    else LastWellSegmented(cands[..|cands| - 1], predict)
  }

  /** The candidates for flagged object l with neighbour labels nbrs, one per
      non-empty subset of the neighbours, in the order of `all_possible_subsets`. */
  function CandidatesOf(over: Frame, l: nat, nbrs: seq<nat>): seq<set<Voxel>>
  {
    SubsetsIndexBelow(|nbrs|);
    Candidates(over, l, nbrs, SubsetsUpTo(|nbrs|, |nbrs|))
  }

  /** `new_nuc` for flagged object l once its neighbour labels nbrs are known:
      the object alone without neighbours, the union with the only neighbour,
      and otherwise the last candidate classified well segmented, or the
      object alone when the classifier accepts none. */
  function Merged(over: Frame, l: nat, nbrs: seq<nat>, predict: set<Voxel> -> nat): set<Voxel>
  {
    if |nbrs| == 0 then Object(over, l)
    else if |nbrs| == 1 then Object(over, l) + Object(over, nbrs[0])
    else
      var cands := CandidatesOf(over, l, nbrs);
      match LastWellSegmented(cands, predict)
      case Some(q) => cands[q]
      case None => Object(over, l)
  }

  /** `new_nuc` for flagged object l (NucleiSegmenter3D.py:90-113). */
  function NewNucleus(over: Frame, l: nat, predict: set<Voxel> -> nat): set<Voxel>
  {
    Merged(over, l, NeighbourLabels(over, l), predict)
  }

  /** Every candidate contains the flagged object and lies inside the mask's support. */
  lemma CandidatesWithin(over: Frame, l: nat, nbrs: seq<nat>, combs: seq<seq<nat>>)
    requires l != 0 && 0 !in nbrs
    requires forall k :: 0 <= k < |combs| ==> IndicesBelow(combs[k], |nbrs|)
    ensures forall k :: 0 <= k < |combs| ==>
      Object(over, l) <= Candidates(over, l, nbrs, combs)[k] <= Support(over)
  {
    forall k | 0 <= k < |combs|
      ensures Object(over, l) <= Candidates(over, l, nbrs, combs)[k] <= Support(over)
    {
      CandidateWithin(over, l, nbrs, combs[k]);
    }
  }

  /** Whatever the classifier says, the merged nucleus contains the flagged
      object and lies inside the support of the mask. */
  lemma MergedWithin(over: Frame, l: nat, nbrs: seq<nat>, predict: set<Voxel> -> nat)
    requires l != 0 && 0 !in nbrs
    ensures Object(over, l) <= Merged(over, l, nbrs, predict) <= Support(over)
  {
    if |nbrs| == 1 {
      assert nbrs[0] in nbrs;
    } else if |nbrs| >= 2 {
      SubsetsIndexBelow(|nbrs|);
      CandidatesWithin(over, l, nbrs, SubsetsUpTo(|nbrs|, |nbrs|));
    }
  }

  /** The merged nucleus always contains the flagged object and lies inside
      the over-segmented mask. */
  lemma NewNucleusWithin(over: Frame, l: nat, predict: set<Voxel> -> nat)
    requires l != 0
    ensures Object(over, l) <= NewNucleus(over, l, predict) <= Support(over)
  {
    MergedWithin(over, l, NeighbourLabels(over, l), predict);
  }

  /** With a single neighbour the merged nucleus is the disjoint union of the
      two objects, whatever the classifier says. */
  lemma NewNucleusSingleNeighbour(over: Frame, l: nat, predict: set<Voxel> -> nat)
    requires |NeighbourLabels(over, l)| == 1
    ensures var n := NeighbourLabels(over, l)[0];
      NewNucleus(over, l, predict) == Object(over, l) + Object(over, n) &&
      Object(over, l) !! Object(over, n) &&
      |NewNucleus(over, l, predict)| == |Object(over, l)| + |Object(over, n)|
  {
    var n := NeighbourLabels(over, l)[0];
    assert n in NeighbourLabels(over, l);
    assert Object(over, l) !! Object(over, n);
  }

  /** An object already absorbed into an earlier nucleus has no voxels left in
      the mask, no neighbours, and yields an empty nucleus. */
  lemma NewNucleusConsumed(over: Frame, l: nat, predict: set<Voxel> -> nat)
    requires Object(over, l) == {}
    ensures NeighbourLabels(over, l) == []
    ensures NewNucleus(over, l, predict) == {}
  {
    assert Ring(over, Object(over, l)) == {};
    assert RingLabels(over, Object(over, l)) == {};
  }

  /** The inner loop of `new_nucs_test`: unions the neighbour objects of one subset. */
  method BuildCandidate(over: Frame, l: nat, nbrs: seq<nat>, c: seq<nat>) returns (nuc: set<Voxel>)
    requires IndicesBelow(c, |nbrs|)
    ensures nuc == Candidate(over, l, nbrs, c)
  {
    nuc := Object(over, l);
    for j := 0 to |c|
      invariant nuc == Candidate(over, l, nbrs, c[..j])
    {
      assert c[..j + 1][..j] == c[..j];
      nuc := nuc + Object(over, nbrs[c[j]]);
    }
    assert c[..|c|] == c;
  }

  /** NucleiSegmenter3D.py:99-104: the candidate list, appended one subset at a time. */
  method BuildCandidates(over: Frame, l: nat, nbrs: seq<nat>, combs: seq<seq<nat>>)
    returns (newNucsTest: seq<set<Voxel>>)
    requires forall k :: 0 <= k < |combs| ==> IndicesBelow(combs[k], |nbrs|)
    ensures newNucsTest == Candidates(over, l, nbrs, combs)
  {
    newNucsTest := [];
    for k := 0 to |combs|
      invariant |newNucsTest| == k
      invariant forall j :: 0 <= j < k ==> newNucsTest[j] == Candidate(over, l, nbrs, combs[j])
    {
      var nuc := BuildCandidate(over, l, nbrs, combs[k]);
      newNucsTest := newNucsTest + [nuc];
    }
  }

  /** NucleiSegmenter3D.py:97-113: with several neighbours, tries every
      non-empty subset of them and keeps the last candidate the classifier
      calls well segmented, or the object alone when it accepts none. */
  method ChooseAmongSubsets(over: Frame, l: nat, bffIdxs: seq<nat>, predict: set<Voxel> -> nat)
    returns (newNuc: set<Voxel>)
    requires |bffIdxs| > 1
    ensures newNuc == Merged(over, l, bffIdxs, predict)
  {
    newNuc := Object(over, l);
    var combs := AllPossibleSubsets(|bffIdxs|);
    SubsetsIndexBelow(|bffIdxs|);
    var newNucsTest := BuildCandidates(over, l, bffIdxs, combs);
    assert newNucsTest == CandidatesOf(over, l, bffIdxs);
    var qq := LastWellSegmented(newNucsTest, predict);
    if qq.Some? {
      newNuc := newNucsTest[qq.value];
    }
  }

  /** One step of the merge: the new nucleus of flagged label l is written
      with label l into the frame and erased from the over-segmented mask. */
  function MergeStep(f: Frame, over: Frame, l: nat, predict: set<Voxel> -> nat): (Frame, Frame)
  {
    var nuc := NewNucleus(over, l, predict);
    (Paint(f, nuc, l), Paint(over, nuc, 0))
  }

  /** One iteration of the merge loop for flagged label l
      (NucleiSegmenter3D.py:90-117). */
  method MergeOne(f: Frame, over: Frame, l: nat, predict: set<Voxel> -> nat)
    returns (f': Frame, over': Frame)
    ensures (f', over') == MergeStep(f, over, l, predict)
  {
    var bffIdxs := NeighbourLabels(over, l);
    var newNuc := Object(over, l);
    if |bffIdxs| == 1 {
      newNuc := newNuc + Object(over, bffIdxs[0]);
    } else if |bffIdxs| > 1 {
      newNuc := ChooseAmongSubsets(over, l, bffIdxs, predict);
    }
    ghost var nuc := NewNucleus(over, l, predict);
    assert newNuc == nuc;
    f' := Paint(f, newNuc, l);
    over' := Paint(over, newNuc, 0);
    assert (f', over') == (Paint(f, nuc, l), Paint(over, nuc, 0));
  }

  /** The merge loop run over the first flagged labels, from the frame and mask it starts with. */
  function MergeAll(f0: Frame, over0: Frame, ls: seq<nat>, predict: set<Voxel> -> nat): (Frame, Frame)
  {
    if ls == [] then (f0, over0)
    else
      var (f, over) := MergeAll(f0, over0, ls[..|ls| - 1], predict);
      MergeStep(f, over, ls[|ls| - 1], predict)
  }

  /** The merge loop keeps the frame's voxels, only erases the mask, keeps
      every voxel still in the mask labelled alike in the frame, and only
      ever rewrites a voxel that started in a flagged object, and then with a
      flagged label. */
  lemma {:induction false} MergeAllFacts(f0: Frame, flagged: set<nat>, ls: seq<nat>, predict: set<Voxel> -> nat)
    requires 0 !in flagged
    requires forall i :: 0 <= i < |ls| ==> ls[i] in flagged
    ensures var (f, over) := MergeAll(f0, OverMask(f0, flagged), ls, predict);
      f.Keys == f0.Keys && over.Keys == f0.Keys &&
      (forall v :: v in over ==> over[v] == 0 || over[v] == f0[v]) &&
      (forall v :: v in over && over[v] != 0 ==> f[v] == over[v]) &&
      (forall v :: v in f0 && f0[v] !in flagged ==> f[v] == f0[v] && over[v] == 0) &&
      (forall v :: v in f0 && f[v] != f0[v] ==> f[v] in flagged && f0[v] in flagged)
  {
    var over0 := OverMask(f0, flagged);
    if ls != [] {
      var prev := ls[..|ls| - 1];
      var l := ls[|ls| - 1];
      MergeAllFacts(f0, flagged, prev, predict);
      var (f, over) := MergeAll(f0, over0, prev, predict);
      var nuc := NewNucleus(over, l, predict);
      NewNucleusWithin(over, l, predict);
      assert MergeAll(f0, over0, ls, predict) == (Paint(f, nuc, l), Paint(over, nuc, 0));
    }
  }

  /** NucleiSegmenter3D.py:90-117: the loop over the flagged labels, in
      order, each step merging one nucleus into the frame and out of the mask. */
  method MergeLoop(f0: Frame, over0: Frame, idxsOver: seq<nat>, predict: set<Voxel> -> nat)
    returns (f: Frame, over: Frame)
    ensures (f, over) == MergeAll(f0, over0, idxsOver, predict)
  {
    f, over := f0, over0;
    for i := 0 to |idxsOver|
      invariant (f, over) == MergeAll(f0, over0, idxsOver[..i], predict)
    {
      var l := idxsOver[i];
      assert idxsOver[..i + 1][..i] == idxsOver[..i];
      ghost var next := MergeAll(f0, over0, idxsOver[..i + 1], predict);
      assert next == MergeStep(f, over, l, predict);
      f, over := MergeOne(f, over, l, predict);
    }
    assert idxsOver[..|idxsOver|] == idxsOver;
  }

  /** NucleiSegmenter3D.py:78-117 after the classifier: the merge of
      over-segmented fragments. A frame with fewer than two objects fails.
      Otherwise only voxels of flagged objects change, each change writes a
      flagged label, and background stays background. */
  method MergeOverSegmented(f0: Frame, predict: set<Voxel> -> nat) returns (r: Result<Frame, SegmentError>)
    ensures r.Err? <==> |Labels(f0)| < 2
    ensures r.Ok? ==>
      var flagged := FlaggedLabels(f0, predict);
      r.value == MergeAll(f0, OverMask(f0, Flagged(f0, predict)), flagged, predict).0
    ensures r.Ok? ==> r.value.Keys == f0.Keys
    ensures r.Ok? ==> forall v :: v in f0 && predict(Object(f0, f0[v])) != OverSegmented ==> r.value[v] == f0[v]
    ensures r.Ok? ==> forall v :: v in f0 && f0[v] == 0 ==> r.value[v] == 0
    ensures r.Ok? ==> forall v :: v in f0 && r.value[v] != f0[v] ==>
      r.value[v] in FlaggedLabels(f0, predict) && f0[v] in FlaggedLabels(f0, predict)
  {
    var isoLbls := Sorted(Labels(f0));
    SortedFacts(Labels(f0));
    if |isoLbls| < 2 {
      return Err(FeatureMatrixCollapsed);
    }
    var idxsOver := FlaggedLabels(f0, predict);
    var overMtx := OverMask(f0, Flagged(f0, predict));
    var f, _ := MergeLoop(f0, overMtx, idxsOver, predict);
    MergeOverSegmentedFacts(f0, predict);
    r := Ok(f);
  }

  /** The frame-level consequences of MergeAllFacts for the flagged labels. */
  lemma MergeOverSegmentedFacts(f0: Frame, predict: set<Voxel> -> nat)
    ensures var flagged := FlaggedLabels(f0, predict);
      var f := MergeAll(f0, OverMask(f0, Flagged(f0, predict)), flagged, predict).0;
      f.Keys == f0.Keys &&
      (forall v :: v in f0 && predict(Object(f0, f0[v])) != OverSegmented ==> f[v] == f0[v]) &&
      (forall v :: v in f0 && f0[v] == 0 ==> f[v] == 0) &&
      (forall v :: v in f0 && f[v] != f0[v] ==> f[v] in flagged && f0[v] in flagged)
  {
    var flagged := FlaggedLabels(f0, predict);
    var fs := Flagged(f0, predict);
    LabelsMeaning(f0, 0);
    forall i | 0 <= i < |flagged| ensures flagged[i] in fs {
      assert flagged[i] in flagged;
    }
    MergeAllFacts(f0, fs, flagged, predict);
  }
}
