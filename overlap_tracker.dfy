/** The overlap tracker of Nuclei3dTracker.py (`NucleiOverlTracker`). Output
    frame 0 is segmented frame 0. Every later output frame starts at zero and,
    for each tag of the previous output frame in ascending order, receives the
    whole segmented object that the tagged voxels overlap, chosen as numpy's
    median of the nonzero labels under them. */
module OverlapTracker {
  import opened Volumes

  /** `AsWritten` follows the code: an integer median that is not a label of
      the next frame makes the label lookup raise, and one that is a label is
      taken even when the tagged voxels do not touch that object. `Corrected`
      propagates a tag only to a label the tagged voxels overlap. */
  datatype Mode = AsWritten | Corrected

  datatype OverlError =
    | NoFrames                                 // `nucs_trck[0]` of an empty movie
    | MissingLabel(t: nat, tag: nat, l: nat)   // `np.where(...)[0][0]` finds no label l in frame t

  // ---------------------------------------------------------------------
  // The overlap of one tagged object with the next segmented frame.

  /** The nonzero labels of seg under the voxels tagged tag in prev
      (`nxt_tag[nxt_tag != 0]`), voxel by voxel. */
  function Overlap(prev: Frame, seg: Frame, tag: nat): map<Voxel, nat> {
    map v | v in Object(prev, tag) && v in seg && seg[v] != 0 :: seg[v]
  }

  /** How many overlap voxels carry a label below l, at most l, exactly l. */
  function Below(o: map<Voxel, nat>, l: nat): nat {
    |set v | v in o && o[v] < l|
  }

  function AtMost(o: map<Voxel, nat>, l: nat): nat {
    |set v | v in o && o[v] <= l|
  }

  function Count(o: map<Voxel, nat>, l: nat): nat {
    |set v | v in o && o[v] == l|
  }

  /** The entry at index k of the sorted overlap labels: the least label
      with more than k voxels at or below it. */
  function Kth(o: map<Voxel, nat>, k: nat): (l: nat)
    requires k < |o|
    ensures l in o.Values
  {
    KthExists(o, k);
    Least(Candidates(o, k))
  }

  function Candidates(o: map<Voxel, nat>, k: nat): set<nat> {
    set l | l in o.Values && AtMost(o, l) > k
  }

  /** numpy's median of the overlap labels: the middle one for an odd count,
      the mean of the two middle ones for an even count, and nothing (NaN)
      for an empty overlap. */
  function Median(o: map<Voxel, nat>): (m: Option<real>)
    ensures m.Some? ==> m.value >= 0.0
  {
    var n := |o|;
    if n == 0 then None
    else if n % 2 == 1 then Some(Kth(o, n / 2) as real)
    else Some((Kth(o, n / 2 - 1) + Kth(o, n / 2)) as real / 2.0)
  }

  /** `nxt_tag - np.fix(nxt_tag) == 0.0`; NaN fails it. */
  predicate IsWhole(m: Option<real>) {
    m.Some? && m.value == m.value.Floor as real
  }

  /** What the tag is propagated to in frame t: nothing when the test fails,
      the label of the median otherwise, or the lookup failure. */
  function Target(mode: Mode, t: nat, prev: Frame, seg: Frame, tag: nat): Result<Option<nat>, OverlError> {
    var o := Overlap(prev, seg, tag);
    var m := Median(o);
    if !IsWhole(m) then Ok(None)
    else
      var l := m.value.Floor as nat;
      if mode == AsWritten then
        if l in Labels(seg) then Ok(Some(l)) else Err(MissingLabel(t, tag, l))
      else
        if l in o.Values then Ok(Some(l)) else Ok(None)
  }

  predicate Targets(mode: Mode, t: nat, prev: Frame, seg: Frame, tag: nat, l: nat) {
    Target(mode, t, prev, seg, tag) == Ok(Some(l))
  }

  // ---------------------------------------------------------------------
  // Order statistics.

  predicate IsGreatest(m: nat, s: set<nat>) {
    m in s && forall y :: y in s ==> y <= m
  }

  lemma {:induction false} GreatestExists(s: set<nat>)
    requires s != {}
    ensures exists m :: IsGreatest(m, s)
    decreases |s|
  {
    var x :| x in s;
    var rest := s - {x};
    var best := x;
    if rest != {} {
      GreatestExists(rest);
      var m :| IsGreatest(m, rest);
      best := if x < m then m else x;
    }
    forall y | y in s ensures y <= best {
      assert y == x || y in rest;
    }
    assert IsGreatest(best, s);
  }

  /** Some label has more than k voxels at or below it: the greatest one. */
  lemma KthExists(o: map<Voxel, nat>, k: nat)
    requires k < |o|
    ensures Candidates(o, k) != {}
  {
    var v :| v in o;
    assert o[v] in o.Values;
    GreatestExists(o.Values);
    var m :| IsGreatest(m, o.Values);
    forall w | w in o ensures o[w] <= m {
      assert o[w] in o.Values;
    }
    assert (set w | w in o && o[w] <= m) == o.Keys;
    assert m in Candidates(o, k);
  }

  lemma SubsetCard(a: set<Voxel>, b: set<Voxel>)
    requires a <= b
    ensures |a| <= |b|
  {
    assert b == a + (b - a);
  }

  /** The voxels at or below l are those below l and those at l. */
  lemma AtMostSplit(o: map<Voxel, nat>, l: nat)
    ensures AtMost(o, l) == Below(o, l) + Count(o, l)
    ensures AtMost(o, l) <= |o|
  {
    var below := set v | v in o && o[v] < l;
    var at := set v | v in o && o[v] == l;
    assert (set v | v in o && o[v] <= l) == below + at;
    assert below !! at;
    SubsetCard((set v | v in o && o[v] <= l), o.Keys);
  }

  /** Kth is the order statistic: label l is the entry at index k of the
      sorted overlap labels exactly when at most k voxels lie below l and
      more than k lie at or below it. */
  lemma KthMeaning(o: map<Voxel, nat>, k: nat, l: nat)
    requires k < |o|
    ensures Kth(o, k) == l <==> Below(o, l) <= k < AtMost(o, l)
  {
    var kth := Kth(o, k);
    assert kth in Candidates(o, k);
    var low := set v | v in o && o[v] < kth;
    if low != {} {
      var lv :| lv in low;
      var values := set v | v in low :: o[v];
      assert o[lv] in values;
      GreatestExists(values);
      var g :| IsGreatest(g, values);
      forall v | v in low ensures o[v] <= g {
        assert o[v] in values;
      }
      SubsetCard(low, (set v | v in o && o[v] <= g));
      assert g !in Candidates(o, k);
    }
    if Below(o, l) <= k < AtMost(o, l) {
      AtMostSplit(o, l);
      var at := set v | v in o && o[v] == l;
      var w :| w in at;
      assert l in Candidates(o, k);
      if kth < l {
        SubsetCard((set v | v in o && o[v] <= kth), (set v | v in o && o[v] < l));
      }
    }
  }

  /** A label under more than half of the overlap voxels is the median:
      the object the tagged nucleus mostly overlaps. */
  lemma MajorityMedian(o: map<Voxel, nat>, l: nat)
    requires 2 * Count(o, l) > |o|
    ensures Median(o) == Some(l as real)
  {
    AtMostSplit(o, l);
    var n := |o|;
    if n % 2 == 1 {
      KthMeaning(o, n / 2, l);
    } else {
      KthMeaning(o, n / 2 - 1, l);
      KthMeaning(o, n / 2, l);
    }
  }

  // ---------------------------------------------------------------------
  // The output frames.

  /** The `for nuc_tag` loop: f after painting, tag by tag in order, the whole
      target object of seg with the tag. */
  function PaintTags(mode: Mode, t: nat, prev: Frame, seg: Frame, tags: seq<nat>, f: Frame): Result<Frame, OverlError>
    decreases |tags|
  {
    if tags == [] then Ok(f)
    else
      match Target(mode, t, prev, seg, tags[0])
      case Err(e) => Err(e)
      case Ok(None) => PaintTags(mode, t, prev, seg, tags[1..], f)
      case Ok(Some(l)) => PaintTags(mode, t, prev, seg, tags[1..], Paint(f, Object(seg, l), tags[0]))
  }

  /** Output frame t from output frame t - 1 and segmented frame t. */
  function Next(mode: Mode, t: nat, prev: Frame, seg: Frame): Result<Frame, OverlError> {
    PaintTags(mode, t, prev, seg, Sorted(Labels(prev)), Zeros(seg))
  }

  /** The first n output frames. */
  function Frames(mode: Mode, segm: seq<Frame>, n: nat): (r: Result<seq<Frame>, OverlError>)
    requires 1 <= n <= |segm|
    ensures r.Ok? ==> |r.value| == n
  {
    if n == 1 then Ok([segm[0]])
    else
      match Frames(mode, segm, n - 1)
      case Err(e) => Err(e)
      case Ok(fs) =>
        match Next(mode, n - 1, fs[n - 2], segm[n - 1])
        case Err(e) => Err(e)
        case Ok(f) => Ok(fs + [f])
  }

  /** The tracker: `nucs_trck`, or the failure of the code as written. */
  function Overl(mode: Mode, segm: seq<Frame>): Result<seq<Frame>, OverlError> {
    if |segm| == 0 then Err(NoFrames) else Frames(mode, segm, |segm|)
  }

  // ---------------------------------------------------------------------
  // What one propagation step writes.

  /** A frame laid over seg: the same voxels, zero on the background of seg,
      and one value over each object of seg. */
  ghost predicate FollowsObjects(seg: Frame, f: Frame) {
    && f.Keys == seg.Keys
    && (forall v :: v in seg && seg[v] == 0 ==> f[v] == 0)
    && (forall v, w :: v in seg && w in seg && seg[v] == seg[w] ==> f[v] == f[w])
  }

  /** Painting whole objects keeps a frame laid over seg, and every value
      written is one of the tags. */
  lemma {:induction false} PaintTagsFacts(mode: Mode, t: nat, prev: Frame, seg: Frame, tags: seq<nat>, f: Frame, r: Frame)
    requires PaintTags(mode, t, prev, seg, tags, f) == Ok(r)
    requires FollowsObjects(seg, f)
    ensures FollowsObjects(seg, r)
    ensures forall v :: v in r ==> r[v] == f[v] || r[v] in tags
    decreases |tags|
  {
    if tags != [] {
      var target := Target(mode, t, prev, seg, tags[0]);
      if target == Ok(None) {
        PaintTagsFacts(mode, t, prev, seg, tags[1..], f, r);
      } else if target.Ok? {
        var l := target.value.value;
        var g := Paint(f, Object(seg, l), tags[0]);
        forall v, w | v in seg && w in seg && seg[v] == seg[w] ensures g[v] == g[w] {
          assert v in Object(seg, l) <==> w in Object(seg, l);
        }
        PaintTagsFacts(mode, t, prev, seg, tags[1..], g, r);
        forall v | v in r ensures r[v] == f[v] || r[v] in tags {
          assert r[v] in tags[1..] ==> r[v] in tags;
        }
      }
    }
  }

  /** The last tag, in list order, whose target is the object of v decides
      the value of v; when no tag targets it, v keeps its value. */
  lemma {:induction false} PaintTagsLast(mode: Mode, t: nat, prev: Frame, seg: Frame, tags: seq<nat>, f: Frame, r: Frame, v: Voxel)
    requires PaintTags(mode, t, prev, seg, tags, f) == Ok(r)
    requires f.Keys == seg.Keys && v in seg
    ensures r.Keys == f.Keys
    ensures (forall i :: 0 <= i < |tags| ==> !Targets(mode, t, prev, seg, tags[i], seg[v])) ==> r[v] == f[v]
    ensures forall i ::
              (0 <= i < |tags| && Targets(mode, t, prev, seg, tags[i], seg[v]) &&
               forall j :: i < j < |tags| ==> !Targets(mode, t, prev, seg, tags[j], seg[v])) ==> r[v] == tags[i]
    decreases |tags|
  {
    if tags != [] {
      var target := Target(mode, t, prev, seg, tags[0]);
      var g := if target.Ok? && target.value.Some? then Paint(f, Object(seg, target.value.value), tags[0]) else f;
      assert PaintTags(mode, t, prev, seg, tags[1..], g) == Ok(r);
      PaintTagsLast(mode, t, prev, seg, tags[1..], g, r, v);
      assert g[v] == if Targets(mode, t, prev, seg, tags[0], seg[v]) then tags[0] else f[v];
      forall i | 0 <= i < |tags| && Targets(mode, t, prev, seg, tags[i], seg[v])
                 && (forall j :: i < j < |tags| ==> !Targets(mode, t, prev, seg, tags[j], seg[v]))
        ensures r[v] == tags[i]
      {
        if i == 0 {
          forall j | 0 <= j < |tags[1..]| ensures !Targets(mode, t, prev, seg, tags[1..][j], seg[v]) {
            assert tags[1..][j] == tags[j + 1];
          }
        } else {
          assert tags[1..][i - 1] == tags[i];
          forall j | i - 1 < j < |tags[1..]| ensures !Targets(mode, t, prev, seg, tags[1..][j], seg[v]) {
            assert tags[1..][j] == tags[j + 1];
          }
        }
      }
      if forall i :: 0 <= i < |tags| ==> !Targets(mode, t, prev, seg, tags[i], seg[v]) {
        forall j | 0 <= j < |tags[1..]| ensures !Targets(mode, t, prev, seg, tags[1..][j], seg[v]) {
          assert tags[1..][j] == tags[j + 1];
        }
      }
    }
  }

  /** A failing step fails at a label lookup. */
  lemma {:induction false} PaintTagsErr(mode: Mode, t: nat, prev: Frame, seg: Frame, tags: seq<nat>, f: Frame)
    requires PaintTags(mode, t, prev, seg, tags, f).Err?
    ensures PaintTags(mode, t, prev, seg, tags, f).error.MissingLabel?
    ensures mode == AsWritten
    decreases |tags|
  {
    var target := Target(mode, t, prev, seg, tags[0]);
    if target == Ok(None) {
      PaintTagsErr(mode, t, prev, seg, tags[1..], f);
    } else if target.Ok? {
      PaintTagsErr(mode, t, prev, seg, tags[1..], Paint(f, Object(seg, target.value.value), tags[0]));
    }
  }

  /** Output frame t, made from output frame t - 1: it has the voxels of
      segmented frame t, copies each segmented object whole under one value,
      keeps the background at 0, holds only tags of frame t - 1, and gives
      each object the greatest tag whose median picks it, or 0 when none
      does. */
  lemma NextFacts(mode: Mode, t: nat, prev: Frame, seg: Frame, f: Frame)
    requires Next(mode, t, prev, seg) == Ok(f)
    ensures FollowsObjects(seg, f)
    ensures Labels(f) <= Labels(prev)
    ensures forall v :: v in seg && (forall tag :: tag in Labels(prev) ==> !Targets(mode, t, prev, seg, tag, seg[v])) ==> f[v] == 0
    ensures forall v, tag ::
              (v in seg && tag in Labels(prev) && Targets(mode, t, prev, seg, tag, seg[v]) &&
               forall tag' :: tag' in Labels(prev) && tag < tag' ==> !Targets(mode, t, prev, seg, tag', seg[v])) ==> f[v] == tag
  {
    var tags := Sorted(Labels(prev));
    SortedFacts(Labels(prev));
    PaintTagsFacts(mode, t, prev, seg, tags, Zeros(seg), f);
    forall l | l in Labels(f) ensures l in Labels(prev) {
      var v :| v in f && f[v] != 0 && f[v] == l;
    }
    forall v | v in seg && (forall tag :: tag in Labels(prev) ==> !Targets(mode, t, prev, seg, tag, seg[v]))
      ensures f[v] == 0
    {
      PaintTagsLast(mode, t, prev, seg, tags, Zeros(seg), f, v);
    }
    forall v, tag | v in seg && tag in Labels(prev) && Targets(mode, t, prev, seg, tag, seg[v])
                    && (forall tag' :: tag' in Labels(prev) && tag < tag' ==> !Targets(mode, t, prev, seg, tag', seg[v]))
      ensures f[v] == tag
    {
      PaintTagsLast(mode, t, prev, seg, tags, Zeros(seg), f, v);
      var i :| 0 <= i < |tags| && tags[i] == tag;
      forall j | i < j < |tags| ensures !Targets(mode, t, prev, seg, tags[j], seg[v]) {
        assert tags[j] in Labels(prev);
      }
    }
  }

  /** A label of the overlap is an object of seg under the tagged voxels. */
  lemma OverlapValue(prev: Frame, seg: Frame, tag: nat, l: nat) returns (v: Voxel)
    requires l in Overlap(prev, seg, tag).Values
    ensures v in prev && prev[v] == tag && v in seg && seg[v] == l
    ensures l in Labels(seg)
  {
    var o := Overlap(prev, seg, tag);
    v :| v in o && o[v] == l;
  }

  /** What a tag is propagated to. An empty overlap propagates nothing; the
      label under more than half of the overlap, and the middle label of an
      odd overlap, are propagated in both modes; whatever is propagated is an
      object of the frame and, corrected, one the tagged voxels touch; the
      code as written fails only at a lookup of a label the frame lacks. */
  lemma TargetFacts(mode: Mode, t: nat, prev: Frame, seg: Frame, tag: nat)
    ensures Overlap(prev, seg, tag) == map[] ==> Target(mode, t, prev, seg, tag) == Ok(None)
    ensures forall l :: 2 * Count(Overlap(prev, seg, tag), l) > |Overlap(prev, seg, tag)| ==> Targets(mode, t, prev, seg, tag, l)
    ensures |Overlap(prev, seg, tag)| % 2 == 1 ==>
              exists l :: l in Overlap(prev, seg, tag).Values && Targets(mode, t, prev, seg, tag, l)
    ensures forall l :: Targets(mode, t, prev, seg, tag, l) ==> l in Labels(seg)
    ensures forall l :: mode == Corrected && Targets(mode, t, prev, seg, tag, l) ==>
              exists v :: v in prev && prev[v] == tag && v in seg && seg[v] == l
    ensures Target(mode, t, prev, seg, tag).Err? ==>
              var e := Target(mode, t, prev, seg, tag).error;
              mode == AsWritten && e.MissingLabel? && e.t == t && e.tag == tag && e.l !in Labels(seg)
  {
    var o := Overlap(prev, seg, tag);
    forall l | 2 * Count(o, l) > |o| ensures Targets(mode, t, prev, seg, tag, l) {
      MajorityMedian(o, l);
      var w :| w in (set v | v in o && o[v] == l);
      assert l in o.Values;
      var v := OverlapValue(prev, seg, tag, l);
    }
    if |o| % 2 == 1 {
      var l := Kth(o, |o| / 2);
      var v := OverlapValue(prev, seg, tag, l);
      assert Targets(mode, t, prev, seg, tag, l);
    }
    forall l | Targets(mode, t, prev, seg, tag, l) ensures l in Labels(seg) {
      if mode == Corrected {
        var v := OverlapValue(prev, seg, tag, l);
      }
    }
    forall l | mode == Corrected && Targets(mode, t, prev, seg, tag, l)
      ensures exists v :: v in prev && prev[v] == tag && v in seg && seg[v] == l
    {
      var v := OverlapValue(prev, seg, tag, l);
    }
  }

  /** The first n frames: frame 0 is segmented frame 0 and each later frame
      is the step from the one before; only the code as written fails, and
      only at a label lookup. */
  lemma FramesFacts(mode: Mode, segm: seq<Frame>, n: nat)
    requires 1 <= n <= |segm|
    ensures Frames(mode, segm, n).Err? ==> mode == AsWritten && Frames(mode, segm, n).error.MissingLabel?
    ensures Frames(mode, segm, n).Ok? ==>
              var fs := Frames(mode, segm, n).value;
              fs[0] == segm[0] && forall t :: 0 < t < n ==> Next(mode, t, fs[t - 1], segm[t]) == Ok(fs[t])
  {
    FramesErrIsLookup(mode, segm, n);
    FramesOkSteps(mode, segm, n);
  }

  lemma {:induction false} FramesErrIsLookup(mode: Mode, segm: seq<Frame>, n: nat)
    requires 1 <= n <= |segm|
    ensures Frames(mode, segm, n).Err? ==> mode == AsWritten && Frames(mode, segm, n).error.MissingLabel?
    decreases n
  {
    if n > 1 {
      var m := n - 1;
      FramesErrIsLookup(mode, segm, m);
      if Frames(mode, segm, m).Ok? {
        var fs := Frames(mode, segm, m).value;
        var step := Next(mode, m, fs[m - 1], segm[m]);
        if step.Err? {
          PaintTagsErr(mode, m, fs[m - 1], segm[m], Sorted(Labels(fs[m - 1])), Zeros(segm[m]));
          FramesStepErr(mode, segm, m, fs, step.error);
        } else {
          FramesStep(mode, segm, m, n, fs, step.value);
        }
      }
    }
  }

  lemma {:induction false} FramesOkSteps(mode: Mode, segm: seq<Frame>, n: nat)
    requires 1 <= n <= |segm|
    ensures Frames(mode, segm, n).Ok? ==>
              var fs := Frames(mode, segm, n).value;
              fs[0] == segm[0] && forall t :: 0 < t < n ==> Next(mode, t, fs[t - 1], segm[t]) == Ok(fs[t])
    decreases n
  {
    if n > 1 {
      var m := n - 1;
      FramesOkSteps(mode, segm, m);
      if Frames(mode, segm, m).Ok? {
        var fs := Frames(mode, segm, m).value;
        var step := Next(mode, m, fs[m - 1], segm[m]);
        if step.Ok? {
          var gs := fs + [step.value];
          FramesStep(mode, segm, m, n, fs, step.value);
          forall t | 0 < t < n ensures Next(mode, t, gs[t - 1], segm[t]) == Ok(gs[t]) {
            if t < m {
              assert gs[t - 1] == fs[t - 1] && gs[t] == fs[t];
            }
          }
        } else {
          FramesStepErr(mode, segm, m, fs, step.error);
        }
      }
    }
  }

  /** The run: it fails on an empty movie and, as written, at a label
      lookup; the corrected tracker never fails on a non-empty movie. The
      output has one frame per segmented frame, frame 0 is segmented frame 0,
      each later frame copies whole segmented objects over a zero background,
      and holds only tags of the frame before, so no tag is ever created
      after frame 0. */
  lemma OverlFacts(mode: Mode, segm: seq<Frame>)
    ensures Overl(mode, segm) == Err(NoFrames) <==> |segm| == 0
    ensures Overl(mode, segm).Err? && |segm| > 0 ==> mode == AsWritten && Overl(mode, segm).error.MissingLabel?
    ensures mode == Corrected && |segm| > 0 ==> Overl(mode, segm).Ok?
    ensures Overl(mode, segm).Ok? ==>
              var fs := Overl(mode, segm).value;
              && |fs| == |segm| && fs[0] == segm[0]
              && (forall t :: 0 < t < |segm| ==> FollowsObjects(segm[t], fs[t]) && Labels(fs[t]) <= Labels(fs[t - 1]))
              && (forall t :: 0 <= t < |segm| ==> Labels(fs[t]) <= Labels(segm[0]))
  {
    if |segm| > 0 {
      var n := |segm|;
      FramesFacts(mode, segm, n);
      if Overl(mode, segm).Ok? {
        var fs := Overl(mode, segm).value;
        forall t | 0 < t < |segm| ensures FollowsObjects(segm[t], fs[t]) && Labels(fs[t]) <= Labels(fs[t - 1]) {
          NextFacts(mode, t, fs[t - 1], segm[t], fs[t]);
        }
        TagsFromFirst(fs, n);
      }
    }
  }

  // ---------------------------------------------------------------------
  // A movie that does not change.

  /** A tag laid over the frame it came from overlaps only itself, and so is
      propagated to itself. */
  lemma SelfTarget(mode: Mode, t: nat, f: Frame, tag: nat)
    requires tag in Labels(f)
    ensures Target(mode, t, f, f, tag) == Ok(Some(tag))
  {
    var o := Overlap(f, f, tag);
    LabelsMeaning(f, tag);
    var v :| v in Object(f, tag);
    assert v in o;
    assert (set w | w in o && o[w] == tag) == o.Keys;
    MajorityMedian(o, tag);
    assert o[v] == tag;
  }

  /** Painting the tags of f over f itself never fails. */
  lemma {:induction false} PaintTagsSelfOk(mode: Mode, t: nat, f: Frame, tags: seq<nat>, g: Frame)
    requires forall i :: 0 <= i < |tags| ==> tags[i] in Labels(f)
    ensures PaintTags(mode, t, f, f, tags, g).Ok?
    decreases |tags|
  {
    if tags != [] {
      SelfTarget(mode, t, f, tags[0]);
      PaintTagsSelfOk(mode, t, f, tags[1..], Paint(g, Object(f, tags[0]), tags[0]));
    }
  }

  /** Laid over itself, no tag targets the background and each object is
      targeted by its own tag alone. */
  lemma SelfTargets(mode: Mode, t: nat, f: Frame, l: nat)
    ensures forall tag :: tag in Labels(f) ==> (Targets(mode, t, f, f, tag, l) <==> tag == l)
  {
    forall tag | tag in Labels(f) ensures Targets(mode, t, f, f, tag, l) <==> tag == l {
      SelfTarget(mode, t, f, tag);
    }
  }

  /** One voxel of a frame propagated over itself keeps its label. */
  lemma NextSelfValue(mode: Mode, t: nat, f: Frame, g: Frame, v: Voxel)
    requires Next(mode, t, f, f) == Ok(g) && v in f
    ensures g.Keys == f.Keys && g[v] == f[v]
  {
    NextFacts(mode, t, f, f, g);
    SelfTargets(mode, t, f, f[v]);
    if f[v] != 0 {
      assert f[v] in Labels(f);
    }
  }

  lemma NextKeys(mode: Mode, t: nat, prev: Frame, seg: Frame, g: Frame)
    requires Next(mode, t, prev, seg) == Ok(g)
    ensures g.Keys == seg.Keys
  {
    NextFacts(mode, t, prev, seg, g);
  }

  /** A frame followed by itself is propagated unchanged. */
  lemma NextSelf(mode: Mode, t: nat, f: Frame)
    ensures Next(mode, t, f, f) == Ok(f)
  {
    SortedFacts(Labels(f));
    PaintTagsSelfOk(mode, t, f, Sorted(Labels(f)), Zeros(f));
    var g := Next(mode, t, f, f).value;
    NextKeys(mode, t, f, f, g);
    forall v | v in f ensures g[v] == f[v] {
      NextSelfValue(mode, t, f, g, v);
    }
    assert g == f;
  }

  lemma {:induction false} FramesStill(mode: Mode, segm: seq<Frame>, n: nat)
    requires 1 <= n <= |segm|
    requires forall t :: 0 <= t < |segm| ==> segm[t] == segm[0]
    ensures Frames(mode, segm, n) == Ok(segm[..n])
    decreases n
  {
    if n > 1 {
      var m := n - 1;
      var fs, f := segm[..m], segm[0];
      FramesStill(mode, segm, m);
      NextSelf(mode, m, f);
      assert fs[m - 1] == f && segm[m] == f;
      FramesStep(mode, segm, m, n, fs, f);
      assert fs + [f] == segm[..n];
    } else {
      assert segm[..1] == [segm[0]];
    }
  }

  /** When the segmentation does not change from frame to frame, the
      tracker keeps every nucleus of frame 0 under its own tag to the last
      frame: the output is the movie itself, in both modes. */
  lemma StillMovieKept(mode: Mode, segm: seq<Frame>)
    requires |segm| > 0
    requires forall t :: 0 <= t < |segm| ==> segm[t] == segm[0]
    ensures Overl(mode, segm) == Ok(segm)
  {
    FramesStill(mode, segm, |segm|);
    assert segm[..|segm|] == segm;
  }

  lemma {:induction false} TagsFromFirst(fs: seq<Frame>, n: nat)
    requires 1 <= n <= |fs|
    requires forall t :: 0 < t < n ==> Labels(fs[t]) <= Labels(fs[t - 1])
    ensures forall t :: 0 <= t < n ==> Labels(fs[t]) <= Labels(fs[0])
    decreases n
  {
    if n > 1 {
      var m := n - 1;
      TagsFromFirst(fs, m);
      assert Labels(fs[m]) <= Labels(fs[m - 1]);
    }
  }

  // ---------------------------------------------------------------------
  // An overlap of two voxels on two objects.

  /** One nucleus, tag 1, over voxels a and b; in the next frame a lies in
      object 2 and b in object 4. The median of {2, 4} is 3. */
  lemma EvenOverlapMedian(a: Voxel, b: Voxel, seg: Frame)
    requires a != b && a in seg && b in seg && seg[a] == 2 && seg[b] == 4
    ensures Overlap(map[a := 1, b := 1], seg, 1) == map[a := 2, b := 4]
    ensures Median(map[a := 2, b := 4]) == Some(3.0)
    ensures Sorted(Labels(map[a := 1, b := 1])) == [1]
  {
    OverlapOfTwo(a, b, seg);
    MiddleLabels(a, b);
    SortedSingle(1);
  }

  lemma OverlapOfTwo(a: Voxel, b: Voxel, seg: Frame)
    requires a != b && a in seg && b in seg && seg[a] == 2 && seg[b] == 4
    ensures Overlap(map[a := 1, b := 1], seg, 1) == map[a := 2, b := 4]
    ensures Labels(map[a := 1, b := 1]) == {1}
  {
    assert Object(map[a := 1, b := 1], 1) == {a, b};
  }

  lemma MiddleLabels(a: Voxel, b: Voxel)
    requires a != b
    ensures Kth(map[a := 2, b := 4], 0) == 2 && Kth(map[a := 2, b := 4], 1) == 4
  {
    var o := map[a := 2, b := 4];
    assert (set v | v in o && o[v] < 2) == {};
    assert (set v | v in o && o[v] <= 2) == {a};
    KthMeaning(o, 0, 2);
    assert (set v | v in o && o[v] < 4) == {a};
    assert (set v | v in o && o[v] <= 4) == {a, b};
    KthMeaning(o, 1, 4);
  }

  lemma SortedSingle(l: nat)
    ensures Sorted({l}) == [l]
  {
    assert Least({l}) == l;
    assert {l} - {l} == {};
  }

  /** When no object 3 exists, the code as written fails at the lookup of
      label 3. */
  lemma EvenMedianCrash(a: Voxel, b: Voxel)
    requires a != b
    ensures Overl(AsWritten, [map[a := 1, b := 1], map[a := 2, b := 4]]) == Err(MissingLabel(1, 1, 3))
  {
    var prev, seg := map[a := 1, b := 1], map[a := 2, b := 4];
    EvenOverlapMedian(a, b, seg);
    assert Labels(seg) == {2, 4};
    assert Target(AsWritten, 1, prev, seg, 1) == Err(MissingLabel(1, 1, 3));
    assert Frames(AsWritten, [prev, seg], 1) == Ok([prev]);
  }

  /** When an object 3 exists elsewhere, the code as written gives tag 1 to
      that object, which the nucleus does not touch. */
  lemma EvenMedianStranger(a: Voxel, b: Voxel, c: Voxel)
    requires a != b && b != c && a != c
    ensures Overl(AsWritten, [map[a := 1, b := 1], map[a := 2, b := 4, c := 3]])
            == Ok([map[a := 1, b := 1], map[a := 0, b := 0, c := 1]])
  {
    var prev, seg := map[a := 1, b := 1], map[a := 2, b := 4, c := 3];
    EvenOverlapMedian(a, b, seg);
    assert seg[c] == 3;
    assert Target(AsWritten, 1, prev, seg, 1) == Ok(Some(3));
    assert Object(seg, 3) == {c};
    var painted := Paint(Zeros(seg), {c}, 1);
    assert painted == map[a := 0, b := 0, c := 1];
    assert PaintTags(AsWritten, 1, prev, seg, [1], Zeros(seg)) == PaintTags(AsWritten, 1, prev, seg, [], painted);
    assert Next(AsWritten, 1, prev, seg) == Ok(painted);
    assert Frames(AsWritten, [prev, seg], 1) == Ok([prev]);
    assert Frames(AsWritten, [prev, seg], 2) == Ok([prev] + [painted]);
    assert [prev] + [painted] == [prev, painted];
  }

  /** The corrected tracker propagates nothing there. */
  lemma EvenMedianSkipped(a: Voxel, b: Voxel, c: Voxel)
    requires a != b && b != c && a != c
    ensures Overl(Corrected, [map[a := 1, b := 1], map[a := 2, b := 4, c := 3]])
            == Ok([map[a := 1, b := 1], map[a := 0, b := 0, c := 0]])
  {
    var prev, seg := map[a := 1, b := 1], map[a := 2, b := 4, c := 3];
    EvenOverlapMedian(a, b, seg);
    assert Target(Corrected, 1, prev, seg, 1) == Ok(None);
    assert Zeros(seg) == map[a := 0, b := 0, c := 0];
    assert PaintTags(Corrected, 1, prev, seg, [1], Zeros(seg)) == PaintTags(Corrected, 1, prev, seg, [], Zeros(seg));
    assert Next(Corrected, 1, prev, seg) == Ok(Zeros(seg));
    assert Frames(Corrected, [prev, seg], 1) == Ok([prev]);
    assert Frames(Corrected, [prev, seg], 2) == Ok([prev] + [Zeros(seg)]);
    assert [prev] + [Zeros(seg)] == [prev, Zeros(seg)];
  }

  // ---------------------------------------------------------------------
  // The loops of the source.

  /** Lines 121-124 for one tag: the median of the overlap, its integer
      test and the label lookup. */
  method TargetOf(mode: Mode, t: nat, prev: Frame, seg: Frame, tag: nat) returns (r: Result<Option<nat>, OverlError>)
    ensures r == Target(mode, t, prev, seg, tag)
  {
    var o := Overlap(prev, seg, tag);
    var m := Median(o);
    if !IsWhole(m) {
      return Ok(None);
    }
    var l := m.value.Floor as nat;
    if mode == AsWritten {
      if l !in Labels(seg) {
        return Err(MissingLabel(t, tag, l));
      }
      return Ok(Some(l));
    }
    if l in o.Values {
      return Ok(Some(l));
    }
    return Ok(None);
  }

  /** The `for nuc_tag` loop of frame tt: the output frame, painted tag by
      tag from zero. */
  method PropagateTags(mode: Mode, tt: nat, prev: Frame, seg: Frame) returns (r: Result<Frame, OverlError>)
    ensures r == Next(mode, tt, prev, seg)
  {
    var frame := Zeros(seg);
    var tags := Sorted(Labels(prev));
    var i := 0;
    while i < |tags|
      invariant i <= |tags|
      invariant Next(mode, tt, prev, seg) == PaintTags(mode, tt, prev, seg, tags[i..], frame)
    {
      var tag := tags[i];
      assert tags[i..][0] == tag && tags[i..][1..] == tags[i + 1..];
      var target := TargetOf(mode, tt, prev, seg, tag);
      match target {
        case Err(e) =>
          return Err(e);
        case Ok(None) =>
        case Ok(Some(l)) =>
          frame := Paint(frame, Object(seg, l), tag);
      }
      i := i + 1;
    }
    return Ok(frame);
  }

  /** `NucleiOverlTracker`: frame 0 copied, then every later frame
      propagated from the one before. */
  method OverlTrack(mode: Mode, segm: seq<Frame>) returns (r: Result<seq<Frame>, OverlError>)
    ensures r == Overl(mode, segm)
  {
    if |segm| == 0 {
      return Err(NoFrames);
    }
    var tlen := |segm|;
    var trck := new Frame[tlen](i => if 0 <= i < tlen then Zeros(segm[i]) else map[]);
    trck[0] := segm[0];
    assert trck[..1] == [segm[0]];
    var tt := 1;
    while tt < tlen
      invariant 1 <= tt <= tlen
      invariant Frames(mode, segm, tt) == Ok(trck[..tt])
    {
      ghost var done, before := trck[..tt], tt;
      var next := PropagateTags(mode, tt, trck[tt - 1], segm[tt]);
      if next.Err? {
        FramesFail(mode, segm, tt, done, next.error);
        return Err(next.error);
      }
      trck[tt] := next.value;
      tt := tt + 1;
      assert trck[..tt] == done + [next.value];
      FramesStep(mode, segm, before, tt, done, next.value);
    }
    assert trck[..] == trck[..tlen];
    return Ok(trck[..]);
  }

  lemma FramesStep(mode: Mode, segm: seq<Frame>, n: nat, n': nat, fs: seq<Frame>, f: Frame)
    requires 1 <= n < |segm| && n' == n + 1 && Frames(mode, segm, n) == Ok(fs)
    requires Next(mode, n, fs[n - 1], segm[n]) == Ok(f)
    ensures Frames(mode, segm, n') == Ok(fs + [f])
  {
    var prev := fs[n - 1];
    assert fs[n' - 2] == prev && segm[n' - 1] == segm[n];
  }

  lemma FramesFail(mode: Mode, segm: seq<Frame>, n: nat, fs: seq<Frame>, e: OverlError)
    requires 1 <= n < |segm| && Frames(mode, segm, n) == Ok(fs)
    requires Next(mode, n, fs[n - 1], segm[n]) == Err(e)
    ensures Overl(mode, segm) == Err(e)
  {
    FramesStepErr(mode, segm, n, fs, e);
    var m, len := n + 1, |segm|;
    FramesErrStays(mode, segm, m, len, e);
  }

  lemma FramesStepErr(mode: Mode, segm: seq<Frame>, n: nat, fs: seq<Frame>, e: OverlError)
    requires 1 <= n < |segm| && Frames(mode, segm, n) == Ok(fs)
    requires Next(mode, n, fs[n - 1], segm[n]) == Err(e)
    ensures Frames(mode, segm, n + 1) == Err(e)
  {
  }

  /** Once a frame fails, the run fails with the same error. */
  lemma {:induction false} FramesErrStays(mode: Mode, segm: seq<Frame>, n: nat, m: nat, e: OverlError)
    requires 1 <= n <= m <= |segm| && Frames(mode, segm, n) == Err(e)
    ensures Frames(mode, segm, m) == Err(e)
    decreases m - n
  {
    if n < m {
      FramesErrStays(mode, segm, n, m - 1, e);
    }
  }
}
