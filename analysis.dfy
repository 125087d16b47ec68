/** The measurements of AnalysisSaver.py over a tracked movie: the per-tag
    intensity and volume tables of `AnalysisSaver`, the single-nucleus
    traces of `ShowTraces`, and the split of `SaveTracesSpatial` into the
    nuclei above and below a horizontal line. A channel frame gives the
    intensity of every voxel; an object's intensity is the sum over its
    voxels and its volume (`area`) the number of its voxels. */
module Analysis {
  import opened Volumes

  /** One cell of the tables: summed intensity and voxel count. */
  datatype Measure = Measure(intensity: int, volume: nat)

  /** Intensities of one channel at one time frame. */
  type Channel = Voxel -> int

  datatype TraceError = MissingTag(t: nat)   // `np.where(...)[0][0]` finds no such label in frame t

  function Add(a: Measure, b: Measure): Measure {
    Measure(a.intensity + b.intensity, a.volume + b.volume)
  }

  /** Intensity and volume of a set of voxels. */
  ghost function MeasureSet(s: set<Voxel>, img: Channel): Measure {
    Measure(SetSum(s, img), |s|)
  }

  /** Intensity and volume of the object labelled l. */
  ghost function MeasureOf(f: Frame, img: Channel, l: nat): Measure {
    MeasureSet(Object(f, l), img)
  }

  /** The labelled voxels of a frame. */
  function Nonzero(f: Frame): set<Voxel> {
    set v | v in f && f[v] != 0
  }

  lemma MeasureUnion(a: set<Voxel>, b: set<Voxel>, img: Channel)
    requires a !! b
    ensures MeasureSet(a + b, img) == Add(MeasureSet(a, img), MeasureSet(b, img))
  {
    calc {
      MeasureSet(a + b, img);
      { SetSumUnion(a, b, img); DisjointCard(a, b); }
      Measure(SetSum(a, img) + SetSum(b, img), |a| + |b|);
      Add(MeasureSet(a, img), MeasureSet(b, img));
    }
  }

  lemma {:induction false} DisjointCard(a: set<Voxel>, b: set<Voxel>)
    requires a !! b
    ensures |a + b| == |a| + |b|
    decreases |a|
  {
    if a != {} {
      var v :| v in a;
      assert (a + b) - {v} == (a - {v}) + b;
      DisjointCard(a - {v}, b);
    } else {
      assert a + b == b;
    }
  }

  /** `np.sum(image_intensity)` and `area` of one object. */
  method MeasureObject(f: Frame, img: Channel, l: nat) returns (m: Measure)
    ensures m == MeasureOf(f, img, l)
  {
    var total := SumOver(Object(f, l), img);
    m := Measure(total, |Object(f, l)|);
  }

  // ---------------------------------------------------------------------
  // The tables of `AnalysisSaver`.

  /** `nucs_tags`: the distinct nonzero values of the whole tracked movie,
      ascending. */
  function AllTags(trck: seq<Frame>): seq<nat> {
    Sorted(set t, v | 0 <= t < |trck| && v in trck[t] && trck[t][v] != 0 :: trck[t][v])
  }

  /** The tags are ascending, and are exactly the labels found in some frame. */
  lemma AllTagsFacts(trck: seq<Frame>)
    ensures Increasing(AllTags(trck))
    ensures forall l :: l in AllTags(trck) <==> exists t :: 0 <= t < |trck| && l in Labels(trck[t])
  {
    var all := set t, v | 0 <= t < |trck| && v in trck[t] && trck[t][v] != 0 :: trck[t][v];
    SortedFacts(all);
    forall l ensures l in all <==> exists t :: 0 <= t < |trck| && l in Labels(trck[t]) {
      if l in all {
        var t, v :| 0 <= t < |trck| && v in trck[t] && trck[t][v] != 0 && trck[t][v] == l;
        assert l in Labels(trck[t]);
      }
      if exists t :: 0 <= t < |trck| && l in Labels(trck[t]) {
        var t :| 0 <= t < |trck| && l in Labels(trck[t]);
        var v :| v in trck[t] && trck[t][v] != 0 && trck[t][v] == l;
      }
    }
  }

  /** `np.where(tags == l)[0][0]`: the first position of l in tags. */
  function IndexOf(tags: seq<nat>, l: nat): (i: nat)
    requires l in tags
    ensures i < |tags| && tags[i] == l
    ensures forall j :: 0 <= j < i ==> tags[j] != l
  {
    if tags[0] == l then 0 else 1 + IndexOf(tags[1..], l)
  }

  /** A tag missing from a frame measures (0, 0), the zero the table starts with. */
  lemma AbsentTag(f: Frame, img: Channel, l: nat)
    requires l != 0 && l !in Labels(f)
    ensures MeasureOf(f, img, l) == Measure(0, 0)
  {
    LabelsMeaning(f, l);
  }

  /** Cell (i, tt) of a table once the labels in seen have been written:
      the measurement of tag i if it is among them, zero otherwise. */
  ghost function Cell(tags: seq<nat>, f: Frame, img: Channel, seen: set<nat>, i: nat): Measure
    requires i < |tags|
  {
    if tags[i] in seen then MeasureOf(f, img, tags[i]) else Measure(0, 0)
  }

  /** Writing the label of row ll adds it to seen and changes no other row. */
  lemma CellStep(tags: seq<nat>, f: Frame, img: Channel, seen: set<nat>, ll: nat)
    requires Increasing(tags) && ll < |tags|
    ensures Cell(tags, f, img, seen + {tags[ll]}, ll) == MeasureOf(f, img, tags[ll])
    ensures forall i :: 0 <= i < |tags| && i != ll ==> Cell(tags, f, img, seen + {tags[ll]}, i) == Cell(tags, f, img, seen, i)
  {
    forall i | 0 <= i < |tags| && i != ll
      ensures Cell(tags, f, img, seen + {tags[ll]}, i) == Cell(tags, f, img, seen, i)
    {
      assert tags[i] != tags[ll];
    }
  }

  /** With every label of the frame seen, the column holds each tag's measurement. */
  lemma ColumnDone(tags: seq<nat>, f: Frame, img: Channel, labels: seq<nat>)
    requires labels == Sorted(Labels(f))
    requires forall i :: 0 <= i < |tags| ==> tags[i] != 0
    ensures forall i :: 0 <= i < |tags| ==> Cell(tags, f, img, Elems(labels), i) == MeasureOf(f, img, tags[i])
  {
    SortedFacts(Labels(f));
    assert Elems(labels) == Labels(f);
    forall i | 0 <= i < |tags| && tags[i] !in Labels(f) {
      AbsentTag(f, img, tags[i]);
    }
  }

  /** `regionprops_table(f, img, ["label", "area", "image_intensity"])`:
      the labels of frame f in ascending order, each with its intensity and
      volume. */
  method RegionProps(f: Frame, img: Channel) returns (labels: seq<nat>, props: seq<Measure>)
    ensures labels == Sorted(Labels(f)) && |props| == |labels|
    ensures forall c :: 0 <= c < |labels| ==> props[c] == MeasureOf(f, img, labels[c])
  {
    labels := Sorted(Labels(f));
    props := [];
    for c := 0 to |labels|
      invariant |props| == c && forall j :: 0 <= j < c ==> props[j] == MeasureOf(f, img, labels[j])
    {
      var m := MeasureObject(f, img, labels[c]);
      props := props + [m];
    }
  }

  /** One `for cntr, rr` loop: each object of frame f is measured and written
      to the row of its tag in column tt; every other cell is unchanged. */
  method FillColumn(tab: array2<Measure>, tags: seq<nat>, f: Frame, img: Channel, tt: nat)
    requires tab.Length0 == |tags| && tt < tab.Length1
    requires Increasing(tags) && forall l :: l in Labels(f) ==> l in tags
    requires forall i :: 0 <= i < |tags| ==> tags[i] != 0 && tab[i, tt] == Measure(0, 0)
    modifies tab
    ensures forall i :: 0 <= i < tab.Length0 ==> tab[i, tt] == MeasureOf(f, img, tags[i])
    ensures forall i, t :: 0 <= i < tab.Length0 && 0 <= t < tab.Length1 && t != tt ==> tab[i, t] == old(tab[i, t])
  {
    var labels, props := RegionProps(f, img);
    ghost var seen: set<nat> := {};
    for c := 0 to |labels|
      invariant seen == Elems(labels[..c])
      invariant forall i, t :: 0 <= i < tab.Length0 && 0 <= t < tab.Length1 && t != tt ==> tab[i, t] == old(tab[i, t])
      invariant forall i :: 0 <= i < tab.Length0 ==> tab[i, tt] == Cell(tags, f, img, seen, i)
    {
      NextLabel(f, labels, c);
      var ll := IndexOf(tags, labels[c]);
      CellStep(tags, f, img, seen, ll);
      tab[ll, tt] := props[c];
      seen := seen + {labels[c]};
    }
    assert labels[..|labels|] == labels;
    ColumnDone(tags, f, img, labels);
  }

  /** `red_ints_vol` and `green_ints_vol`: cell (i, t) holds the intensity
      and volume of tag i at frame t in each channel, (0, 0) where the tag
      is absent. */
  method Accumulate(trck: seq<Frame>, red: seq<Channel>, green: seq<Channel>)
    returns (tags: seq<nat>, redTab: array2<Measure>, greenTab: array2<Measure>)
    requires |red| == |trck| && |green| == |trck|
    ensures tags == AllTags(trck)
    ensures fresh(redTab) && fresh(greenTab)
    ensures redTab.Length0 == |tags| && redTab.Length1 == |trck|
    ensures greenTab.Length0 == |tags| && greenTab.Length1 == |trck|
    ensures forall i, t :: 0 <= i < |tags| && 0 <= t < |trck| ==>
              redTab[i, t] == MeasureOf(trck[t], red[t], tags[i]) && greenTab[i, t] == MeasureOf(trck[t], green[t], tags[i])
    ensures forall i, t :: 0 <= i < |tags| && 0 <= t < |trck| ==> redTab[i, t].volume == greenTab[i, t].volume
  {
    tags := AllTags(trck);
    var tlen := |trck|;
    greenTab := new Measure[|tags|, tlen]((i, t) => Measure(0, 0));
    redTab := new Measure[|tags|, tlen]((i, t) => Measure(0, 0));
    NonzeroTags(trck);
    for tt := 0 to tlen
      invariant forall i, t :: 0 <= i < |tags| && 0 <= t < tlen ==>
                  redTab[i, t] == if t < tt then MeasureOf(trck[t], red[t], tags[i]) else Measure(0, 0)
      invariant forall i, t :: 0 <= i < |tags| && 0 <= t < tlen ==>
                  greenTab[i, t] == if t < tt then MeasureOf(trck[t], green[t], tags[i]) else Measure(0, 0)
    {
      TagsCover(trck, tt);
      FillColumn(redTab, tags, trck[tt], red[tt], tt);
      FillColumn(greenTab, tags, trck[tt], green[tt], tt);
    }
  }

  /** Every label of a frame is one of the tags. */
  lemma TagsCover(trck: seq<Frame>, t: nat)
    requires t < |trck|
    ensures forall l :: l in Labels(trck[t]) ==> l in AllTags(trck)
  {
    AllTagsFacts(trck);
  }

  /** The intensity and volume summed over the tags ls. */
  ghost function OverTags(f: Frame, img: Channel, ls: seq<nat>): Measure
    decreases |ls|
  {
    if ls == [] then Measure(0, 0) else Add(MeasureOf(f, img, ls[0]), OverTags(f, img, ls[1..]))
  }

  /** The voxels of frame f whose label is in ls. */
  function Part(f: Frame, ls: set<nat>): set<Voxel> {
    set v | v in f && f[v] in ls
  }

  /** The labels listed in s. */
  function Elems(s: seq<nat>): set<nat> {
    set x | x in s
  }

  /** Summing the objects of distinct nonzero tags sums their voxels. */
  lemma {:induction false} OverTagsObjects(f: Frame, img: Channel, ls: seq<nat>)
    requires Increasing(ls) && forall i :: 0 <= i < |ls| ==> ls[i] != 0
    ensures OverTags(f, img, ls) == MeasureSet(Part(f, Elems(ls)), img)
    decreases |ls|
  {
    if ls == [] {
      assert Part(f, Elems(ls)) == {};
    } else {
      var rest := ls[1..];
      OverTagsObjects(f, img, rest);
      assert ls[0] !in rest by {
        forall j | 0 <= j < |rest| ensures rest[j] != ls[0] {
          assert rest[j] == ls[j + 1];
        }
      }
      assert forall x :: x in ls <==> x == ls[0] || x in rest;
      assert Part(f, Elems(ls)) == Object(f, ls[0]) + Part(f, Elems(rest));
      MeasureUnion(Object(f, ls[0]), Part(f, Elems(rest)), img);
    }
  }

  /** The column of a frame adds up to the frame: over all tags, the volumes
      sum to the number of labelled voxels and the intensities to their
      total intensity. */
  lemma ColumnTotal(trck: seq<Frame>, img: Channel, t: nat)
    requires t < |trck|
    ensures OverTags(trck[t], img, AllTags(trck)) == MeasureSet(Nonzero(trck[t]), img)
  {
    var tags := AllTags(trck);
    NonzeroTags(trck);
    OverTagsObjects(trck[t], img, tags);
    AllLabelled(trck, t);
  }

  /** No tag is the background. */
  lemma NonzeroTags(trck: seq<Frame>)
    ensures Increasing(AllTags(trck))
    ensures forall i :: 0 <= i < |AllTags(trck)| ==> AllTags(trck)[i] != 0
  {
    AllTagsFacts(trck);
    var tags := AllTags(trck);
    forall i | 0 <= i < |tags| ensures tags[i] != 0 {
      assert tags[i] in tags;
      var u :| 0 <= u < |trck| && tags[i] in Labels(trck[u]);
    }
  }

  /** Every labelled voxel of a frame carries one of the tags. */
  lemma AllLabelled(trck: seq<Frame>, t: nat)
    requires t < |trck|
    ensures Part(trck[t], Elems(AllTags(trck))) == Nonzero(trck[t])
  {
    AllTagsFacts(trck);
    forall v | v in Nonzero(trck[t]) ensures v in Part(trck[t], Elems(AllTags(trck))) {
      assert trck[t][v] in Labels(trck[t]);
    }
  }


  // ---------------------------------------------------------------------
  // `ShowTraces`: the trace of one tracked nucleus.

  /** `intensity / area`; the traces divide only where the nucleus is
      present, so there the volume is positive (`VolumePositive`). */
  function Average(m: Measure): real {
    if m.volume == 0 then 0.0 else m.intensity as real / m.volume as real
  }

  /** The first frame in which the tag labels nothing (|trck| when it is in
      every frame). */
  function FirstMissing(trck: seq<Frame>, tag: nat): (t: nat)
    ensures t <= |trck|
    ensures forall u :: 0 <= u < t ==> tag in Labels(trck[u])
    ensures t < |trck| ==> tag !in Labels(trck[t])
    decreases |trck|
  {
    if trck == [] || tag !in Labels(trck[0]) then 0 else 1 + FirstMissing(trck[1..], tag)
  }

  /** The average intensity of the tagged nucleus in each frame of one channel. */
  ghost function Averages(trck: seq<Frame>, chan: seq<Channel>, tag: nat): seq<real>
    requires |chan| == |trck|
  {
    seq(|trck|, t requires 0 <= t < |trck| => Average(MeasureOf(trck[t], chan[t], tag)))
  }

  /** What `ShowTraces` leaves in `red_avints` and `green_avints`, or the
      frame at which its label lookup raises. */
  ghost function Traces(trck: seq<Frame>, tag: nat, red: seq<Channel>, green: seq<Channel>)
    : Result<(seq<real>, seq<real>), TraceError>
    requires |red| == |trck| && |green| == |trck|
  {
    var t := FirstMissing(trck, tag);
    if t < |trck| then Err(MissingTag(t)) else Ok((Averages(trck, red, tag), Averages(trck, green, tag)))
  }

  lemma AverageTimesVolume(m: Measure)
    requires m.volume > 0
    ensures Average(m) * m.volume as real == m.intensity as real
  {
  }

  /** A present tag has a positive volume. */
  lemma VolumePositive(f: Frame, img: Channel, l: nat)
    requires l in Labels(f)
    ensures MeasureOf(f, img, l).volume > 0
  {
    LabelsMeaning(f, l);
  }

  /** The trace exists exactly when the nucleus is in every frame;
      otherwise the error names the first frame without it. */
  lemma TracesOk(trck: seq<Frame>, tag: nat, red: seq<Channel>, green: seq<Channel>)
    requires |red| == |trck| && |green| == |trck|
    ensures Traces(trck, tag, red, green).Ok? <==> forall t :: 0 <= t < |trck| ==> tag in Labels(trck[t])
    ensures Traces(trck, tag, red, green).Err? ==>
              var t := Traces(trck, tag, red, green).error.t;
              t < |trck| && tag !in Labels(trck[t]) && forall u :: 0 <= u < t ==> tag in Labels(trck[u])
  {
  }

  /** The background, 0, is never a nucleus: asking for its trace in a
      non-empty movie fails at frame 0. */
  lemma BackgroundHasNoTrace(trck: seq<Frame>, red: seq<Channel>, green: seq<Channel>)
    requires |red| == |trck| && |green| == |trck| && |trck| > 0
    ensures Traces(trck, 0, red, green) == Err(MissingTag(0))
  {
    assert 0 !in Labels(trck[0]);
  }

  /** a is the average intensity of a nucleus measured as m. */
  ghost predicate AverageOf(a: real, m: Measure) {
    m.volume > 0 && a * m.volume as real == m.intensity as real
  }

  /** A trace holds one average per frame and channel; times the nucleus
      volume, each gives the summed intensity, and both channels see the
      same volume. The nucleus is then one of the tags of the tables. */
  lemma TracesValues(trck: seq<Frame>, tag: nat, red: seq<Channel>, green: seq<Channel>)
    requires |red| == |trck| && |green| == |trck|
    requires Traces(trck, tag, red, green).Ok?
    ensures |trck| > 0 ==> tag in AllTags(trck)
    ensures |Traces(trck, tag, red, green).value.0| == |trck| && |Traces(trck, tag, red, green).value.1| == |trck|
    ensures forall t :: 0 <= t < |trck| ==>
              AverageOf(Traces(trck, tag, red, green).value.0[t], MeasureOf(trck[t], red[t], tag)) &&
              AverageOf(Traces(trck, tag, red, green).value.1[t], MeasureOf(trck[t], green[t], tag)) &&
              MeasureOf(trck[t], red[t], tag).volume == MeasureOf(trck[t], green[t], tag).volume
  {
    var ra, ga := Averages(trck, red, tag), Averages(trck, green, tag);
    assert Traces(trck, tag, red, green).value == (ra, ga);
    forall t | 0 <= t < |trck|
      ensures AverageOf(ra[t], MeasureOf(trck[t], red[t], tag)) && AverageOf(ga[t], MeasureOf(trck[t], green[t], tag))
    {
      var rm, gm := MeasureOf(trck[t], red[t], tag), MeasureOf(trck[t], green[t], tag);
      VolumePositive(trck[t], red[t], tag);
      VolumePositive(trck[t], green[t], tag);
      AverageTimesVolume(rm);
      AverageTimesVolume(gm);
    }
    if |trck| > 0 {
      AllTagsFacts(trck);
      assert tag in Labels(trck[0]);
    }
  }

  /** `ShowTraces`: frame by frame, looks the nucleus up and stores its
      average red and green intensity; a frame without it ends the trace
      with the error the lookup raises. */
  method ShowTraces(trck: seq<Frame>, tag: nat, red: seq<Channel>, green: seq<Channel>)
    returns (r: Result<(seq<real>, seq<real>), TraceError>)
    requires |red| == |trck| && |green| == |trck|
    ensures r == Traces(trck, tag, red, green)
  {
    var redAv: seq<real>, greenAv: seq<real> := [], [];
    var tt := 0;
    while tt < |trck|
      invariant 0 <= tt <= |trck| && tt <= FirstMissing(trck, tag)
      invariant redAv == Averages(trck[..tt], red[..tt], tag)
      invariant greenAv == Averages(trck[..tt], green[..tt], tag)
    {
      if tag !in Labels(trck[tt]) {
        return Err(MissingTag(tt));
      }
      var rm := MeasureObject(trck[tt], red[tt], tag);
      var gm := MeasureObject(trck[tt], green[tt], tag);
      AveragesSnoc(trck, red, tag, tt);
      AveragesSnoc(trck, green, tag, tt);
      redAv, greenAv := redAv + [Average(rm)], greenAv + [Average(gm)];
      tt := tt + 1;
    }
    assert trck[..tt] == trck && red[..tt] == red && green[..tt] == green;
    r := Ok((redAv, greenAv));
  }

  /** Extending the prefix of the movie by one frame extends its averages. */
  lemma AveragesSnoc(trck: seq<Frame>, chan: seq<Channel>, tag: nat, n: nat)
    requires |chan| == |trck| && n < |trck|
    ensures Averages(trck[..n + 1], chan[..n + 1], tag)
            == Averages(trck[..n], chan[..n], tag) + [Average(MeasureOf(trck[n], chan[n], tag))]
  {
  }

  // ---------------------------------------------------------------------
  // `SaveTracesSpatial`: nuclei on either side of a horizontal line.

  /** `centroid-2` of an object, the mean of its coordinates along the
      last array axis, is given as the function cy; an object lies inside
      the pattern when its centroid is beyond the line `y = yc`. */
  type Centroid = (Frame, nat) -> real

  predicate Inward(f: Frame, l: nat, cy: Centroid, yc: int) {
    cy(f, l) > yc as real
  }


  /** The labels whose object lies inside the pattern, and those outside. */
  function InLabels(f: Frame, cy: Centroid, yc: int): set<nat> {
    set l | l in Labels(f) && Inward(f, l, cy, yc)
  }

  function OutLabels(f: Frame, cy: Centroid, yc: int): set<nat> {
    set l | l in Labels(f) && !Inward(f, l, cy, yc)
  }

  lemma PartAdd(f: Frame, ls: set<nat>, l: nat, img: Channel)
    requires l !in ls
    ensures MeasureSet(Part(f, ls + {l}), img) == Add(MeasureSet(Part(f, ls), img), MeasureOf(f, img, l))
  {
    assert Part(f, ls + {l}) == Part(f, ls) + Object(f, l);
    MeasureUnion(Part(f, ls), Object(f, l), img);
  }

  /** Appending an element adds it to the set of elements. */
  lemma ElemsSnoc(s: seq<nat>, x: nat)
    ensures Elems(s + [x]) == Elems(s) + {x}
  {
  }

  /** The profile of frame f inside the pattern and outside it: the summed
      intensity and volume of the nuclei on each side of the line. */
  ghost function InProfile(f: Frame, img: Channel, cy: Centroid, yc: int): Measure {
    MeasureSet(Part(f, InLabels(f, cy, yc)), img)
  }

  ghost function OutProfile(f: Frame, img: Channel, cy: Centroid, yc: int): Measure {
    MeasureSet(Part(f, OutLabels(f, cy, yc)), img)
  }

  /** pin and pout hold the profiles restricted to the labels seen so far. */
  ghost predicate SplitSoFar(f: Frame, img: Channel, cy: Centroid, yc: int, seen: set<nat>, pin: Measure, pout: Measure) {
    pin == MeasureSet(Part(f, InLabels(f, cy, yc) * seen), img) &&
    pout == MeasureSet(Part(f, OutLabels(f, cy, yc) * seen), img)
  }

  /** Adding one more object to the side its centroid is on. */
  lemma AddToSide(f: Frame, img: Channel, cy: Centroid, yc: int, seen: set<nat>, pin: Measure, pout: Measure, l: nat)
    requires SplitSoFar(f, img, cy, yc, seen, pin, pout) && l in Labels(f) && l !in seen
    ensures Inward(f, l, cy, yc) ==> SplitSoFar(f, img, cy, yc, seen + {l}, Add(pin, MeasureOf(f, img, l)), pout)
    ensures !Inward(f, l, cy, yc) ==> SplitSoFar(f, img, cy, yc, seen + {l}, pin, Add(pout, MeasureOf(f, img, l)))
  {
    var ins, outs := InLabels(f, cy, yc), OutLabels(f, cy, yc);
    if Inward(f, l, cy, yc) {
      assert ins * (seen + {l}) == ins * seen + {l};
      assert outs * (seen + {l}) == outs * seen;
      PartAdd(f, ins * seen, l, img);
    } else {
      assert ins * (seen + {l}) == ins * seen;
      assert outs * (seen + {l}) == outs * seen + {l};
      PartAdd(f, outs * seen, l, img);
    }
  }

  /** The next label of an ascending sequence is new. */
  lemma NextElem(labels: seq<nat>, c: nat)
    requires Increasing(labels) && c < |labels|
    ensures labels[c] !in Elems(labels[..c])
    ensures Elems(labels[..c + 1]) == Elems(labels[..c]) + {labels[c]}
  {
    var l, pre := labels[c], labels[..c];
    forall j | 0 <= j < c ensures pre[j] != l {}
    assert labels[..c + 1] == pre + [l];
    ElemsSnoc(pre, l);
  }

  /** The next label of a frame, in ascending order, is one of its labels
      and has not been seen before. */
  lemma NextLabel(f: Frame, labels: seq<nat>, c: nat)
    requires labels == Sorted(Labels(f)) && c < |labels|
    ensures labels[c] in Labels(f) && labels[c] !in Elems(labels[..c])
    ensures Elems(labels[..c + 1]) == Elems(labels[..c]) + {labels[c]}
  {
    SortedFacts(Labels(f));
    NextElem(labels, c);
  }

  /** One iteration of the frame's loop over its ascending labels. */
  lemma SplitStep(f: Frame, img: Channel, cy: Centroid, yc: int, labels: seq<nat>, c: nat, pin: Measure, pout: Measure)
    requires labels == Sorted(Labels(f)) && c < |labels|
    requires SplitSoFar(f, img, cy, yc, Elems(labels[..c]), pin, pout)
    ensures Inward(f, labels[c], cy, yc) ==>
              SplitSoFar(f, img, cy, yc, Elems(labels[..c + 1]), Add(pin, MeasureOf(f, img, labels[c])), pout)
    ensures !Inward(f, labels[c], cy, yc) ==>
              SplitSoFar(f, img, cy, yc, Elems(labels[..c + 1]), pin, Add(pout, MeasureOf(f, img, labels[c])))
  {
    SortedFacts(Labels(f));
    var l, seen := labels[c], Elems(labels[..c]);
    NextElem(labels, c);
    assert l in Labels(f);
    AddToSide(f, img, cy, yc, seen, pin, pout, l);
  }

  /** Once every label is seen, the sums are the frame's profiles. */
  lemma SplitDone(f: Frame, img: Channel, cy: Centroid, yc: int, labels: seq<nat>, pin: Measure, pout: Measure)
    requires labels == Sorted(Labels(f))
    requires SplitSoFar(f, img, cy, yc, Elems(labels), pin, pout)
    ensures pin == InProfile(f, img, cy, yc) && pout == OutProfile(f, img, cy, yc)
  {
    SortedFacts(Labels(f));
    assert Elems(labels) == Labels(f);
    assert InLabels(f, cy, yc) * Labels(f) == InLabels(f, cy, yc);
    assert OutLabels(f, cy, yc) * Labels(f) == OutLabels(f, cy, yc);
  }

  /** The profile of one frame: each object is measured and added to the
      inside or the outside sums according to its centroid. */
  method SplitFrame(f: Frame, img: Channel, cy: Centroid, yc: int) returns (pin: Measure, pout: Measure)
    ensures pin == InProfile(f, img, cy, yc) && pout == OutProfile(f, img, cy, yc)
  {
    var labels := Sorted(Labels(f));
    pin, pout := Measure(0, 0), Measure(0, 0);
    assert Elems(labels[..0]) == {};
    assert Part(f, InLabels(f, cy, yc) * {}) == {} && Part(f, OutLabels(f, cy, yc) * {}) == {};
    for c := 0 to |labels|
      invariant SplitSoFar(f, img, cy, yc, Elems(labels[..c]), pin, pout)
    {
      var uu := labels[c];
      var m := MeasureObject(f, img, uu);
      SplitStep(f, img, cy, yc, labels, c, pin, pout);
      if cy(f, uu) > yc as real {
        pin := Add(pin, m);
      } else {
        pout := Add(pout, m);
      }
    }
    assert labels[..|labels|] == labels;
    SplitDone(f, img, cy, yc, labels, pin, pout);
  }

  /** `prof_in` and `prof_out`: row t holds the green intensity and volume
      of the nuclei of frame t inside, and outside, the pattern. */
  method SaveTracesSpatial(trck: seq<Frame>, green: seq<Channel>, cy: Centroid, yc: int)
    returns (profIn: array<Measure>, profOut: array<Measure>)
    requires |green| == |trck|
    ensures fresh(profIn) && fresh(profOut)
    ensures profIn.Length == |trck| && profOut.Length == |trck|
    ensures forall t :: 0 <= t < |trck| ==>
              profIn[t] == InProfile(trck[t], green[t], cy, yc) && profOut[t] == OutProfile(trck[t], green[t], cy, yc)
  {
    var tlen := |trck|;
    profIn := new Measure[tlen];
    profOut := new Measure[tlen];
    for tt := 0 to tlen
      invariant forall t :: 0 <= t < tt ==> profIn[t] == InProfile(trck[t], green[t], cy, yc)
      invariant forall t :: 0 <= t < tt ==> profOut[t] == OutProfile(trck[t], green[t], cy, yc)
    {
      var pin, pout := SplitFrame(trck[tt], green[tt], cy, yc);
      profIn[tt] := pin;
      profOut[tt] := pout;
    }
  }

  /** Inside and outside partition the labelled voxels of a frame: every
      object is counted on exactly one side, so the two profiles add up to
      the frame's column of the green table. */
  lemma ProfilesPartition(trck: seq<Frame>, img: Channel, cy: Centroid, yc: int, t: nat)
    requires t < |trck|
    ensures Part(trck[t], InLabels(trck[t], cy, yc)) !! Part(trck[t], OutLabels(trck[t], cy, yc))
    ensures Part(trck[t], InLabels(trck[t], cy, yc)) + Part(trck[t], OutLabels(trck[t], cy, yc)) == Nonzero(trck[t])
    ensures Add(InProfile(trck[t], img, cy, yc), OutProfile(trck[t], img, cy, yc)) == OverTags(trck[t], img, AllTags(trck))
  {
    var f := trck[t];
    var pi, po := Part(f, InLabels(f, cy, yc)), Part(f, OutLabels(f, cy, yc));
    forall v | v in Nonzero(f) ensures v in pi + po {
      assert f[v] in Labels(f);
    }
    MeasureUnion(pi, po, img);
    ColumnTotal(trck, img, t);
  }
}
