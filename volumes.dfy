/** Label volumes shared by the segmenter, the trackers and the analysis.
    One 3D frame is a map from voxel coordinates to a label; 0 is background
    and every positive value names one object of that frame. */
module Volumes {

  datatype Option<T> = None | Some(value: T)

  datatype Result<T, E> = Ok(value: T) | Err(error: E)

  /** A voxel position, in the axis order of the source arrays: (z, x, y). */
  datatype Voxel = Voxel(z: int, x: int, y: int)

  /** Extent of one frame along z, x and y. */
  datatype Dims = Dims(nz: nat, nx: nat, ny: nat)

  type Frame = map<Voxel, nat>

  predicate InBox(v: Voxel, d: Dims) {
    0 <= v.z < d.nz && 0 <= v.x < d.nx && 0 <= v.y < d.ny
  }

  /** The frame covers exactly the box of dimensions d, like a dense array. */
  ghost predicate Shaped(f: Frame, d: Dims) {
    forall v :: v in f <==> InBox(v, d)
  }

  /** The voxels that carry label l (`frame == l` as a mask). */
  function Object(f: Frame, l: nat): set<Voxel> {
    set v | v in f && f[v] == l
  }

  /** The distinct nonzero labels of a frame (`np.unique(f[f != 0])` as a set). */
  function Labels(f: Frame): set<nat> {
    set v | v in f && f[v] != 0 :: f[v]
  }

  lemma LabelsMeaning(f: Frame, l: nat)
    ensures l in Labels(f) <==> l != 0 && Object(f, l) != {}
  {
    if l in Labels(f) {
      var v :| v in f && f[v] != 0 && f[v] == l;
      assert v in Object(f, l);
    }
    if l != 0 && Object(f, l) != {} {
      var v :| v in Object(f, l);
      assert f[v] in Labels(f);
    }
  }

  predicate Increasing(s: seq<nat>) {
    forall i, j :: 0 <= i < j < |s| ==> s[i] < s[j]
  }

  predicate IsLeast(m: nat, s: set<nat>) {
    m in s && forall y :: y in s ==> m <= y
  }

  lemma {:induction false} LeastExists(s: set<nat>)
    requires s != {}
    ensures exists m :: IsLeast(m, s)
    decreases |s|
  {
    var x :| x in s;
    var rest := s - {x};
    var best := x;
    if rest != {} {
      LeastExists(rest);
      var m :| IsLeast(m, rest);
      best := if x < m then x else m;
    }
    forall y | y in s ensures best <= y {
      assert y == x || y in rest;
    }
    assert IsLeast(best, s);
  }

  /** The smallest element of a finite set of labels. */
  function Least(s: set<nat>): (m: nat)
    requires s != {}
    ensures m in s && forall y :: y in s ==> m <= y
  {
    LeastExists(s);
    var m :| IsLeast(m, s); m
  }

  /** A set of labels listed in ascending order, as `np.unique` lists them. */
  function Sorted(s: set<nat>): seq<nat>
    decreases |s|
  {
    if s == {} then []
    else
      var m := Least(s);
      [m] + Sorted(s - {m})
  }

  /** The listing holds each label of the set once, in ascending order. */
  lemma {:induction false} SortedFacts(s: set<nat>)
    ensures |Sorted(s)| == |s| && Increasing(Sorted(s))
    ensures forall x :: x in Sorted(s) <==> x in s
    decreases |s|
  {
    if s != {} {
      var m := Least(s);
      SortedFacts(s - {m});
      var r := Sorted(s);
      assert r == [m] + Sorted(s - {m});
      forall i, j | 0 <= i < j < |r| ensures r[i] < r[j] {
        if i == 0 {
          assert r[j] in s - {m};
        } else {
          assert r[i] == Sorted(s - {m})[i - 1] && r[j] == Sorted(s - {m})[j - 1];
        }
      }
    }
  }

  /** `f[s] = l`: every voxel of s takes label l, the others keep theirs. */
  function Paint(f: Frame, s: set<Voxel>, l: nat): (r: Frame)
    ensures r.Keys == f.Keys
    ensures forall v :: v in f ==> r[v] == if v in s then l else f[v]
  {
    map v | v in f :: if v in s then l else f[v]
  }

  /** `np.zeros_like(f)`. */
  function Zeros(f: Frame): (r: Frame)
    ensures r.Keys == f.Keys && forall v :: v in r ==> r[v] == 0
  {
    map v | v in f :: 0
  }

  /** Sum of a weight over a finite set of voxels. */
  ghost function SetSum(s: set<Voxel>, w: Voxel -> int): int
    decreases |s|
  {
    if s == {} then 0 else var v :| v in s; w(v) + SetSum(s - {v}, w)
  }

  /** The sum does not depend on which voxel is taken out first. */
  lemma {:induction false} SetSumRemove(s: set<Voxel>, w: Voxel -> int, v: Voxel)
    requires v in s
    ensures SetSum(s, w) == w(v) + SetSum(s - {v}, w)
    decreases |s|
  {
    var u :| u in s && SetSum(s, w) == w(u) + SetSum(s - {u}, w);
    if u != v {
      SetSumRemove(s - {u}, w, v);
      SetSumRemove(s - {v}, w, u);
      assert s - {u} - {v} == s - {v} - {u};
    }
  }

  lemma {:induction false} SetSumUnion(a: set<Voxel>, b: set<Voxel>, w: Voxel -> int)
    requires a !! b
    ensures SetSum(a + b, w) == SetSum(a, w) + SetSum(b, w)
    decreases |a|
  {
    if a != {} {
      var v :| v in a;
      SetSumRemove(a + b, w, v);
      SetSumRemove(a, w, v);
      assert (a + b) - {v} == (a - {v}) + b;
      SetSumUnion(a - {v}, b, w);
    } else {
      assert a + b == b;
    }
  }

  /** Adds up the weights of the voxels of s, one voxel at a time. */
  method SumOver(s: set<Voxel>, w: Voxel -> int) returns (total: int)
    ensures total == SetSum(s, w)
  {
    total := 0;
    var rest := s;
    while rest != {}
      invariant rest <= s
      invariant total + SetSum(rest, w) == SetSum(s, w)
      decreases |rest|
    {
      var v :| v in rest;
      SetSumRemove(rest, w, v);
      total := total + w(v);
      rest := rest - {v};
    }
  }
}
