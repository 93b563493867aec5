/** Segment uniformization: every segment of the segment map gets one label, decided by
    the share of its pixels that are crop (label > 0). */
module Uniform {
  import opened Grids
  import opened Segments

  function Count(vals: seq<int>, v: int): nat {
    multiset(vals)[v]
  }

  /** The number of crop values (> 0). */
  function CountPositive(vals: seq<int>): (n: nat)
    ensures n <= |vals|
  {
    if |vals| == 0 then 0 else CountPositive(vals[..|vals| - 1]) + Ind(vals[|vals| - 1] > 0)
  }

  /** The most frequent of `cands` in `vals`, the smallest one among ties. */
  function ModeOf(vals: seq<int>, cands: seq<int>): (m: int)
    requires |cands| > 0
    ensures m in cands
    ensures forall k :: 0 <= k < |cands| ==>
      Count(vals, cands[k]) < Count(vals, m) || (Count(vals, cands[k]) == Count(vals, m) && m <= cands[k])
  {
    if |cands| == 1 then cands[0]
    else
      var rest := ModeOf(vals, cands[1..]);
      var c := cands[0];
      if Count(vals, c) > Count(vals, rest) || (Count(vals, c) == Count(vals, rest) && c < rest) then c else rest
  }

  /** scipy's `stats.mode`: a most frequent value, and the smallest of those. */
  function Mode(vals: seq<int>): (m: int)
    requires |vals| > 0
    ensures m in vals
    ensures forall v :: Count(vals, v) <= Count(vals, m)
    ensures forall v :: Count(vals, v) == Count(vals, m) ==> m <= v
  {
    var m := ModeOf(vals, vals);
    assert Count(vals, m) > 0;
    m
  }

  /** The label a segment with values `vals` receives: background without crop or
      without a crop majority (share > 0.5), else CROP_CLASS or the segment's mode. */
  function LabelOfValues(vals: seq<int>, dataType: DataType): int {
    var total := CountPositive(vals);
    if total == 0 then 0
    else if 2 * total > |vals| then (if dataType == Boundaries then CROP_CLASS else Mode(vals))
    else 0
  }

  function SegmentLabel(labels: Grid<int>, segs: Grid<int>, s: int, dataType: DataType): int
    requires SameShape(labels, segs)
  {
    LabelOfValues(SegmentValues(labels, segs, s), dataType)
  }

  /** make_crops_uniform: every pixel takes the label of its segment. */
  function Uniformized(labels: Grid<int>, segs: Grid<int>, dataType: DataType): (r: Grid<int>)
    requires SameShape(labels, segs)
    ensures SameShape(r, labels)
  {
    Map(segs, (s: int) => SegmentLabel(labels, segs, s, dataType))
  }

  /** In boundaries mode a pixel ends up crop exactly when its segment holds crop on more
      than half its pixels; otherwise it is background. */
  lemma BoundariesRule(labels: Grid<int>, segs: Grid<int>, i: int, j: int)
    requires SameShape(labels, segs) && InBounds(segs, i, j)
    ensures var vals := SegmentValues(labels, segs, segs[i][j]);
      && Uniformized(labels, segs, Boundaries)[i][j] in {BACKGROUND, CROP_CLASS}
      && (Uniformized(labels, segs, Boundaries)[i][j] == CROP_CLASS <==> 2 * CountPositive(vals) > |vals|)
  {
  }

  /** In multi-class mode a crop-majority segment takes its most frequent label, the
      smallest among ties, and any other segment becomes background. */
  lemma MultiClassRule(labels: Grid<int>, segs: Grid<int>, i: int, j: int)
    requires SameShape(labels, segs) && InBounds(segs, i, j)
    ensures var vals, r := SegmentValues(labels, segs, segs[i][j]), Uniformized(labels, segs, MultiClass)[i][j];
      if 2 * CountPositive(vals) > |vals| then
        r in vals && (forall v :: Count(vals, v) <= Count(vals, r)) && (forall v :: Count(vals, v) == Count(vals, r) ==> r <= v)
      else r == BACKGROUND
  {
  }

  /** The mode counts background pixels too: a segment that is three-fifths crop, split
      over three distinct crop codes, becomes background. */
  lemma ModeCountsBackground(x: int, y: int, z: int)
    requires 0 < x < y < z
    ensures LabelOfValues([0, 0, x, y, z], MultiClass) == BACKGROUND
  {
    ThreeFifthsCrop(x, y, z);
    BackgroundIsMode(x, y, z);
  }

  lemma ThreeFifthsCrop(x: int, y: int, z: int)
    requires 0 < x < y < z
    ensures CountPositive([0, 0, x, y, z]) == 3
  {
    var p1, p2, p3, p4, vals := [0], [0, 0], [0, 0, x], [0, 0, x, y], [0, 0, x, y, z];
    assert p2[..1] == p1 && p3[..2] == p2 && p4[..3] == p3 && vals[..4] == p4;
    assert CountPositive(p1) == 0;
    assert CountPositive(p2) == 0;
    assert CountPositive(p3) == 1;
    assert CountPositive(p4) == 2;
  }

  lemma BackgroundIsMode(x: int, y: int, z: int)
    requires 0 < x < y < z
    ensures Mode([0, 0, x, y, z]) == 0
  {
    var vals := [0, 0, x, y, z];
    var m := Mode(vals);
    assert multiset(vals) == multiset{0, 0, x, y, z};
    assert Count(vals, 0) == 2;
    assert m == 0 || m == x || m == y || m == z;
    assert Count(vals, x) == 1 && Count(vals, y) == 1 && Count(vals, z) == 1;
  }

  /** Two pixels of one segment carry one label. */
  lemma UniformPerSegment(labels: Grid<int>, segs: Grid<int>, dataType: DataType, i: int, j: int, a: int, b: int)
    requires SameShape(labels, segs) && InBounds(segs, i, j) && InBounds(segs, a, b) && segs[i][j] == segs[a][b]
    ensures Uniformized(labels, segs, dataType)[i][j] == Uniformized(labels, segs, dataType)[a][b]
  {
  }

  lemma {:induction false} AllPositive(vals: seq<int>)
    requires forall k :: 0 <= k < |vals| ==> vals[k] > 0
    ensures CountPositive(vals) == |vals|
  {
    if |vals| > 0 {
      AllPositive(vals[..|vals| - 1]);
    }
  }

  lemma {:induction false} NonePositive(vals: seq<int>)
    requires forall k :: 0 <= k < |vals| ==> vals[k] <= 0
    ensures CountPositive(vals) == 0
  {
    if |vals| > 0 {
      NonePositive(vals[..|vals| - 1]);
    }
  }

  /** A segment whose values all equal c keeps c, when c is a label the rule can give. */
  lemma LabelOfConstant(vals: seq<int>, c: int, dataType: DataType)
    requires |vals| > 0 && c >= 0 && (dataType == Boundaries ==> c in {BACKGROUND, CROP_CLASS})
    requires forall k :: 0 <= k < |vals| ==> vals[k] == c
    ensures LabelOfValues(vals, dataType) == c
  {
    if c > 0 {
      AllPositive(vals);
      if dataType == MultiClass {
        var m := Mode(vals);
        var k :| 0 <= k < |vals| && vals[k] == m;
      }
    } else {
      NonePositive(vals);
    }
  }

  /** Non-negative labels give non-negative segment labels. */
  lemma LabelOfNonNeg(vals: seq<int>, dataType: DataType)
    requires forall k :: 0 <= k < |vals| ==> vals[k] >= 0
    ensures LabelOfValues(vals, dataType) >= 0
    ensures dataType == Boundaries ==> LabelOfValues(vals, dataType) in {BACKGROUND, CROP_CLASS}
  {
    if dataType == MultiClass && CountPositive(vals) > 0 && 2 * CountPositive(vals) > |vals| {
      var k :| 0 <= k < |vals| && vals[k] == Mode(vals);
    }
  }

  lemma UniformizedIdempotentAt(labels: Grid<int>, segs: Grid<int>, dataType: DataType, i: int, j: int)
    requires SameShape(labels, segs) && InBounds(segs, i, j)
    requires forall i, j :: InBounds(labels, i, j) ==> labels[i][j] >= 0
    ensures Uniformized(Uniformized(labels, segs, dataType), segs, dataType)[i][j] == Uniformized(labels, segs, dataType)[i][j]
  {
    var u := Uniformized(labels, segs, dataType);
    var s := segs[i][j];
    var c := u[i][j];
    SegmentValuesNonNeg(labels, segs, s);
    LabelOfNonNeg(SegmentValues(labels, segs, s), dataType);
    SegmentValuesSpec(u, segs, s, c);
    assert Occurs(segs, s);
    LabelOfConstant(SegmentValues(u, segs, s), c, dataType);
  }

  /** Uniformizing non-negative labels a second time changes nothing. */
  lemma UniformizedIdempotent(labels: Grid<int>, segs: Grid<int>, dataType: DataType)
    requires SameShape(labels, segs)
    requires forall i, j :: InBounds(labels, i, j) ==> labels[i][j] >= 0
    ensures Uniformized(Uniformized(labels, segs, dataType), segs, dataType) == Uniformized(labels, segs, dataType)
  {
    var u := Uniformized(labels, segs, dataType);
    forall i, j | InBounds(segs, i, j)
      ensures Uniformized(u, segs, dataType)[i][j] == u[i][j]
    {
      UniformizedIdempotentAt(labels, segs, dataType, i, j);
    }
    SamePixels(Uniformized(u, segs, dataType), u);
  }

  /** One iteration of the loop: the pixels of segment `lab` take the label of its
      current values. */
  method UniformizeSegment(a: array2<int>, segs: Grid<int>, lab: int, dataType: DataType)
    requires Rect(segs) && a.Length0 == |segs| && a.Length1 == Width(segs)
    modifies a
    ensures forall i, j :: 0 <= i < a.Length0 && 0 <= j < a.Length1 ==>
      a[i, j] == if segs[i][j] == lab then SegmentLabel(old(Cells(a)), segs, lab, dataType) else old(a[i, j])
  {
    var vals := CollectSegment(a, segs, lab);
    Fill(a, segs, lab, LabelOfValues(vals, dataType));
  }

  /** The loop step for the smallest id `lab` not yet visited: afterwards every visited
      segment, `lab` included, carries the label it has in the original labels `g`. */
  method VisitSegment(a: array2<int>, segs: Grid<int>, dataType: DataType, ghost g: Grid<int>, last: Option<int>, lab: int)
    requires Rect(segs) && a.Length0 == |segs| && a.Length1 == Width(segs) && SameShape(g, segs)
    requires Above(lab, last)
    requires forall i, j :: InBounds(segs, i, j) && Above(segs[i][j], last) ==> lab <= segs[i][j]
    requires forall i, j :: 0 <= i < a.Length0 && 0 <= j < a.Length1 ==>
      a[i, j] == if !Above(segs[i][j], last) then SegmentLabel(g, segs, segs[i][j], dataType) else g[i][j]
    modifies a
    ensures forall i, j :: 0 <= i < a.Length0 && 0 <= j < a.Length1 ==>
      a[i, j] == if !Above(segs[i][j], Some(lab)) then SegmentLabel(g, segs, segs[i][j], dataType) else g[i][j]
  {
    SegmentValuesDepend(Cells(a), g, segs, lab);
    UniformizeSegment(a, segs, lab, dataType);
  }

  /** make_crops_uniform on the label array, in place: the segment ids in ascending
      order, each segment's pixels set to its label. */
  method MakeCropsUniform(a: array2<int>, segs: Grid<int>, dataType: DataType)
    requires Rect(segs) && a.Length0 == |segs| && a.Length1 == Width(segs)
    modifies a
    ensures SameShape(old(Cells(a)), segs)
    ensures Cells(a) == Uniformized(old(Cells(a)), segs, dataType)
  {
    ghost var g := Cells(a);
    var last: Option<int> := None;
    var next, wi, wj := NextId(segs, last);
    while next.Some?
      invariant next.Some? ==> InBounds(segs, wi, wj) && segs[wi][wj] == next.value && Above(next.value, last)
      invariant forall i, j :: InBounds(segs, i, j) && Above(segs[i][j], last) ==> next.Some? && next.value <= segs[i][j]
      invariant forall i, j :: 0 <= i < a.Length0 && 0 <= j < a.Length1 ==>
        a[i, j] == if !Above(segs[i][j], last) then SegmentLabel(g, segs, segs[i][j], dataType) else g[i][j]
      decreases IdsAbove(segs, last)
    {
      var lab := next.value;
      VisitSegment(a, segs, dataType, g, last, lab);
      IdsShrink(segs, last, wi, wj);
      last := Some(lab);
      next, wi, wj := NextId(segs, last);
    }
    SamePixels(Cells(a), Uniformized(g, segs, dataType));
  }
}
