/** Land-cover recoding of the crop labels. With a crop-code land cover (CDL), every
    background pixel whose land-cover code is one of the crop codes gets that code's
    class: 1 in boundaries mode, otherwise a crop id counted 1, 2, ... over the codes that
    occur. Without it, the labels are the land-cover pixels equal to 1. The table of
    crop codes is an input: its keys, in the table's order. */
module Recode {
  import opened Grids

  /** Keys of a dictionary: no code twice. */
  predicate Distinct(codes: seq<int>) {
    forall a, b :: 0 <= a < b < |codes| ==> codes[a] != codes[b]
  }

  /** Bottom/right edge padding of the land cover to the label shape (h, w); numpy
      refuses an empty array or a negative pad width. */
  function AlignLandCover(lc: Grid<int>, h: nat, w: nat): (r: Option<Grid<int>>)
    requires Rect(lc)
    ensures r.Some? ==> |r.value| == h && Rect(r.value) && (h > 0 ==> Width(r.value) == w)
  {
    if |lc| == h && Width(lc) == w then Some(lc)
    else if |lc| == 0 || Width(lc) == 0 || |lc| > h || Width(lc) > w then None
    else
      var r := seq(h, i requires 0 <= i < h =>
        seq(w, j requires 0 <= j < w => lc[Clamp(i, |lc|)][Clamp(j, Width(lc))]));
      assert forall i :: 0 <= i < h ==> |r[i]| == w;
      Some(r)
  }

  /** The aligned land cover read through the clamped indices; alignment fails only for an
      empty or a larger array of another shape. */
  lemma AlignSpec(lc: Grid<int>, h: nat, w: nat)
    requires Rect(lc) && h > 0 && w > 0
    ensures AlignLandCover(lc, h, w).None? <==>
      (|lc| != h || Width(lc) != w) && (|lc| == 0 || |lc| > h || Width(lc) == 0 || Width(lc) > w)
    ensures AlignLandCover(lc, h, w).Some? ==> forall i, j :: 0 <= i < h && 0 <= j < w ==>
      AlignLandCover(lc, h, w).value[i][j] == lc[Clamp(i, |lc|)][Clamp(j, Width(lc))]
  {
  }

  /** The aligned land cover agrees with the original on its extent, every row below it
      repeats its last row and every column right of it repeats its last column; alignment
      fails exactly for an empty or a larger array of another shape. */
  lemma AlignPads(lc: Grid<int>, h: nat, w: nat)
    requires Rect(lc) && h > 0 && w > 0
    ensures AlignLandCover(lc, h, w).None? <==>
      (|lc| != h || Width(lc) != w) && (|lc| == 0 || |lc| > h || Width(lc) == 0 || Width(lc) > w)
    ensures AlignLandCover(lc, h, w).Some? ==> var v := AlignLandCover(lc, h, w).value;
      && (forall i, j :: 0 <= i < |lc| && 0 <= j < Width(lc) ==> v[i][j] == lc[i][j])
      && (forall i, j :: |lc| <= i < h && 0 <= j < w ==> v[i][j] == v[|lc| - 1][j])
      && (forall i, j :: 0 <= i < h && Width(lc) <= j < w ==> v[i][j] == v[i][Width(lc) - 1])
  {
    AlignSpec(lc, h, w);
    if AlignLandCover(lc, h, w).Some? {
      var v := AlignLandCover(lc, h, w).value;
      forall i, j | |lc| <= i < h && 0 <= j < w
        ensures v[i][j] == v[|lc| - 1][j]
      {
        assert Clamp(i, |lc|) == Clamp(|lc| - 1, |lc|);
      }
      forall i, j | 0 <= i < h && Width(lc) <= j < w
        ensures v[i][j] == v[i][Width(lc) - 1]
      {
        assert Clamp(j, Width(lc)) == Clamp(Width(lc) - 1, Width(lc));
      }
    }
  }

  /** The position of `v` among the codes, or |codes| when it is not a crop code. */
  function IndexOf(codes: seq<int>, v: int): (m: nat)
    ensures m <= |codes|
    ensures m < |codes| ==> codes[m] == v
    ensures forall k :: 0 <= k < m ==> codes[k] != v
  {
    if |codes| == 0 then 0
    else if codes[0] == v then 0
    else 1 + IndexOf(codes[1..], v)
  }

  /** Some background pixel carries land-cover code `c`. */
  predicate Present(labels: Grid<int>, al: Grid<int>, c: int)
    requires SameShape(labels, al)
  {
    exists i, j :: 0 <= i < |labels| && 0 <= j < Width(labels) && labels[i][j] == 0 && al[i][j] == c
  }

  /** How many of the first k codes are present. */
  function CountPresent(labels: Grid<int>, al: Grid<int>, codes: seq<int>, k: nat): (n: nat)
    requires SameShape(labels, al) && k <= |codes|
    ensures n <= k
  {
    if k == 0 then 0
    else CountPresent(labels, al, codes, k - 1) + (if Present(labels, al, codes[k - 1]) then 1 else 0)
  }

  /** The class a background pixel with the m-th code receives. */
  function ClassOf(labels: Grid<int>, al: Grid<int>, codes: seq<int>, dataType: DataType, m: nat): int
    requires SameShape(labels, al) && m <= |codes|
  {
    if dataType == Boundaries then 1 else 1 + CountPresent(labels, al, codes, m)
  }

  /** The recoded pixel once the first k codes are processed. */
  function RecodedUpTo(labels: Grid<int>, al: Grid<int>, codes: seq<int>, dataType: DataType, k: nat, i: int, j: int): int
    requires SameShape(labels, al) && InBounds(labels, i, j) && k <= |codes|
  {
    var m := IndexOf(codes, al[i][j]);
    if labels[i][j] == 0 && m < k then ClassOf(labels, al, codes, dataType, m) else 0
  }

  /** The recoded labels with a crop-code land cover aligned to the label shape. */
  function RecodeCdl(labels: Grid<int>, al: Grid<int>, codes: seq<int>, dataType: DataType): (r: Grid<int>)
    requires SameShape(labels, al)
    ensures SameShape(r, labels)
  {
    var h, w := |labels|, Width(labels);
    var r := seq(h, i requires 0 <= i < h => seq(w, j requires 0 <= j < w =>
      RecodedUpTo(labels, al, codes, dataType, |codes|, i, j)));
    assert forall i :: 0 <= i < h ==> |r[i]| == w;
    r
  }

  /** recode_crop_labels: None where numpy's padding refuses the land cover. */
  function RecodeCropLabels(labels: Grid<int>, lc: Grid<int>, lcIsCdl: bool, dataType: DataType, codes: seq<int>): Option<Grid<int>>
    requires Rect(labels) && Rect(lc)
  {
    if !lcIsCdl then Some(Map(lc, (v: int) => Ind(v == 1)))
    else match AlignLandCover(lc, |labels|, Width(labels))
      case None => None
      case Some(al) => if SameShape(labels, al) then Some(RecodeCdl(labels, al, codes, dataType)) else None
  }

  /** Only background pixels are recoded, and exactly those whose code is a crop code. */
  lemma RecodesOnlyBackground(labels: Grid<int>, al: Grid<int>, codes: seq<int>, dataType: DataType, i: int, j: int)
    requires SameShape(labels, al) && InBounds(labels, i, j)
    ensures RecodeCdl(labels, al, codes, dataType)[i][j] > 0 <==> labels[i][j] == 0 && al[i][j] in codes
    ensures dataType == Boundaries ==> RecodeCdl(labels, al, codes, dataType)[i][j] == Ind(labels[i][j] == 0 && al[i][j] in codes)
  {
  }

  lemma {:induction false} CountPresentMono(labels: Grid<int>, al: Grid<int>, codes: seq<int>, m: nat, k: nat)
    requires SameShape(labels, al) && m < k <= |codes| && Present(labels, al, codes[m])
    ensures CountPresent(labels, al, codes, m) < CountPresent(labels, al, codes, k)
  {
    if k > m + 1 {
      CountPresentMono(labels, al, codes, m, k - 1);
    }
  }

  /** Each count up to the number of present codes is reached just before a present code. */
  lemma {:induction false} CountReached(labels: Grid<int>, al: Grid<int>, codes: seq<int>, k: nat, n: nat)
    requires SameShape(labels, al) && k <= |codes| && n < CountPresent(labels, al, codes, k)
    ensures exists m :: 0 <= m < k && Present(labels, al, codes[m]) && CountPresent(labels, al, codes, m) == n
  {
    if n < CountPresent(labels, al, codes, k - 1) {
      CountReached(labels, al, codes, k - 1, n);
      var m :| 0 <= m < k - 1 && Present(labels, al, codes[m]) && CountPresent(labels, al, codes, m) == n;
      assert 0 <= m < k;
    } else {
      assert Present(labels, al, codes[k - 1]);
    }
  }

  /** Some pixel of `r` carries class `n`. */
  predicate ClassUsed(r: Grid<int>, n: int)
    requires Rect(r)
  {
    exists i, j :: 0 <= i < |r| && 0 <= j < Width(r) && r[i][j] == n
  }

  /** Multi-class ids have no gaps: every id from 1 to the number of crop codes that
      occur on background appears, and no larger one. */
  lemma CropIdsGapFree(labels: Grid<int>, al: Grid<int>, codes: seq<int>)
    requires SameShape(labels, al) && Distinct(codes)
    ensures var r, K := RecodeCdl(labels, al, codes, MultiClass), CountPresent(labels, al, codes, |codes|);
      && (forall i, j :: InBounds(labels, i, j) ==> 0 <= r[i][j] <= K)
      && (forall n :: 1 <= n <= K ==> ClassUsed(r, n))
  {
    var r, K := RecodeCdl(labels, al, codes, MultiClass), CountPresent(labels, al, codes, |codes|);
    forall i, j | InBounds(labels, i, j)
      ensures 0 <= r[i][j] <= K
    {
      var m := IndexOf(codes, al[i][j]);
      if labels[i][j] == 0 && m < |codes| {
        CountPresentMono(labels, al, codes, m, |codes|);
      }
    }
    forall n | 1 <= n <= K
      ensures ClassUsed(r, n)
    {
      CountReached(labels, al, codes, |codes|, n - 1);
      var m :| 0 <= m < |codes| && Present(labels, al, codes[m]) && CountPresent(labels, al, codes, m) == n - 1;
      var i, j :| 0 <= i < |labels| && 0 <= j < Width(labels) && labels[i][j] == 0 && al[i][j] == codes[m];
      assert IndexOf(codes, al[i][j]) == m;
      assert r[i][j] == n;
    }
  }

  /** Two recoded pixels share a multi-class id exactly when they share a crop code. */
  lemma CropIdsInjective(labels: Grid<int>, al: Grid<int>, codes: seq<int>, i: int, j: int, a: int, b: int)
    requires SameShape(labels, al) && Distinct(codes) && InBounds(labels, i, j) && InBounds(labels, a, b)
    requires labels[i][j] == 0 && al[i][j] in codes && labels[a][b] == 0 && al[a][b] in codes
    ensures var r := RecodeCdl(labels, al, codes, MultiClass);
      r[i][j] == r[a][b] <==> al[i][j] == al[a][b]
  {
    var m1, m2 := IndexOf(codes, al[i][j]), IndexOf(codes, al[a][b]);
    assert Present(labels, al, codes[m1]);
    assert Present(labels, al, codes[m2]);
    if m1 < m2 {
      CountPresentMono(labels, al, codes, m1, m2);
    } else if m2 < m1 {
      CountPresentMono(labels, al, codes, m2, m1);
    }
  }

  /** Whether some pixel of the array holds `v`: numpy's `(a == v).sum() > 0`. */
  method Contains(a: array2<int>, v: int) returns (found: bool)
    ensures found <==> exists i, j :: 0 <= i < a.Length0 && 0 <= j < a.Length1 && a[i, j] == v
  {
    found := false;
    for i := 0 to a.Length0
      invariant !found <==> forall r, c :: 0 <= r < i && 0 <= c < a.Length1 ==> a[r, c] != v
    {
      for j := 0 to a.Length1
        invariant !found <==> forall r, c :: (0 <= r < i && 0 <= c < a.Length1) || (r == i && 0 <= c < j) ==> a[r, c] != v
      {
        if a[i, j] == v {
          found := true;
        }
      }
    }
  }

  /** `recoded[(lc == code) & (edges == 0)] = v`. */
  method WriteCode(out: array2<int>, labels: Grid<int>, al: Grid<int>, code: int, v: int)
    requires SameShape(labels, al) && out.Length0 == |labels| && out.Length1 == Width(labels)
    modifies out
    ensures forall i, j :: 0 <= i < out.Length0 && 0 <= j < out.Length1 ==>
      out[i, j] == if labels[i][j] == 0 && al[i][j] == code then v else old(out[i, j])
  {
    for i := 0 to out.Length0
      invariant forall r, c :: 0 <= r < out.Length0 && 0 <= c < out.Length1 ==>
        out[r, c] == if r < i && labels[r][c] == 0 && al[r][c] == code then v else old(out[r, c])
    {
      for j := 0 to out.Length1
        invariant forall r, c :: 0 <= r < out.Length0 && 0 <= c < out.Length1 ==>
          out[r, c] == if (r < i || (r == i && c < j)) && labels[r][c] == 0 && al[r][c] == code then v else old(out[r, c])
      {
        if labels[i][j] == 0 && al[i][j] == code {
          out[i, j] := v;
        }
      }
    }
  }

  /** After the first k codes, every id written so far is below the next counter value. */
  lemma WrittenBelowCounter(labels: Grid<int>, al: Grid<int>, codes: seq<int>, k: nat, i: int, j: int)
    requires SameShape(labels, al) && InBounds(labels, i, j) && k <= |codes|
    ensures RecodedUpTo(labels, al, codes, MultiClass, k, i, j) < 1 + CountPresent(labels, al, codes, k)
  {
    var m := IndexOf(codes, al[i][j]);
    if labels[i][j] == 0 && m < k {
      assert Present(labels, al, codes[m]);
      CountPresentMono(labels, al, codes, m, k);
    }
  }

  /** One step of the loop over the codes: the pixels of code k get the current class. */
  lemma RecodeStep(labels: Grid<int>, al: Grid<int>, codes: seq<int>, dataType: DataType, k: nat, i: int, j: int)
    requires SameShape(labels, al) && InBounds(labels, i, j) && k < |codes| && Distinct(codes)
    ensures RecodedUpTo(labels, al, codes, dataType, k + 1, i, j) ==
      if labels[i][j] == 0 && al[i][j] == codes[k] then ClassOf(labels, al, codes, dataType, k)
      else RecodedUpTo(labels, al, codes, dataType, k, i, j)
  {
    var m := IndexOf(codes, al[i][j]);
    if al[i][j] == codes[k] {
      assert m == k;
    }
  }

  /** The counter check after writing code k: some pixel holds the counter exactly when the
      code is present on background. */
  lemma CounterWritten(out: array2<int>, labels: Grid<int>, al: Grid<int>, codes: seq<int>, k: nat, counter: int)
    requires SameShape(labels, al) && out.Length0 == |labels| && out.Length1 == Width(labels)
    requires k < |codes| && Distinct(codes) && counter == 1 + CountPresent(labels, al, codes, k)
    requires forall i, j :: 0 <= i < out.Length0 && 0 <= j < out.Length1 ==>
      out[i, j] == RecodedUpTo(labels, al, codes, MultiClass, k + 1, i, j)
    ensures (exists i, j :: 0 <= i < out.Length0 && 0 <= j < out.Length1 && out[i, j] == counter)
      <==> Present(labels, al, codes[k])
  {
    if exists i, j :: 0 <= i < out.Length0 && 0 <= j < out.Length1 && out[i, j] == counter {
      var i, j :| 0 <= i < out.Length0 && 0 <= j < out.Length1 && out[i, j] == counter;
      RecodeStep(labels, al, codes, MultiClass, k, i, j);
      WrittenBelowCounter(labels, al, codes, k, i, j);
      assert labels[i][j] == 0 && al[i][j] == codes[k];
    }
    if Present(labels, al, codes[k]) {
      var i, j :| 0 <= i < |labels| && 0 <= j < Width(labels) && labels[i][j] == 0 && al[i][j] == codes[k];
      RecodeStep(labels, al, codes, MultiClass, k, i, j);
      assert out[i, j] == counter;
    }
  }

  /** The loop over the crop codes with its counter, on a land cover aligned to the labels. */
  method RecodeCdlArray(labels: Grid<int>, al: Grid<int>, codes: seq<int>, dataType: DataType)
    returns (out: array2<int>)
    requires SameShape(labels, al) && Distinct(codes)
    ensures fresh(out)
    ensures Cells(out) == RecodeCdl(labels, al, codes, dataType)
  {
    var h, w := |labels|, Width(labels);
    out := new int[h, w]((i, j) => 0);
    var counter := 1;
    for k := 0 to |codes|
      invariant counter == if dataType == Boundaries then 1 else 1 + CountPresent(labels, al, codes, k)
      invariant forall i, j :: 0 <= i < h && 0 <= j < w ==> out[i, j] == RecodedUpTo(labels, al, codes, dataType, k, i, j)
    {
      WriteCode(out, labels, al, codes[k], if dataType == Boundaries then 1 else counter);
      forall i, j | 0 <= i < h && 0 <= j < w
        ensures out[i, j] == RecodedUpTo(labels, al, codes, dataType, k + 1, i, j)
      {
        RecodeStep(labels, al, codes, dataType, k, i, j);
      }
      if dataType != Boundaries {
        var found := Contains(out, counter);
        CounterWritten(out, labels, al, codes, k, counter);
        if found {
          counter := counter + 1;
        }
      }
    }
    SamePixels(Cells(out), RecodeCdl(labels, al, codes, dataType));
  }

  /** recode_crop_labels: a fresh recoded array, or None where numpy's padding fails;
      `edges` is the unchanged copy of the input labels. */
  method RecodeCropLabelsArray(labels: Grid<int>, lc: Grid<int>, lcIsCdl: bool, dataType: DataType, codes: seq<int>)
    returns (recoded: Option<array2<int>>, edges: Grid<int>)
    requires Rect(labels) && Rect(lc) && Distinct(codes)
    ensures edges == labels
    ensures recoded.Some? <==> RecodeCropLabels(labels, lc, lcIsCdl, dataType, codes).Some?
    ensures recoded.Some? ==> fresh(recoded.value)
    ensures recoded.Some? ==> Cells(recoded.value) == RecodeCropLabels(labels, lc, lcIsCdl, dataType, codes).value
  {
    edges := labels;
    if !lcIsCdl {
      var out := new int[|lc|, Width(lc)];
      for i := 0 to |lc|
        invariant forall r, c :: 0 <= r < i && 0 <= c < Width(lc) ==> out[r, c] == Ind(lc[r][c] == 1)
      {
        for j := 0 to Width(lc)
          invariant forall r, c :: (0 <= r < i && 0 <= c < Width(lc)) || (r == i && 0 <= c < j) ==> out[r, c] == Ind(lc[r][c] == 1)
        {
          out[i, j] := if lc[i][j] == 1 then 1 else 0;
        }
      }
      SamePixels(Cells(out), Map(lc, (v: int) => Ind(v == 1)));
      return Some(out), edges;
    }
    var aligned := AlignLandCover(lc, |labels|, Width(labels));
    if aligned.None? || !SameShape(labels, aligned.value) {
      return None, edges;
    }
    var out := RecodeCdlArray(labels, aligned.value, codes, dataType);
    return Some(out), edges;
  }
}
