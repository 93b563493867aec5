/** The sample ids of a grid and the check whether a grid was already processed. The
    processed directory is a map from the id in a file name `data_{id}.pt` to the
    `train_id` recorded inside that file. */
module Persistence {
  import opened Text

  /** The processed directory: file id to the train id stored in the file. */
  type Store = map<string, string>

  /** `aug.startswith('ts-')`. */
  predicate IsTimeSeries(aug: string) {
    |aug| >= 3 && aug[..3] == "ts-"
  }

  /** The ids of one transform: one per time-series draw `{group}_{grid}_{aug}_{i:03d}` for a
      `ts-` transform, else the single id `{group}_{grid}_{aug}`. */
  function AugIds(group: string, grid: string, aug: string, nTs: nat): (ids: seq<string>)
    ensures IsTimeSeries(aug) ==> |ids| == nTs
    ensures !IsTimeSeries(aug) ==> |ids| == 1
  {
    var base := group + "_" + grid + "_" + aug;
    if IsTimeSeries(aug) then seq(nTs, i requires 0 <= i < nTs => base + "_" + ZeroPad3(i))
    else [base]
  }

  /** The ids of every transform, in the order create.py visits them. */
  function TrainIds(group: string, grid: string, transforms: seq<string>, nTs: nat): seq<string>
    decreases |transforms|
  {
    if |transforms| == 0 then []
    else
      var n := |transforms| - 1;
      TrainIds(group, grid, transforms[..n], nTs) + AugIds(group, grid, transforms[n], nTs)
  }

  /** A file `data_{id}.pt` exists and holds the train id `id`. */
  predicate Found(store: Store, id: string) {
    id in store && store[id] == id
  }

  /** is_grid_processed's result: some id of the grid was found. */
  predicate Processed(store: Store, ids: seq<string>) {
    exists k :: 0 <= k < |ids| && Found(store, ids[k])
  }

  /** Saving the samples of the grid: each id's file is written with that train id. */
  function Save(store: Store, ids: seq<string>): Store
    decreases |ids|
  {
    if |ids| == 0 then store
    else
      var n := |ids| - 1;
      Save(store, ids[..n])[ids[n] := ids[n]]
  }

  lemma ProcessedAppend(store: Store, a: seq<string>, b: seq<string>)
    ensures Processed(store, a + b) <==> Processed(store, a) || Processed(store, b)
  {
    if Processed(store, a + b) {
      var k :| 0 <= k < |a + b| && Found(store, (a + b)[k]);
      if k >= |a| {
        assert b[k - |a|] == (a + b)[k];
      }
    }
    if Processed(store, b) {
      var k :| 0 <= k < |b| && Found(store, b[k]);
      assert (a + b)[|a| + k] == b[k];
    }
    if Processed(store, a) {
      var k :| 0 <= k < |a| && Found(store, a[k]);
      assert (a + b)[k] == a[k];
    }
  }

  lemma ProcessedOne(store: Store, id: string)
    ensures Processed(store, [id]) <==> Found(store, id)
  {
    if Found(store, id) {
      assert [id][0] == id;
    }
  }

  /** The draws of a time-series transform have pairwise distinct ids. */
  lemma TimeSeriesIdsDistinct(group: string, grid: string, aug: string, nTs: nat, i: int, k: int)
    requires IsTimeSeries(aug) && 0 <= i < nTs && 0 <= k < nTs && i != k
    ensures AugIds(group, grid, aug, nTs)[i] != AugIds(group, grid, aug, nTs)[k]
  {
    var base := group + "_" + grid + "_" + aug + "_";
    var x, y := ZeroPad3(i), ZeroPad3(k);
    ZeroPad3Injective(i, k);
    assert (base + x)[|base|..] == x;
    assert (base + y)[|base|..] == y;
    assert AugIds(group, grid, aug, nTs)[i] == base + x;
    assert AugIds(group, grid, aug, nTs)[k] == base + y;
  }

  /** Every saved id is found afterwards, and every id found before is still found. */
  lemma {:induction false} SaveFound(store: Store, ids: seq<string>)
    ensures forall k :: 0 <= k < |ids| ==> Found(Save(store, ids), ids[k])
    ensures forall x :: Found(store, x) ==> Found(Save(store, ids), x)
    decreases |ids|
  {
    if |ids| > 0 {
      var n := |ids| - 1;
      SaveFound(store, ids[..n]);
      forall k | 0 <= k < n
        ensures Found(Save(store, ids), ids[k])
      {
        assert ids[..n][k] == ids[k];
      }
    }
  }

  /** After its samples are saved, a grid with at least one id counts as processed. */
  lemma SavedIsProcessed(store: Store, ids: seq<string>)
    requires |ids| > 0
    ensures Processed(Save(store, ids), ids)
  {
    SaveFound(store, ids);
    assert Found(Save(store, ids), ids[0]);
  }

  /** Saving more never makes a processed grid unprocessed. */
  lemma ProcessedAfterSave(store: Store, saved: seq<string>, ids: seq<string>)
    requires Processed(store, ids)
    ensures Processed(Save(store, saved), ids)
  {
    SaveFound(store, saved);
    var k :| 0 <= k < |ids| && Found(store, ids[k]);
    assert Found(Save(store, saved), ids[k]);
  }

  /** Saving two lists of ids is saving one after the other. */
  lemma {:induction false} SaveConcat(store: Store, a: seq<string>, b: seq<string>)
    ensures Save(store, a + b) == Save(Save(store, a), b)
    decreases |b|
  {
    if |b| == 0 {
      assert a + b == a;
    } else {
      var n := |b| - 1;
      SaveConcat(store, a, b[..n]);
      assert (a + b)[..|a| + n] == a + b[..n];
    }
  }

  /** The samples of one transform, written one after the other. */
  method SaveAug(store: Store, group: string, grid: string, aug: string, nTs: nat) returns (result: Store)
    ensures result == Save(store, AugIds(group, grid, aug, nTs))
  {
    ghost var ids := AugIds(group, grid, aug, nTs);
    result := store;
    if IsTimeSeries(aug) {
      for i := 0 to nTs
        invariant result == Save(store, ids[..i])
      {
        var trainId := group + "_" + grid + "_" + aug + "_" + ZeroPad3(i);
        assert ids[..i + 1][..i] == ids[..i] && ids[i] == trainId;
        result := result[trainId := trainId];
      }
      assert ids[..nTs] == ids;
    } else {
      var trainId := group + "_" + grid + "_" + aug;
      assert ids == [trainId] && ids[..0] == [];
      result := result[trainId := trainId];
    }
  }

  /** The saving loops of create_dataset: for every transform, and for every time-series
      draw of a `ts-` transform, the sample file is written under its id. */
  method SaveGrid(store: Store, transforms: seq<string>, group: string, grid: string, nTs: nat)
    returns (result: Store)
    ensures result == Save(store, TrainIds(group, grid, transforms, nTs))
  {
    result := store;
    for t := 0 to |transforms|
      invariant result == Save(store, TrainIds(group, grid, transforms[..t], nTs))
    {
      SaveConcat(store, TrainIds(group, grid, transforms[..t], nTs), AugIds(group, grid, transforms[t], nTs));
      result := SaveAug(result, group, grid, transforms[t], nTs);
      assert transforms[..t + 1][..t] == transforms[..t];
    }
    assert transforms[..|transforms|] == transforms;
  }

  /** is_grid_processed: the flag is raised by any id whose file exists and records that id. */
  method IsGridProcessed(store: Store, transforms: seq<string>, group: string, grid: string, nTs: nat)
    returns (stored: bool)
    ensures stored <==> Processed(store, TrainIds(group, grid, transforms, nTs))
  {
    stored := false;
    for t := 0 to |transforms|
      invariant stored <==> Processed(store, TrainIds(group, grid, transforms[..t], nTs))
    {
      var aug := transforms[t];
      ghost var ids := AugIds(group, grid, aug, nTs);
      ghost var before := TrainIds(group, grid, transforms[..t], nTs);
      if IsTimeSeries(aug) {
        for i := 0 to nTs
          invariant stored <==> Processed(store, before) || Processed(store, ids[..i])
        {
          var trainId := group + "_" + grid + "_" + aug + "_" + ZeroPad3(i);
          assert ids[..i + 1] == ids[..i] + [trainId];
          ProcessedAppend(store, ids[..i], [trainId]);
          ProcessedOne(store, trainId);
          if trainId in store && store[trainId] == trainId {
            stored := true;
          }
        }
        assert ids[..nTs] == ids;
      } else {
        var trainId := group + "_" + grid + "_" + aug;
        assert ids == [trainId];
        ProcessedOne(store, trainId);
        if trainId in store && store[trainId] == trainId {
          stored := true;
        }
      }
      assert transforms[..t + 1][..t] == transforms[..t];
      ProcessedAppend(store, before, ids);
    }
    assert transforms[..|transforms|] == transforms;
  }
}
