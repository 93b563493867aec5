/** The bookkeeping of create_dataset over the rows of the grid table: the merged-grid
    skip rule, the renumbering of field classes, the size rejection, the already-processed
    skip, the year span read from the group id, and the saved samples. */
module Orchestrator {
  import opened Grids
  import opened Text
  import opened Persistence

  /** The number of nonzero classes in `c`. */
  function CountNonzero(c: seq<int>): nat
    decreases |c|
  {
    if |c| == 0 then 0 else CountNonzero(c[..|c| - 1]) + Ind(c[|c| - 1] != 0)
  }

  /** The class column after `class[nonzero] = range(1, n + 1)`: the k-th nonzero class,
      in row order, becomes k; zero classes stay zero. */
  function Renumbered(c: seq<int>): (r: seq<int>)
    ensures |r| == |c|
  {
    seq(|c|, k requires 0 <= k < |c| => if c[k] == 0 then 0 else 1 + CountNonzero(c[..k]))
  }

  lemma {:induction false} CountNonzeroMono(c: seq<int>, a: nat, b: nat)
    requires a <= b <= |c|
    ensures CountNonzero(c[..a]) <= CountNonzero(c[..b])
    ensures a < b && c[a] != 0 ==> CountNonzero(c[..a]) < CountNonzero(c[..b])
    decreases b - a
  {
    if a < b {
      CountNonzeroMono(c, a + 1, b);
      assert c[..a + 1][..a] == c[..a];
    }
  }

  /** Renumbering keeps the zero classes, gives the nonzero ones values in 1..n, and is
      strictly increasing along the nonzero rows, so no two fields share a class. */
  lemma RenumberedOrder(c: seq<int>)
    ensures forall k :: 0 <= k < |c| ==> (Renumbered(c)[k] == 0 <==> c[k] == 0)
    ensures forall k :: 0 <= k < |c| ==> 0 <= Renumbered(c)[k] <= CountNonzero(c)
    ensures forall k, m :: 0 <= k < m < |c| && c[k] != 0 && c[m] != 0 ==> Renumbered(c)[k] < Renumbered(c)[m]
  {
    forall k | 0 <= k < |c|
      ensures 0 <= Renumbered(c)[k] <= CountNonzero(c)
    {
      CountNonzeroMono(c, k, |c|);
      assert c[..|c|] == c;
    }
    forall k, m | 0 <= k < m < |c| && c[k] != 0 && c[m] != 0
      ensures Renumbered(c)[k] < Renumbered(c)[m]
    {
      CountNonzeroMono(c, k, m);
    }
  }

  /** Every value 1..n is given to some field: the ids have no gaps. */
  lemma {:induction false} RenumberedGapFree(c: seq<int>, v: int)
    requires 1 <= v <= CountNonzero(c)
    ensures exists k :: 0 <= k < |c| && c[k] != 0 && Renumbered(c)[k] == v
    decreases |c|
  {
    var n := |c| - 1;
    var init := c[..n];
    if v <= CountNonzero(init) {
      RenumberedGapFree(init, v);
      var k :| 0 <= k < |init| && init[k] != 0 && Renumbered(init)[k] == v;
      assert c[..k] == init[..k];
    } else {
      assert c[..n] == init;
    }
  }

  /** The renumbering loop with its counter. */
  method RenumberClasses(c: seq<int>) returns (r: seq<int>)
    ensures r == Renumbered(c)
  {
    r := [];
    var counter := 0;
    for k := 0 to |c|
      invariant |r| == k && counter == CountNonzero(c[..k])
      invariant forall m :: 0 <= m < k ==> r[m] == Renumbered(c)[m]
    {
      assert c[..k + 1][..k] == c[..k];
      if c[k] != 0 {
        counter := counter + 1;
        r := r + [counter];
      } else {
        r := r + [c[k]];
      }
    }
  }

  datatype YearSpan = YearSpan(start: int, end: int)

  /** `end_year = int(group_id.split('_')[-1])`, `start_year = end_year - 1`; None where
      `int()` raises. */
  function Years(groupId: string): Option<YearSpan> {
    match ParseInt(LastField(groupId))
    case None => None
    case Some(e) => Some(YearSpan(e - 1, e))
  }

  lemma DigitsHaveNoUnderscore(s: string)
    requires AllDigits(s)
    ensures '_' !in s
  {
    assert forall k :: 0 <= k < |s| ==> s[k] != '_';
  }

  /** A group id ending in `_` and a year gives the span from the year before to that year. */
  lemma YearsRoundTrip(prefix: string, year: nat)
    ensures Years(prefix + "_" + NatToString(year)) == Some(YearSpan(year - 1, year))
  {
    DigitsHaveNoUnderscore(NatToString(year));
    LastFieldOf(prefix, NatToString(year));
    ParseIntRoundTrip(year);
  }

  /** A group id whose last field holds a character other than a digit or a leading sign
      has no year: `int()` raises. */
  lemma YearsRefused(groupId: string, k: int)
    requires 0 < k < |LastField(groupId)| && !IsDigit(LastField(groupId)[k])
    ensures Years(groupId) == None
  {
    ParseIntRefuses(LastField(groupId), k);
  }

  /** One row of the grid table, with what the foreign steps produce for it: the grid ids of
      the grids whose extent the clipped fields intersect, the class column of the clipped
      fields, and the height and width of the image variables read over the grid. */
  datatype Row = Row(grid: string, overlaps: seq<string>, classes: seq<int>, height: int, width: int)

  datatype Config = Config(groupId: string, transforms: Option<seq<string>>, nTs: nat)

  /** `transforms = ['none']` when none are given. */
  function Transforms(cfg: Config): seq<string> {
    match cfg.transforms
    case None => ["none"]
    case Some(t) => t
  }

  /** A sample handed to the saving step: its grid, renumbered classes, years and ids. */
  datatype Sample = Sample(grid: string, classes: seq<int>, years: YearSpan, ids: seq<string>)

  /** The loop state: the merged grids, the processed directory and the saved samples. */
  datatype State = State(merged: seq<string>, store: Store, samples: seq<Sample>)

  /** How the loop ends: after the last row, or at the row where the year cannot be read. */
  datatype Outcome = Finished(state: State) | YearError(state: State)

  predicate AnyMerged(overlaps: seq<string>, merged: seq<string>) {
    exists k :: 0 <= k < |overlaps| && overlaps[k] in merged
  }

  function RowIds(cfg: Config, row: Row): seq<string> {
    TrainIds(cfg.groupId, row.grid, Transforms(cfg), cfg.nTs)
  }

  /** One row of the loop, in the order of create.py's checks. */
  function Step(cfg: Config, row: Row, st: State): Outcome {
    if |row.overlaps| > 1 && AnyMerged(row.overlaps, st.merged) then Finished(st)
    else
      var st1 := if |row.overlaps| > 1 then st.(merged := st.merged + [row.grid]) else st;
      var ids := RowIds(cfg, row);
      if row.height < 5 || row.width < 5 then Finished(st1)
      else if Processed(st1.store, ids) then Finished(st1)
      else
        match Years(cfg.groupId)
        case None => YearError(st1)
        case Some(y) =>
          Finished(st1.(store := Save(st1.store, ids),
                        samples := st1.samples + [Sample(row.grid, Renumbered(row.classes), y, ids)]))
  }

  /** The loop over the rows, stopping at the first error. */
  function Run(cfg: Config, rows: seq<Row>, st: State): Outcome
    decreases |rows|
  {
    if |rows| == 0 then Finished(st)
    else
      match Step(cfg, rows[0], st)
      case YearError(s) => YearError(s)
      case Finished(s) => Run(cfg, rows[1..], s)
  }

  /** A step only appends to the merged grids. */
  lemma StepKeepsMerged(cfg: Config, row: Row, st: State)
    ensures st.merged <= Step(cfg, row, st).state.merged
  {
  }

  /** The merged grids of a run start with those it was given. */
  lemma {:induction false} RunKeepsMerged(cfg: Config, rows: seq<Row>, st: State)
    ensures st.merged <= Run(cfg, rows, st).state.merged
    decreases |rows|
  {
    if |rows| > 0 {
      StepKeepsMerged(cfg, rows[0], st);
      match Step(cfg, rows[0], st)
      case YearError(s) =>
      case Finished(s) => RunKeepsMerged(cfg, rows[1..], s);
    }
  }

  /** Running two tables one after the other is running their concatenation. */
  lemma {:induction false} RunConcat(cfg: Config, xs: seq<Row>, ys: seq<Row>, st: State)
    ensures Run(cfg, xs + ys, st) == match Run(cfg, xs, st)
      case YearError(s) => YearError(s)
      case Finished(s) => Run(cfg, ys, s)
    decreases |xs|
  {
    if |xs| == 0 {
      assert xs + ys == ys;
    } else {
      assert (xs + ys)[0] == xs[0] && (xs + ys)[1..] == xs[1..] + ys;
      match Step(cfg, xs[0], st)
      case YearError(s) =>
      case Finished(s) => RunConcat(cfg, xs[1..], ys, s);
    }
  }

  /** A tile spanning several grids records its grid; any later tile spanning several grids
      that include it is skipped and changes nothing, so dropping it from the table leaves
      the outcome as it was. */
  lemma MergedSkip(cfg: Config, a: Row, mid: seq<Row>, b: Row, rest: seq<Row>, st: State)
    requires |a.overlaps| > 1 && !AnyMerged(a.overlaps, st.merged)
    requires |b.overlaps| > 1 && a.grid in b.overlaps
    ensures a.grid in Step(cfg, a, st).state.merged
    ensures Run(cfg, [a] + mid + [b] + rest, st) == Run(cfg, [a] + mid + rest, st)
  {
    var merged := Step(cfg, a, st).state.merged;
    assert merged == st.merged + [a.grid];
    var head := [a] + mid;
    RunConcat(cfg, head, [b] + rest, st);
    RunConcat(cfg, head, rest, st);
    assert [a] + mid + [b] + rest == head + ([b] + rest);
    assert [a] + mid + rest == head + rest;
    match Run(cfg, head, st)
    case YearError(s) =>
    case Finished(s) =>
      RunConcat(cfg, [a], mid, st);
      assert [a][1..] == [];
      match Step(cfg, a, st)
      case YearError(s1) =>
      case Finished(s1) =>
        RunKeepsMerged(cfg, mid, s1);
        assert a.grid in s.merged;
        var k :| 0 <= k < |b.overlaps| && b.overlaps[k] == a.grid;
        assert AnyMerged(b.overlaps, s.merged);
        assert ([b] + rest)[0] == b && ([b] + rest)[1..] == rest;
  }

  /** A tile under 5 pixels on a side, or whose grid is already processed, saves nothing. */
  lemma SkippedTilesSaveNothing(cfg: Config, row: Row, st: State)
    requires !(|row.overlaps| > 1 && AnyMerged(row.overlaps, st.merged))
    requires row.height < 5 || row.width < 5 || Processed(st.store, RowIds(cfg, row))
    ensures Step(cfg, row, st).Finished?
    ensures Step(cfg, row, st).state.store == st.store && Step(cfg, row, st).state.samples == st.samples
  {
  }

  /** A step leaves the processed directory as it was, or saves exactly the row's ids. */
  lemma StepStore(cfg: Config, row: Row, st: State)
    ensures Step(cfg, row, st).state.store == st.store
      || Step(cfg, row, st).state.store == Save(st.store, RowIds(cfg, row))
    ensures forall x :: Found(st.store, x) ==> Found(Step(cfg, row, st).state.store, x)
  {
    SaveFound(st.store, RowIds(cfg, row));
  }

  /** Files recording their own id are never lost by the loop. */
  lemma {:induction false} RunKeepsFound(cfg: Config, rows: seq<Row>, st: State)
    ensures forall x :: Found(st.store, x) ==> Found(Run(cfg, rows, st).state.store, x)
    decreases |rows|
  {
    if |rows| > 0 {
      StepStore(cfg, rows[0], st);
      match Step(cfg, rows[0], st)
      case YearError(s) =>
      case Finished(s) => RunKeepsFound(cfg, rows[1..], s);
    }
  }

  /** Re-running from the directory a run left behind saves nothing new. */
  lemma {:induction false} RerunKeepsStore(cfg: Config, rows: seq<Row>, merged: seq<string>, s: Store,
                                           w: seq<Sample>, big: Store, w2: seq<Sample>)
    requires big == Run(cfg, rows, State(merged, s, w)).state.store
    ensures Run(cfg, rows, State(merged, big, w2)).state.store == big
    decreases |rows|
  {
    if |rows| > 0 {
      var row, rest := rows[0], rows[1..];
      var ids := RowIds(cfg, row);
      var st, st2 := State(merged, s, w), State(merged, big, w2);
      if |row.overlaps| > 1 && AnyMerged(row.overlaps, merged) {
        RerunKeepsStore(cfg, rest, merged, s, w, big, w2);
      } else {
        var m1 := if |row.overlaps| > 1 then merged + [row.grid] else merged;
        if row.height < 5 || row.width < 5 {
          RerunKeepsStore(cfg, rest, m1, s, w, big, w2);
        } else if Processed(s, ids) {
          RunKeepsFound(cfg, rest, State(m1, s, w));
          var k :| 0 <= k < |ids| && Found(s, ids[k]);
          assert Found(big, ids[k]);
          RerunKeepsStore(cfg, rest, m1, s, w, big, w2);
        } else if Years(cfg.groupId).None? {
          assert big == s;
        } else {
          var y := Years(cfg.groupId).value;
          var saved := Save(s, ids);
          var w1 := w + [Sample(row.grid, Renumbered(row.classes), y, ids)];
          assert Step(cfg, row, st) == Finished(State(m1, saved, w1));
          RunKeepsFound(cfg, rest, State(m1, saved, w1));
          if |ids| > 0 {
            SaveFound(s, ids);
            assert Found(saved, ids[0]);
            assert Found(big, ids[0]);
            RerunKeepsStore(cfg, rest, m1, saved, w1, big, w2);
          } else {
            assert saved == s;
            assert !Processed(big, ids);
            var w3 := w2 + [Sample(row.grid, Renumbered(row.classes), y, ids)];
            assert Step(cfg, row, st2) == Finished(State(m1, big, w3));
            RerunKeepsStore(cfg, rest, m1, saved, w1, big, w3);
          }
        }
      }
    }
  }

  /** Running create_dataset twice over the same table leaves the processed directory as
      the first run left it. */
  lemma RunTwice(cfg: Config, rows: seq<Row>, store: Store)
    ensures var first := Run(cfg, rows, State([], store, [])).state.store;
      Run(cfg, rows, State([], first, [])).state.store == first
  {
    RerunKeepsStore(cfg, rows, [], store, [], Run(cfg, rows, State([], store, [])).state.store, []);
  }

  /** `any(rowg in merged_grids for rowg in ...)`. */
  method AnyIn(overlaps: seq<string>, merged: seq<string>) returns (found: bool)
    ensures found <==> AnyMerged(overlaps, merged)
  {
    found := false;
    for k := 0 to |overlaps|
      invariant found <==> exists m :: 0 <= m < k && overlaps[m] in merged
    {
      if overlaps[k] in merged {
        found := true;
      }
    }
  }

  /** create_dataset's loop over the grid table, with the merged grids, the processed
      directory and the saved samples as its accumulators. */
  method CreateDataset(cfg: Config, rows: seq<Row>, store: Store) returns (out: Outcome)
    ensures out == Run(cfg, rows, State([], store, []))
  {
    var transforms := Transforms(cfg);
    var merged: seq<string> := [];
    var dir := store;
    var samples: seq<Sample> := [];
    for i := 0 to |rows|
      invariant Run(cfg, rows, State([], store, [])) == Run(cfg, rows[i..], State(merged, dir, samples))
    {
      var row := rows[i];
      ghost var st := State(merged, dir, samples);
      assert rows[i..][1..] == rows[i + 1..];
      if |row.overlaps| > 1 {
        var seen := AnyIn(row.overlaps, merged);
        if seen {
          continue;
        }
        merged := merged + [row.grid];
      }
      var classes := RenumberClasses(row.classes);
      if row.height < 5 || row.width < 5 {
        continue;
      }
      var stored := IsGridProcessed(dir, transforms, cfg.groupId, row.grid, cfg.nTs);
      if stored {
        continue;
      }
      var years := Years(cfg.groupId);
      if years.None? {
        out := YearError(State(merged, dir, samples));
        return;
      }
      var ids := TrainIds(cfg.groupId, row.grid, transforms, cfg.nTs);
      dir := SaveGrid(dir, transforms, cfg.groupId, row.grid, cfg.nTs);
      samples := samples + [Sample(row.grid, classes, years.value, ids)];
    }
    out := Finished(State(merged, dir, samples));
  }
}
