# Label construction for cultionet training samples

This project is a Dafny model of how cultionet builds the label arrays of its training samples, in `src/cultionet/data/create.py`.

The input is a rasterized field mask of one grid cell. From it the pipeline derives a label array with three classes: background (0), crop (1) and field edge (2). It then refines that array:

- closes one-pixel gaps at the image border;
- recodes the crop pixels from a land-cover raster;
- makes every segment of the segment map carry one label by majority vote;
- clears sliver segments;
- masks the boundary-distance layer and the labels that lie away from crop.

Around this sits the bookkeeping of `create_dataset`:

- the sample ids of a grid and the check whether they are already stored;
- the merged-grid skip rule;
- the renumbering of field classes;
- the size rejection;
- the year span read from the group id;
- the saving of every sample.

The per-segment normalisation of the distances to field boundaries is modelled too.

Rasters are values of type `Grid<T> = seq<seq<T>>` (module `Grids`). Where create.py rewrites an array in place, the model is a method on an `array2` or `array3`. Its postcondition ties the array's new value (`Cells(a)`, `Layer(a, k)`) to a specification function of the old value, and the lemmas state the promises of create.py about that function. The functions that `create.py` calls from other libraries are inputs of the model:

- the skeleton of the thinning;
- the segment map of the connected-component labelling;
- the distance transform;
- the grids a tile overlaps;
- the image extent;
- the table of crop codes.

| module | file | models |
|---|---|---|
| `Grids` | grids.dfy | rasters, classes, edge-padding index, array views |
| `Focal` | focal.dfy | `roll`, `focal_compare`, `focal_stat` |
| `EdgeLabels` | edge_labels.dfy | candidate edges, binarization, edge overlay, thinning cleanup and fragment cleanup in `create_image_vars` |
| `CloseEnds` | close_ends.dfy | `close_edge_ends` |
| `Recode` | recode.dfy | `recode_crop_labels` |
| `Segments` | segments.dfy | `labels[segments == s]`, bounding-box test, ascending walk over segment ids |
| `Uniform` | uniform.dfy | `make_crops_uniform` |
| `Slivers` | slivers.dfy | `check_slivers` |
| `Noncrop` | noncrop.dfy | `remove_noncrop` |
| `Distances` | distances.dfy | per-segment loop of `normalize_boundary_distances` |
| `Text` | text.dfy | `str`, `{:03d}`, `split('_')[-1]`, `int()` |
| `Persistence` | persistence.dfy | train ids, `is_grid_processed`, saving loops |
| `Orchestrator` | orchestrator.dfy | the loop of `create_dataset` |

Where the code and its description disagree, the model follows the code:

- The "clean-up of the thinning outputs" (create.py:367-369) changes nothing: it keeps every edge pixel, including those on original background (`EdgeLabels.CleanThinningIsIdentity`). Once the skeleton is a subset of the candidates, edges lie on field pixels anyway (`EdgeLabels.EdgesOnField`).
- `recode_crop_labels` treats a copy of the input labels as `edges`. So only pixels whose input label is 0 are recoded, not merely the pixels that are not edges.
- `check_slivers` imposes the edge class where the `edges` array equals 1, whatever class that array uses for edges.
- The merged-grid rule appends only the current row's grid to `merged_grids`, not every grid the tile overlaps.
- `make_crops_uniform` walks `np.unique(segments)`, segment 0 included.
- In multi-class mode, `make_crops_uniform` takes the mode over all labels of the segment, background included. A segment that is mostly crop can therefore become background (`Uniform.ModeCountsBackground`).
- `remove_noncrop` masks the last layer of the image variables it is given.

## Model

| member | source | states |
|---|---|---|
| Focal.CyclicShiftMoves | src/cultionet/data/create.py:56 | `np.roll` moves pixel (i, j) to (i + s0, j + s1) modulo the shape |
| Focal.RollOfEdgePad | src/cultionet/data/create.py:52-56 | rolling the one-pixel edge-padded raster by a unit shift reads the edge-padded neighbour in the opposite direction, never a wrapped pixel |
| Focal.StackAt | src/cultionet/data/create.py:62-73 | each of the eight rolled layers holds one edge-padded neighbour of the centre |
| Focal.StackIsWindow | src/cultionet/data/create.py:62-73 | the nine stacked layers at a pixel are exactly its edge-padded 3x3 window |
| Focal.CompareCount | src/cultionet/data/create.py:62-75 | the comparison is 0 where the pixel is <= 0, else one plus the number of matching neighbours |
| Focal.MatchesAll | src/cultionet/data/create.py:65-73 | between 0 and 8 neighbours match, and all 8 match exactly when the window is homogeneous |
| Focal.FocalCompareSpec | src/cultionet/data/create.py:62-75 | the comparison lies in 0..9, is 0 on pixels <= 0, and is 9 exactly on a positive pixel with a homogeneous window |
| Focal.Reduce | src/cultionet/data/create.py:94 | the minimum (maximum) over the stack is one of its values and bounds all of them from below (above) |
| Focal.FocalSumIsWindowSum | src/cultionet/data/create.py:81-94 | `focal_stat` with the sum is the sum of the edge-padded 3x3 window, centre included |
| Focal.FocalMinMaxBound | src/cultionet/data/create.py:81-94 | `focal_stat` with the minimum (maximum) bounds every pixel of the window |
| EdgeLabels.CandidateSpec | src/cultionet/data/create.py:350-358 | a pixel is an edge candidate exactly when it is a field pixel with fewer than 7 matching neighbours; candidates are 0/1 |
| EdgeLabels.CleanThinningIsIdentity | src/cultionet/data/create.py:363-369 | the cleanup of the thinning output leaves the binarized labels with the skeleton overlaid unchanged |
| EdgeLabels.EdgesOnField | src/cultionet/data/create.py:363-369 | when the skeleton is a subset of the candidates, an edge pixel lies on an original field pixel |
| EdgeLabels.BackgroundStays | src/cultionet/data/create.py:363-369 | with such a skeleton, original background is still background before fragment cleanup |
| EdgeLabels.FragmentRule | src/cultionet/data/create.py:371-376 | a 3x3 crop count below 2 gives background, one in 2..3 gives the edge class, else the label is kept |
| EdgeLabels.EdgeLabelClasses | src/cultionet/data/create.py:350-376 | the labels are 0, 1 or 2; a pixel is crop exactly when it is a field pixel off the skeleton whose crop count is at least 4 |
| EdgeLabels.NoCropNoLabel | src/cultionet/data/create.py:371-376 | a raster without crop pixels after the overlay gives background everywhere |
| EdgeLabels.AllBackground | src/cultionet/data/create.py:350-376 | a mask without fields gives labels without crop or edge |
| CloseEnds.CloseEdgeEndsSpec | src/cultionet/data/create.py:206-225 | the four sequential passes give at every pixel the closed form: top row from row 1, bottom row and side columns keep only their own 1s |
| CloseEnds.BorderIsBinary | src/cultionet/data/create.py:206-225 | every border pixel ends as 0 or 1 and no interior pixel changes |
| CloseEnds.CloseEdgeEndsIdempotent | src/cultionet/data/create.py:203-227 | closing the ends a second time changes nothing |
| CloseEnds.CloseTopInPlace | src/cultionet/data/create.py:207-210 | the top pass on the array leaves the top row closed from row 1 and every other pixel as it was |
| CloseEnds.CloseBottomInPlace | src/cultionet/data/create.py:212-215 | the bottom pass on the array keeps only the bottom row's 1s |
| CloseEnds.CloseColumnInPlace | src/cultionet/data/create.py:217-225 | a column pass on the array keeps only that column's 1s |
| CloseEnds.CloseEdgeEndsInPlace | src/cultionet/data/create.py:203-227 | the in-place passes leave the array equal to the closed labels |
| Recode.AlignPads | src/cultionet/data/create.py:179-182 | the aligned land cover agrees with the original on its extent, each row below it repeats its last row and each column right of it repeats its last column; alignment fails exactly for an empty or larger array of another shape |
| Recode.IndexOf | src/cultionet/data/create.py:185 | the position of the first crop code equal to the value, or the table length when none is |
| Recode.RecodesOnlyBackground | src/cultionet/data/create.py:175-196 | a pixel is recoded to a positive class exactly when its input label is 0 and its land-cover code is a crop code; in boundaries mode the class is 1 |
| Recode.CropIdsGapFree | src/cultionet/data/create.py:183-196 | multi-class ids lie in 0..K and each of 1..K is used, K being the number of crop codes present on background |
| Recode.CropIdsInjective | src/cultionet/data/create.py:185-196 | two recoded pixels share a multi-class id exactly when they share a crop code |
| Recode.WrittenBelowCounter | src/cultionet/data/create.py:193-196 | every id written so far is below the next counter value |
| Recode.RecodeStep | src/cultionet/data/create.py:185-196 | one loop iteration gives the pixels of the current code the current class and leaves every other pixel as it was |
| Recode.Contains | src/cultionet/data/create.py:195 | the scan is true exactly when some pixel holds the value |
| Recode.WriteCode | src/cultionet/data/create.py:191-193 | the masked assignment writes the value on background pixels of the code and leaves the rest |
| Recode.CounterWritten | src/cultionet/data/create.py:193-196 | after code k is written, some pixel holds the counter exactly when that code occurs on background, so the counter advances only then |
| Recode.RecodeCdlArray | src/cultionet/data/create.py:183-196 | the loop over the crop codes with its counter leaves a fresh array equal to the recoded labels |
| Recode.RecodeCropLabelsArray | src/cultionet/data/create.py:170-200 | a fresh array holding the recoded labels (1 exactly where the land cover is 1 when it is not CDL), or none where the padding fails; `edges` is the input labels |
| Segments.SegmentValuesSpec | src/cultionet/data/create.py:161-162 | a segment has values exactly when it occurs, and a segment whose pixels all carry c has only c |
| Segments.SegmentValueSource | src/cultionet/data/create.py:161-162 | every value of `labels[segments == s]` is the label of a pixel of segment s |
| Segments.SegmentValueIndex | src/cultionet/data/create.py:161-162 | the label of every pixel of segment s is among its values |
| Segments.SegmentValuesDepend | src/cultionet/data/create.py:161-162 | the values of a segment depend only on the labels of its own pixels |
| Segments.SegmentIsThin | src/cultionet/data/create.py:132-133 | the bounding-box test answers exactly whether the segment lies in one row or one column |
| Segments.Fill | src/cultionet/data/create.py:134 | `labels[segments == s] = v` writes v on segment s and leaves every other pixel |
| Segments.CollectSegment | src/cultionet/data/create.py:161-162 | the values read from the array are the segment's values |
| Segments.NextId | src/cultionet/data/create.py:146-148 | the next segment id is the smallest id above the last one, with a pixel carrying it, or none when no id is left |
| Uniform.CountPositive | src/cultionet/data/create.py:147 | the crop total is at most the segment area |
| Uniform.Mode | src/cultionet/data/create.py:163 | the mode is a value of the segment, no value is more frequent, and it is the smallest of the most frequent |
| Uniform.BoundariesRule | src/cultionet/data/create.py:150-165 | in boundaries mode a pixel becomes crop exactly when its segment's crop share exceeds one half, else background |
| Uniform.MultiClassRule | src/cultionet/data/create.py:150-165 | in multi-class mode a crop-majority segment takes its mode, any other segment becomes background |
| Uniform.ModeCountsBackground | src/cultionet/data/create.py:161-163 | a segment three-fifths crop, split over three crop ids, becomes background because the mode counts zeros |
| Uniform.UniformPerSegment | src/cultionet/data/create.py:145-165 | two pixels of one segment carry one label |
| Uniform.LabelOfConstant | src/cultionet/data/create.py:150-165 | a segment whose pixels all carry a label the rule can give keeps that label |
| Uniform.LabelOfNonNeg | src/cultionet/data/create.py:150-165 | non-negative labels give non-negative segment labels; in boundaries mode only 0 and 1 |
| Uniform.UniformizedIdempotent | src/cultionet/data/create.py:140-167 | uniformizing non-negative labels a second time changes nothing |
| Uniform.UniformizeSegment | src/cultionet/data/create.py:149-165 | one iteration writes the segment's label on its pixels and leaves every other pixel |
| Uniform.VisitSegment | src/cultionet/data/create.py:148-165 | one pass of the loop, at the smallest id not yet visited, extends the set of segments already uniform to that id |
| Uniform.MakeCropsUniform | src/cultionet/data/create.py:140-167 | the loop over the ascending segment ids leaves the array equal to the uniformized labels |
| Slivers.CheckSliversRule | src/cultionet/data/create.py:131-135 | a pixel on the edge mask is the edge class, a pixel of a sliver segment off it is background, any other pixel keeps its label |
| Slivers.OnlySliversAndEdgesChange | src/cultionet/data/create.py:131-135 | a pixel that changes is on the edge mask or on a sliver |
| Slivers.CheckSliversClasses | src/cultionet/data/create.py:131-135 | labels in 0..2 stay in 0..2 |
| Slivers.CheckSliversIdempotent | src/cultionet/data/create.py:125-137 | checking a second time with the same masks changes nothing |
| Slivers.ImposeEdges | src/cultionet/data/create.py:135 | every pixel on the edge mask becomes the edge class and the others keep their label |
| Slivers.VisitSliver | src/cultionet/data/create.py:131-134 | one pass of the loop, at the smallest positive id not yet visited, extends the set of slivers already cleared to that id |
| Slivers.CheckSlivers | src/cultionet/data/create.py:125-137 | the loop over the positive segment ids and the edge overlay leave the array equal to the checked labels |
| Noncrop.MaskDistancesAt | src/cultionet/data/create.py:36-38 | the masked layer keeps the distance on crop labels and is 0 elsewhere |
| Noncrop.MaskDistancesNonNeg | src/cultionet/data/create.py:36-38 | non-negative distances stay non-negative once masked |
| Focal.ShiftOfEdgePad | src/cultionet/data/create.py:40-45 | a unit roll of a raster padded by at least one pixel reads the edge-padded neighbour at the raster's own pixels |
| Noncrop.FourRollsOfPad | src/cultionet/data/create.py:40-45 | on the 5-pixel padding the four rolls read the four edge-padded neighbours |
| Noncrop.RollPair | src/cultionet/data/create.py:42-45 | a roll and its opposite read the two opposite neighbours |
| Noncrop.NeighbourMeanAt | src/cultionet/data/create.py:40-46 | the mean at every pixel is that of its four edge-padded neighbours |
| Noncrop.KeepCropRule | src/cultionet/data/create.py:47 | with non-negative distances a label is kept exactly when a 4-neighbour has a positive distance, else zeroed |
| Noncrop.MaskedNeighbour | src/cultionet/data/create.py:36-47 | a neighbour of the masked layer is positive exactly when it is a crop label with a positive distance |
| Noncrop.RemoveNoncropRule | src/cultionet/data/create.py:34-47 | a label survives exactly when some 4-neighbour is a crop label with a positive distance |
| Noncrop.IsolatedLabelRemoved | src/cultionet/data/create.py:31-49 | a pixel whose four neighbours are all non-crop loses its label |
| Noncrop.ReadLayer | src/cultionet/data/create.py:36 | the values read are the layer of the array |
| Noncrop.MaskLastLayer | src/cultionet/data/create.py:36-38 | the last layer is masked by the crop labels and the other layers keep their values |
| Noncrop.RemoveNoncrop | src/cultionet/data/create.py:31-49 | the other layers are unchanged, the last layer is masked, and the labels returned are the kept labels over the new layer |
| Distances.MaxOf | src/cultionet/data/create.py:297 | the segment maximum is one of its values and bounds all of them |
| Distances.Clip | src/cultionet/data/create.py:300 | the clipped value lies in [0, 1] and a value inside [0, 1] is unchanged |
| Distances.NormalizedInUnit | src/cultionet/data/create.py:300 | every normalised distance lies in [0, 1] |
| Distances.NormalizedRule | src/cultionet/data/create.py:282-300 | a sliver pixel is 0.1; a thick segment is its distance over a positive segment maximum, or 1 for an all-zero segment; other pixels are only clipped |
| Distances.MaxPixelIsOne | src/cultionet/data/create.py:294-297 | every thick segment has a pixel normalised to 1 |
| Distances.NormalizedMonotone | src/cultionet/data/create.py:294-300 | within a segment the normalisation keeps the order of the distances |
| Distances.ScaleSegment | src/cultionet/data/create.py:297 | the segment's pixels are divided by the maximum and the rest left |
| Distances.ClipAll | src/cultionet/data/create.py:300 | every pixel is clipped to [0, 1] |
| Distances.NormalizeSegment | src/cultionet/data/create.py:284-299 | one iteration gives a sliver 0.1 and divides a thick segment by its maximum, leaving every other pixel |
| Distances.NormalizeDistances | src/cultionet/data/create.py:274-302 | the loop over the positive segment ids and the clip leave the array equal to the normalised distances |
| Text.ParseNatToString | src/cultionet/data/create.py:516 | reading back the decimal form of a number gives the number |
| Text.ZeroPad3RoundTrip | src/cultionet/data/create.py:239 | `{i:03d}` is at least three characters long and reads back as i |
| Text.ZeroPad3Injective | src/cultionet/data/create.py:239 | distinct numbers have distinct padded forms |
| Text.LastField | src/cultionet/data/create.py:516 | `split('_')[-1]`: the longest suffix without an underscore, so the whole string when it has none and otherwise the text after its last underscore |
| Text.LastFieldOf | src/cultionet/data/create.py:516 | the last field of `prefix_field` is the field, whatever the prefix holds |
| Text.ParseIntRoundTrip | src/cultionet/data/create.py:516 | the decimal form of a number, with or without a minus sign, parses back to it |
| Text.ParseIntRefuses | src/cultionet/data/create.py:516 | a string with a character other than a digit after its first one is refused |
| Persistence.AugIds | src/cultionet/data/create.py:237-247 | a `ts-` transform has n_ts ids and any other transform one |
| Persistence.TimeSeriesIdsDistinct | src/cultionet/data/create.py:239 | the draws of a time-series transform have pairwise distinct ids |
| Persistence.ProcessedAppend | src/cultionet/data/create.py:236-252 | some id of two lists together is found exactly when some id of either is |
| Persistence.SaveFound | src/cultionet/data/create.py:554-556 | every saved id is found afterwards and every id found before still is |
| Persistence.SavedIsProcessed | src/cultionet/data/create.py:558-579 | after its samples are saved, a grid with an id counts as processed |
| Persistence.ProcessedAfterSave | src/cultionet/data/create.py:554-556 | saving more never makes a processed grid unprocessed |
| Persistence.SaveConcat | src/cultionet/data/create.py:558-579 | saving two lists of ids is saving one after the other |
| Persistence.SaveAug | src/cultionet/data/create.py:559-579 | the samples of one transform are saved under its ids |
| Persistence.SaveGrid | src/cultionet/data/create.py:558-579 | the saving loops save exactly the grid's ids, transform by transform |
| Persistence.IsGridProcessed | src/cultionet/data/create.py:230-254 | the flag is true exactly when some generated id has a file recording that id |
| Orchestrator.RenumberedOrder | src/cultionet/data/create.py:474-476 | zero classes stay zero and only they are zero; the others lie in 1..n and increase in table order |
| Orchestrator.RenumberedGapFree | src/cultionet/data/create.py:474-476 | every value 1..n is given to some nonzero class |
| Orchestrator.RenumberClasses | src/cultionet/data/create.py:474-476 | the counting loop computes the renumbered classes |
| Orchestrator.YearsRoundTrip | src/cultionet/data/create.py:515-517 | a group id ending in `_` and a year spans from the year before to that year |
| Orchestrator.YearsRefused | src/cultionet/data/create.py:516 | a group id whose last field holds a character other than a digit past its first has no year |
| Orchestrator.StepKeepsMerged | src/cultionet/data/create.py:463-471 | one row only appends to `merged_grids` |
| Orchestrator.RunKeepsMerged | src/cultionet/data/create.py:463-471 | `merged_grids` only grows over the loop |
| Orchestrator.RunConcat | src/cultionet/data/create.py:440-579 | the loop over two tables in turn is the loop over their concatenation, stopping at the first year error |
| Orchestrator.MergedSkip | src/cultionet/data/create.py:463-471 | a tile over several grids records its grid, and any later tile over several grids that include it is skipped: dropping it from the table leaves the outcome unchanged |
| Orchestrator.SkippedTilesSaveNothing | src/cultionet/data/create.py:497-507 | a tile under 5 pixels on a side, or an already-processed grid, saves nothing and adds no sample |
| Orchestrator.StepStore | src/cultionet/data/create.py:440-579 | a row leaves the processed directory as it was or saves exactly its ids, and loses no stored file |
| Orchestrator.RunKeepsFound | src/cultionet/data/create.py:440-579 | the loop never loses a file that records its own id |
| Orchestrator.RerunKeepsStore | src/cultionet/data/create.py:440-579 | re-running over the directory a run left behind saves nothing new |
| Orchestrator.RunTwice | src/cultionet/data/create.py:429-579 | running create_dataset twice over one table leaves the processed directory as the first run left it |
| Orchestrator.AnyIn | src/cultionet/data/create.py:465 | the scan is true exactly when some overlapped grid is already merged |
| Orchestrator.CreateDataset | src/cultionet/data/create.py:429-579 | the loop with its accumulators and early exits computes the recursive run over the rows |

## Left out

- Raster I/O, image scaling, land-cover reading and reprojection, and `torch.load`/`torch.save`: external effects. The processed directory is a map from file id to the train id inside the file.
- The foreign algorithms are inputs rather than models: skimage's thinning, scipy's connected-component labelling and `regionprops`, OpenCV's distance transform, and geopandas' clip, buffer, spatial index and reprojection.
- The crop-code table lives in a lookup module that is not part of this model. It is an input: its keys in table order.
- `augment` and the contents of a saved sample are foreign code. A sample is recorded by its grid, renumbered classes, year span and ids.
- Persistence.Save: assumes that the sample `augment` returns carries the `train_id` it was given, so the file `data_{id}.pt` records `id`; `augment` is not part of this model, and `SaveFound`, `SavedIsProcessed`, `ProcessedAfterSave`, `RerunKeepsStore` and `RunTwice` rest on this.
- `fill_field_gaps` (create.py:97-122) is left out: it is never called and relies on float NaN.
- `create_boundary_distances` (create.py:257-271) is left out: the segment map and distances are inputs of `Distances.NormalizeDistances`.
- The NaN and infinity handling of `nan_to_num` is left out because it is float semantics. `Distances.Scale` maps a zero segment maximum straight to 1.0.
- Distances.Scale: does not model a negative distance over a zero maximum, which numpy would send to minus infinity and clip to 0. Distance transforms are non-negative.
- Focal.FocalStat: only the sum, minimum and maximum are modelled. The default variance is a float statistic, and `getattr` by name is replaced by an enumeration.
- The order of the steps in `create_dataset` is not composed into one method. That order covers the land-cover branch (close, recode, uniformize, check slivers, remove non-crop, create.py:534-545), the fallback labelling (create.py:547-548), and the label arrays passed to the sample. Each step is modelled on its own.
- Orchestrator.Step: the tile's geometry is abstracted into the grids it overlaps and its height and width. Left out are the topology repair, the empty-geometry branches (create.py:442-459), the `grid_size` bounds override (create.py:480-483), and the zero labels of a tile without fields (create.py:492).
- Orchestrator.Years: the group id is always a string. Python's `int()` also accepts surrounding whitespace and non-ASCII digits, which `Text.ParseInt` refuses.
- Label arrays are `uint8` in create.py. The model uses unbounded integers, so a class id above 255 does not wrap.
- `check_slivers` and `make_crops_uniform` also return the region properties and the segment map. These come from foreign code and are not modelled.
- Recode.RecodeCropLabelsArray: requires the crop codes to be distinct, as the keys of a dictionary are.
