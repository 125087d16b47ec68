# Nuclei segmentation repair, tracking and intensity analysis in Dafny

This project models the discrete label-volume logic of a 3D+time nuclei
pipeline. A movie is a sequence of frames. One frame is a label volume: a map
from voxel (z, x, y) to a label, where 0 is background and every positive
value names one nucleus of that frame.

The model covers three parts.

- **Segmentation repair** (`NucleiSegmenter3D.py`), in modules `Subsets` and `Segmenter`:
  - the ordered power-set enumerator `all_possible_subsets`;
  - the degenerate-fragment repair;
  - the removal of nuclei on the two-voxel XY border band;
  - the classifier-guided merge of over-segmented fragments.
  The classifier and the "infinite solidity" test are function parameters over voxel sets.
- **Tracking** (`Nuclei3dTracker.py`), in modules `CentroidTracker`, `CentroidPool`, `CentroidPaint`, `CentroidRun` and `OverlapTracker`:
  - the greedy nearest-centroid trackers `Nuclei3dTracker` and `Nuclei2dTracker`. They build a pool of (label, centroid, frame) entries, pop references, scan the following frames for the closest entry within the distance threshold, and paint each track's id, cast to uint16, into zeroed frames;
  - the median-overlap tracker `NucleiOverlTracker`.
  Centroids and the square root are function parameters.
- **Measurements** (`AnalysisSaver.py`), in module `Analysis`:
  - the per-tag intensity and volume tables of `AnalysisSaver`;
  - the single-nucleus average-intensity traces of `ShowTraces`;
  - the inside/outside profiles of `SaveTracesSpatial`.
  An intensity is an integer sum over an object's voxels, and a volume is its voxel count.

Loops that change state are methods, with loop invariants. Each is proved equal to a specification function. The properties are proved about those functions as lemmas.

Where the code crashes on an input it is meant to handle, the model has two modes:
- `AsWritten` follows the code to the error;
- `Corrected` handles the input.
"## Findings" below lists these three cases:
- A tracker run on one object per frame is meant to give one track. The code as written raises on any frame holding exactly one object (finding 1).
- A frame whose entries earlier tracks have all taken is meant to end the track. The code as written raises at the minimum of an empty distance list (finding 2).
- An ambiguous overlap median is meant to leave the tag unpropagated. A whole-number median that is not a label of the next frame either raises at the lookup or tags an object the nucleus never touched (finding 3).

The merge step of the segmenter also fails on a frame with fewer than two objects, with `FeatureMatrixCollapsed`: `np.squeeze` collapses the feature matrix, and the slicing or the classifier call raises. Here the model follows the code in one mode only, and `Segmenter.MergeOverSegmented` states that failure in its contract.

Module `Volumes` holds the shared vocabulary:
- frames, objects and label sets;
- `Sorted`, which lists labels as `np.unique` does;
- `Paint`, which is `f[s] = l`;
- voxel sums.

## Model

| member | source | states |
|---|---|---|
| Subsets.AllPossibleSubsets | NucleiSegmenter3D.py:23-28 | The loop returns the combinations of size 1, then 2, up to s, concatenated: 2^s − 1 tuples. |
| Subsets.SubsetsCount | NucleiSegmenter3D.py:23-28 | `all_possible_subsets(s)` has exactly 2^s − 1 entries: none for s = 0, and 15 for four neighbours. |
| Subsets.SubsetsShape | NucleiSegmenter3D.py:23-28 | Every entry is a non-empty, strictly increasing tuple of indices below s. Entries are ordered by size, then lexicographically, so none repeats. |
| Subsets.SubsetsComplete | NucleiSegmenter3D.py:23-28 | Every non-empty, strictly increasing tuple of indices below s occurs. |
| Subsets.SubsetsLastIsAll | NucleiSegmenter3D.py:26-27 | The full index set {0, …, s−1} is the last entry. |
| Subsets.CombinationsCount | NucleiSegmenter3D.py:27 | `combinations(xs, k)` has binomial(\|xs\|, k) entries. |
| Subsets.CombinationsOrdered | NucleiSegmenter3D.py:27 | For increasing xs, the combinations come in strict lexicographic order. |
| Subsets.CombinationsComplete | NucleiSegmenter3D.py:27 | Every increasing k-tuple drawn from xs is among the combinations. |
| Segmenter.RingMeaning | NucleiSegmenter3D.py:59 | The ring that `expand_labels(mask, distance=1)` adds holds exactly the frame's voxels outside the object within Euclidean distance 1 of it. |
| Segmenter.FaceNeighboursAtDistanceOne | NucleiSegmenter3D.py:59 | A voxel's six face neighbours are exactly the voxels at Euclidean distance 1 from it. |
| Segmenter.DegenerateLabels | NucleiSegmenter3D.py:56-57 | The labels with infinite solidity, exactly those, in ascending order. |
| Segmenter.RepairOneFacts | NucleiSegmenter3D.py:59-62 | No touching label: nothing changes. Otherwise every voxel of the object takes the smallest touching label, and no other voxel changes. |
| Segmenter.RepairAllFacts | NucleiSegmenter3D.py:58-62 | The repair loop keeps the frame's voxels and changes only voxels whose label it visits. It creates no label. |
| Segmenter.RepairLoop | NucleiSegmenter3D.py:58-62 | The loop over `uus` computes the repair, label by label, in order. |
| Segmenter.RepairDegenerate | NucleiSegmenter3D.py:56-62 | Only voxels of degenerate objects change, background stays background, and no label is created. |
| Segmenter.ExcludeBorder | NucleiSegmenter3D.py:64-74 | An object with any voxel in the XY band is zeroed entirely, and every other voxel is unchanged. No labelled voxel stays in the band. The z faces are not examined. |
| Segmenter.FlaggedLabels | NucleiSegmenter3D.py:82-83 | The labels the classifier calls over-segmented, exactly those, in ascending order. |
| Segmenter.OverMask | NucleiSegmenter3D.py:84-86 | `over_mtx` holds the frame's label on flagged objects and 0 elsewhere. |
| Segmenter.NeighbourLabels | NucleiSegmenter3D.py:90-92 | The labels of the mask in the ring around the flagged object: ascending, distinct and nonzero, never the object itself. |
| Segmenter.LastWellSegmented | NucleiSegmenter3D.py:111-112 | The index of the last candidate classified 0, or none exactly when no candidate is classified 0. |
| Segmenter.CandidatesWithin | NucleiSegmenter3D.py:98-104 | Every candidate contains the flagged object and lies inside the mask. |
| Segmenter.BuildCandidates | NucleiSegmenter3D.py:99-104 | The appending loop builds one candidate per subset, in enumeration order. |
| Segmenter.ChooseAmongSubsets | NucleiSegmenter3D.py:96-113 | With two or more neighbours, the chosen nucleus is the last candidate the classifier accepts, or the object alone. |
| Segmenter.MergedWithin | NucleiSegmenter3D.py:93-113 | Whatever the classifier says, the new nucleus contains the flagged object and lies inside the mask. |
| Segmenter.NewNucleusSingleNeighbour | NucleiSegmenter3D.py:94-95 | With one neighbour, the new nucleus is the disjoint union of the two objects. Its size is the sum of their sizes. |
| Segmenter.NewNucleusConsumed | NucleiSegmenter3D.py:90-93 | An object already absorbed by an earlier merge has no neighbours and yields an empty nucleus. |
| Segmenter.MergeOne | NucleiSegmenter3D.py:90-117 | One iteration writes the new nucleus with the flagged label into the frame and erases it from the mask. |
| Segmenter.MergeAllFacts | NucleiSegmenter3D.py:84-117 | Over the merge loop:<br>- the mask only loses voxels;<br>- every voxel left in the mask has the same label in the frame;<br>- voxels outside flagged objects never change;<br>- every rewrite writes a flagged label. |
| Segmenter.MergeLoop | NucleiSegmenter3D.py:88-117 | The loop over the flagged labels computes the merge, step by step. |
| Segmenter.MergeOverSegmented | NucleiSegmenter3D.py:78-117 | Fails exactly when the frame has fewer than two objects. Otherwise objects not flagged keep every voxel, background stays background, and every change writes a flagged label over a flagged object. |
| CentroidTracker.NearMeansSquaredBelow | Nuclei3dTracker.py:43-45 | With a true square root, `ppp < dist_thr` holds exactly when the threshold is positive and the squared scaled distance is below its square. |
| CentroidTracker.AtTimeMembers | Nuclei3dTracker.py:41 | The selection for frame uu keeps exactly the pool entries of that frame. |
| CentroidTracker.ArgMinIsMin | Nuclei3dTracker.py:46 | `np.argmin` picks an entry at minimal distance that is strictly closer than every entry before it. |
| CentroidTracker.WithoutMembers | Nuclei3dTracker.py:48-49 | The deletion drops exactly the entries with the match's frame and label, and shortens the pool. |
| CentroidTracker.WithoutRemovesOne | Nuclei3dTracker.py:48-49 | With distinct keys, the deletion removes exactly one occurrence of the match. |
| CentroidTracker.ScanFacts | Nuclei3dTracker.py:40-51 | A scan takes one entry per frame at consecutive frames, each within the threshold of the reference, never of the last match. It stops at the first frame with no entry within the threshold. Matches and remaining pool are a split of the pool. |
| CentroidTracker.TracksFacts | Nuclei3dTracker.py:33-51 | Every pool entry ends in exactly one track. Ids run 1, 2, …, and every track is chained to its reference. |
| CentroidTracker.CorrectedTracksSucceed | Nuclei3dTracker.py:40-51 | The corrected tracker never fails. |
| CentroidTracker.TracksModesAgree | Nuclei3dTracker.py:34-51 | Wherever the code as written does not fail, the corrected tracker gives the same tracks. |
| CentroidTracker.EmptyFrameCrash | Nuclei3dTracker.py:41-45 | Three nuclei in frame 0 and two in frame 1: as written, `ppp.min()` fails on the empty frame. Corrected, the third track ends. |
| CentroidPool.FrameEntriesMembers | Nuclei3dTracker.py:24-25 | A frame contributes exactly its objects, one entry per label, each with its centroid and frame. |
| CentroidPool.PoolFacts | Nuclei3dTracker.py:20-26 | The pool holds every object of every frame once, ordered by frame and then by label. No two entries share a (frame, label) pair. |
| CentroidPool.BuildPoolFacts | Nuclei3dTracker.py:19-26 | The construction fails exactly on an empty movie, or, as written, at the first frame holding one object. Otherwise it returns the pool; corrected, it never fails on a non-empty movie. |
| CentroidPool.SingleObjectCrash | Nuclei3dTracker.py:20-24 | A one-object frame: as written, the construction fails. Corrected, it gives one entry and one track. |
| CentroidPaint.IdWrapsAtRange | Nuclei3dTracker.py:39 | The uint16 cast makes an id that is a multiple of 65536 paint nothing. |
| CentroidPaint.PaintTracksValue | Nuclei3dTracker.py:39-47 | Painting adds to each voxel exactly what the tracks holding its object add. |
| CentroidPaint.AddedOwner | Nuclei3dTracker.py:39-47 | With distinct keys, an object receives exactly its track's id modulo 65536. |
| CentroidRun.RunTracksFacts | Nuclei3dTracker.py:13-53 | The tracks of a run lie within the movie, have distinct keys, and hold exactly the movie's objects. |
| CentroidRun.BackgroundValue | Nuclei3dTracker.py:17-47 | Background voxels stay 0. |
| CentroidRun.ObjectValue | Nuclei3dTracker.py:36-47 | Each object voxel holds the id of the one track that took the object, modulo 65536. |
| CentroidRun.TrackedFacts | Nuclei3dTracker.py:13-53 | The corrected tracker never fails on a non-empty movie. The output has the movie's shape, and background stays 0. Every object voxel holds (k + 1) mod 65536 for the track k holding it, and tracks are chained. |
| CentroidRun.BuildPoolLoop | Nuclei3dTracker.py:19-26 | The frame-by-frame loop builds the pool, or stops where the construction fails. |
| CentroidRun.ScanFrames | Nuclei3dTracker.py:40-51 | The `for uu` loop with `break` computes the scan. |
| CentroidRun.NextTrack | Nuclei3dTracker.py:36-51 | One outer pass pops the reference, scans, and returns a strictly smaller pool with distinct keys. |
| CentroidRun.PaintTrack | Nuclei3dTracker.py:39-47 | Painting a track's members in order, in place. |
| CentroidRun.PaintNext | Nuclei3dTracker.py:39-47 | The output array holds the tracks painted so far, plus one. |
| CentroidRun.TrackGreedy | Nuclei3dTracker.py:33-51 | The while loop over a shrinking pool, painting an array of frames in place, computes the tracked movie. |
| CentroidRun.Track3D | Nuclei3dTracker.py:13-53 | `Nuclei3dTracker` gives the tracked movie with z scaled by `pix_size_Z` and x, y by `pix_size_XY`. |
| CentroidRun.Track2D | Nuclei3dTracker.py:56-98 | `Nuclei2dTracker` gives the tracked movie with z dropped. |
| OverlapTracker.KthMeaning | Nuclei3dTracker.py:122 | Label l is the k-th sorted overlap label exactly when at most k voxels lie below l and more than k at or below it. |
| OverlapTracker.MajorityMedian | Nuclei3dTracker.py:122 | A label under more than half of the overlap voxels is the median. |
| OverlapTracker.TargetFacts | Nuclei3dTracker.py:120-124 | Per tag:<br>- an empty overlap propagates nothing;<br>- a majority label, or some overlap label for an odd count, is propagated;<br>- every target is an object of the frame; corrected, one the tag touches;<br>- as written, it fails only on a missing label. |
| OverlapTracker.TargetOf | Nuclei3dTracker.py:120-124 | The median, its integer test and the label lookup compute the target. |
| OverlapTracker.PaintTagsLast | Nuclei3dTracker.py:119-125 | The last tag, in order, whose target is an object decides that object's value. An object no tag targets keeps its value. |
| OverlapTracker.NextFacts | Nuclei3dTracker.py:113-125 | Output frame t copies whole segmented objects over a zero background and holds only tags of frame t − 1. Each object gets the greatest tag whose median picks it, or 0. |
| OverlapTracker.PropagateTags | Nuclei3dTracker.py:115-125 | The `for nuc_tag` loop computes output frame t. |
| OverlapTracker.FramesFacts | Nuclei3dTracker.py:105-126 | Frame 0 is segmented frame 0, and each later frame is the step from the one before. Only the code as written fails, and only at a lookup. |
| OverlapTracker.FramesErrIsLookup | Nuclei3dTracker.py:105-126 | A failed run happens only in the code as written, and only at a missing label lookup. |
| OverlapTracker.FramesOkSteps | Nuclei3dTracker.py:105-126 | In a successful run, frame 0 is segmented frame 0 and every later frame is the step from the frame before it. |
| OverlapTracker.OverlFacts | Nuclei3dTracker.py:101-128 | Fails exactly on an empty movie, or, as written, at a lookup. Corrected, it never fails otherwise. One frame per frame. No tag is created after frame 0. |
| OverlapTracker.OverlTrack | Nuclei3dTracker.py:101-128 | The frame loop computes the tracked movie. |
| OverlapTracker.StillMovieKept | Nuclei3dTracker.py:105-125 | If the segmentation never changes, every nucleus keeps its tag to the last frame: the output is the movie. |
| OverlapTracker.EvenMedianCrash | Nuclei3dTracker.py:122-124 | As written, an overlap on objects 2 and 4 gives median 3. This fails when there is no object 3. |
| OverlapTracker.EvenMedianStranger | Nuclei3dTracker.py:122-125 | As written, the same overlap paints an untouched object 3 with the tag. |
| OverlapTracker.EvenMedianSkipped | Nuclei3dTracker.py:122-125 | Corrected, that tag is not propagated. |
| Analysis.MeasureObject | AnalysisSaver.py:30 | The intensity sum and voxel count of one object. |
| Analysis.AllTagsFacts | AnalysisSaver.py:20 | `nucs_tags` is ascending and holds exactly the labels found in some frame. |
| Analysis.IndexOf | AnalysisSaver.py:29 | The lookup gives the first position of the label among the tags. |
| Analysis.AbsentTag | AnalysisSaver.py:23-24 | A tag absent from a frame measures (0, 0), the zero the table starts with. |
| Analysis.RegionProps | AnalysisSaver.py:27 | A frame's labels, ascending, each with its intensity and volume. |
| Analysis.FillColumn | AnalysisSaver.py:27-30 | Column tt ends holding each tag's measurement in frame tt. Other columns are unchanged. |
| Analysis.Accumulate | AnalysisSaver.py:20-35 | Cell (i, t) of each table is tag i's intensity and volume in frame t, (0, 0) if absent. Red and green volumes agree. |
| Analysis.ColumnTotal | AnalysisSaver.py:26-30 | A frame's column adds up to the frame: its volumes sum to the number of labelled voxels, its intensities to their total. |
| Analysis.ShowTraces | AnalysisSaver.py:105-122 | The frame loop computes the traces, or the frame where the lookup fails. |
| Analysis.TracesOk | AnalysisSaver.py:113-119 | The trace exists exactly when the nucleus is in every frame. Otherwise the error names the first frame without it. |
| Analysis.BackgroundHasNoTrace | AnalysisSaver.py:114-115 | Asking for tag 0 fails at frame 0. |
| Analysis.TracesValues | AnalysisSaver.py:113-122 | One average per frame and channel. Each average times the volume is the intensity sum, both channels see the same volume, and the tag is a table tag. |
| Analysis.SplitFrame | AnalysisSaver.py:142-147 | A frame's objects with centroid y beyond the line sum to the inside profile, the others to the outside one. |
| Analysis.SaveTracesSpatial | AnalysisSaver.py:133-147 | Row t of `prof_in` and `prof_out` holds frame t's inside and outside profiles. |
| Analysis.ProfilesPartition | AnalysisSaver.py:143-147 | Inside and outside split the labelled voxels, so the two profiles add up to the frame's column total. |

## Left out

- Progress bars, Qt widgets and the classifier file load are GUI and I/O.
- Segmenter.MergeOverSegmented: has no `Corrected` mode for a frame with fewer than two objects. The code gives no sign of what the merge should return there, so the model keeps only the failure.
- The xlsx report and the `np.save` calls in `AnalysisSaver` are file output.
- `SaveTracesSpatial`'s background section cannot be modelled: it uses an undefined name and raises NameError.
- Smoothing, Otsu threshold, distance transform, peak detection and watershed (NucleiSegmenter3D.py:44-54) are floating-point library code, not part of this model.
- Region features and solidity are floating-point library code, replaced by parameters: the classifier and the degeneracy test are functions of an object's voxel set.
- The per-frame chaining of repair, border removal, relabelling and merge is not modelled (NucleiSegmenter3D.py:42-55, 76, 119). Each edit is an operation on the frame it is given. The connected-component relabelling `label()` is not part of this model.
- Segmenter.ExcludeBorder takes the frame's dimensions as a parameter, which the source reads from the array shape.
- Centroids from `regionprops_table` are a function parameter. Distances are reals, and `np.sqrt` is the parameter `root`. Floating-point rounding is not modelled.
- CentroidRun.TrackGreedy: the source paints each match as the scan finds it. The model scans a track's frames first, then paints the finished track before the next reference is popped. The scan touches only the pool and the painting only the output, so the frames are the same.
- OverlapTracker.PropagateTags: builds each output frame as a value, which OverlapTracker.OverlTrack then stores; the source writes into `nucs_trck[tt]` in place.
- Analysis.SaveTracesSpatial: sums each frame's profiles in locals, then stores the row; the source adds to the row object by object. The `elif <=` branch is modelled as the `else`, since real centroids are never NaN.
- Analysis.SaveTracesSpatial: takes the line position as an integer `yc`, which the source gets with `int()` from the ROI widget.
- Analysis.Accumulate, Analysis.ShowTraces and Analysis.SaveTracesSpatial require one channel frame per movie frame. The source raises IndexError otherwise, and the model does not model that error.
- Analysis.Average: returns 0.0 for a zero volume; the source divides by zero there. The model's traces never reach that case: a missing nucleus fails the lookup first.
- The `uint16` dtype of label volumes is modelled only for the centroid trackers' ids. The other stages keep unbounded labels.

## Findings

| source | as written | input that shows it | evidently intended | confidence | as-written member | corrected member |
|---|---|---|---|---|---|---|
| Nuclei3dTracker.py:20-26 | `np.squeeze` turns the centroid matrix of a frame with exactly one object into a vector, so `shape[1]` raises | a movie whose frame 0 holds a single nucleus (one voxel labelled 1) | the frame contributes its one pool entry, and the nucleus gets a track | not executed | CentroidPool.SingleObjectCrash | CentroidPool.BuildPoolFacts |
| Nuclei3dTracker.py:41-45 | `ppp.min()` raises on a frame whose entries earlier tracks already took | three nuclei at one place in frame 0 and two in frame 1 (threshold above 0) | a frame with no remaining entry ends the track, like a failed match | not executed | CentroidTracker.EmptyFrameCrash | CentroidTracker.CorrectedTracksSucceed |
| Nuclei3dTracker.py:122-125 | an even overlap has the mean of its two middle labels as median; a whole mean that is not an overlapping label passes the test, so the lookup raises, or an untouched object gets the tag | tag 1 on two voxels that lie in objects 2 and 4 of the next frame: median 3 | propagate only to an object the nucleus overlaps | not executed | OverlapTracker.EvenMedianStranger | OverlapTracker.EvenMedianSkipped |
