# fo_perception: models and proofs

Dafny models of the algorithmic cores of the perception stack, with proofs of what they are for.
`dafny verify dfyconfig.toml` checks the whole project.

## What is modelled

- **Assignment** (`Permutations`, `Hungarian`, `HungarianSolver`). The hand-written Hungarian solver, loop by loop over its
  arrays `u`, `v`, `p`, `way`, `minv` and `used`. The proof carries dual feasibility, complementary slackness and the
  alternating tree through every phase; weak duality then makes the final matching a true optimum. The 1e9 sentinel is kept
  and proved sound for every cost matrix with entries in [0, 5e8), which contains the padding value 1e6.
- **Association** (`Association`). With the 2.0 gate, the accepted pairs are a largest one-to-one matching of pairs inside
  the gate, and among those one of least total distance.
- **Filter** (`Kalman`). The 4 by 4 matrix code over exact reals refines a three-parameter recurrence and stays positive
  definite on every run.
- **Track table** (`TrackTable`, `TrackLaws`, `TrackerContract`, `LidarKalmanNode`). The node as a class whose callback
  updates the table in place, and laws over single callbacks and over whole runs: ids, lifetimes, and which tracks are
  published. `TrackerContract` says field by field what a callback makes of the tracks. `LidarPipeline` puts clustering and
  tracking together: what is published are boxes of different density clusters.
- **Clustering** (`Dbscan`, `DbscanClustering`). The queue-driven expansion computes the one canonical density partition, in
  whatever order the radius search lists neighbours; boxes are tight, so the detections are a function of the cloud.
- **UDP record** (`SignalCodec`, `RecordStore`). The saturating two's complement codec with its 64-bit integers, and the
  two-buffer store under interleaved steps.
- **Sensor fusion** (`SensorFusion`, `SF2Publisher`). Greedy one-to-one consumption with the camera as main sensor.
- **Smaller cores.** Greedy suppression by overlap (`Overlap`, `Suppression`), pairing of two GNSS streams (`GnssPairing`), shard and merge
  (`Sharding`), the bit writer (`BitPacking`), the frame cache (`FrameCache`).

Floats and doubles are exact reals. Clock readings, random draws, the radius search, the Euclidean norm, the bearing
function and the image decoder are parameters. `tracking_test_paper.cpp` and `tracking_velo.cpp` repeat the solver and the
tracker of `tracking.cpp`; they are modelled once. (In `tracking_velo.cpp` a new track starts with cost 0 instead of 1e6; the
next callback overwrites it, and the publish filter does not read it from a track without a miss.)

Where code and comment disagree, the model follows the code: the frame cache is described as LRU but is first in, first out.

Three properties do not hold on every input, and each has its exact condition and a failing input:

- The cache behaves as a least-recently-used one exactly when each frame that it drops was requested less recently than the
  other cached ones (`FrameCache.AgreesWithLru`, and for the order list `FrameCache.KeepsLruOrder`); requests x, y, x, z with
  two places tell the two apart (`FrameCache.HitsDoNotProtect`).
- The signed codec meets its round trips at widths up to 62 on every input. At width 63 the rounded sum of the encoder leaves
  the 64-bit integers for values of -1/2 and below (`SignalCodec.EncodeSignedDefined`), and the subtraction of the decoder
  for codes with the top bit set (`SignalCodec.SignedCodeRoundTrip`); `SignalCodec.WidestFails` gives an input for each.
- The sampler's own length check passes exactly when the padding is no longer than the dataset (`Sharding.PaddingFits`);
  `Sharding.TooManyRanks` fails it.

## Model

| member | source | states |
|---|---|---|
| HungarianSolver.Solve | src/ws_clustering/src/tracking.cpp:55-118 | for any rectangular cost matrix with entries in [0, 5e8): the answer is one-to-one, leaves exactly max(0, n-m) rows at -1, is cheapest among all matchings of that size, and comes with a dual certificate over the padded square |
| HungarianSolver.Pad | src/ws_clustering/src/tracking.cpp:59-64 | the square has the real matrix in its corner and 1e6 elsewhere |
| HungarianSolver.Scan | src/ws_clustering/src/tracking.cpp:80-92 | unused columns take the smaller of their old value and the reduced cost from j0, remembering j0 when it wins; the returned column is real, unused and a nearest one |
| HungarianSolver.Shift | src/ws_clustering/src/tracking.cpp:94-101 | the rows of used columns gain delta once each, used columns lose it, and minv of the others loses it |
| HungarianSolver.AfterScan | src/ws_clustering/src/tracking.cpp:76-92 | the scanned column joins the alternating tree, tight with an earlier tree row, and every outside column knows its least reduced cost from the tree |
| HungarianSolver.AfterShift | src/ws_clustering/src/tracking.cpp:94-102 | a shift by the least outside reduced cost keeps dual feasibility, the tight matching, the tree and the outside minima, and makes the nearest column tight |
| HungarianSolver.FreeColumnExists | src/ws_clustering/src/tracking.cpp:103 | while fewer rows are matched than there are columns, some column is free |
| HungarianSolver.PotentialBounds | src/ws_clustering/src/tracking.cpp:72-91 | with costs in [0, B): row potentials in [0, B), column potentials in (-B, 0], reduced costs in [0, 2B); for B = 5e8 no reduced cost reaches the sentinel |
| HungarianSolver.Search | src/ws_clustering/src/tracking.cpp:71-103 | the search ends at a free column, all rows matched before stay matched and tight, and way leads back from the free column through the tree to slot 0 |
| HungarianSolver.Augment | src/ws_clustering/src/tracking.cpp:105-109 | the walk ends at slot 0, row i is matched, every earlier row is still matched, and matched cells are tight |
| HungarianSolver.MatchRows | src/ws_clustering/src/tracking.cpp:66-110 | after one phase per row every row of the square is matched, with feasible potentials tight on the matching |
| HungarianSolver.Read | src/ws_clustering/src/tracking.cpp:112-116 | the read-out gives each real row its column, or -1 when that column is padding |
| HungarianSolver.ProvenIsOptimal | src/ws_clustering/src/tracking.cpp:55-118 | a certified answer is a cheapest permutation of the square and an optimal assignment of the real matrix |
| Hungarian.CertifiedIsCheapest | src/ws_clustering/src/tracking.cpp:66-110 | weak duality: feasible potentials tight on a permutation make it cheapest among all permutations |
| Hungarian.ReadOutSize | src/ws_clustering/src/tracking.cpp:112-117 | the read-out is one-to-one on real columns with exactly min(n, m) rows assigned |
| Hungarian.PaddedCost | src/ws_clustering/src/tracking.cpp:61-64 | the cost of a permutation of the square is the cost of its read-out plus 1e6 for every row of the square left over |
| Hungarian.CheapestIsOptimal | src/ws_clustering/src/tracking.cpp:112-117 | a cheapest permutation of the square reads out as a cheapest matching of full size |
| Association.AcceptedCost | src/ws_clustering/src/tracking.cpp:445-453 | pairs outside the gate cost as much as leaving the row unmatched |
| Association.GatedOptimum | src/ws_clustering/src/tracking.cpp:445-475 | with at most 500000 possible pairs, the pairs that pass the gate are as many as possible and, among that many, of least total distance |
| SmallMatrices.InverseIsInverse | src/ws_clustering/src/tracking.cpp:361 | the two by two inverse multiplies back to the identity |
| Kalman.PredictRefines | src/ws_clustering/src/tracking.cpp:337-347 | on block covariances the matrix prediction is a + 2 dt b + dt^2 c + 0.05, b + dt c, c + 0.05 |
| Kalman.CorrectRefines | src/ws_clustering/src/tracking.cpp:352-367 | on block covariances the innovation is invertible and the matrix correction is 0.2a/(a+0.2), 0.2b/(a+0.2), c - b^2/(a+0.2) |
| Kalman.PredictKeepsGood | src/ws_clustering/src/tracking.cpp:343-346 | prediction over a positive time keeps a > 0, b >= 0, ac - b^2 > 0 and raises the position variance |
| Kalman.CorrectKeepsGood | src/ws_clustering/src/tracking.cpp:356-367 | correction keeps a > 0, b >= 0, ac - b^2 > 0, lowers the position variance, and leaves it below 0.2 |
| Kalman.RunRefinesAxes | src/ws_clustering/src/tracking.cpp:337-384 | on every run from 100 I the full covariance is the block matrix of the three-parameter recurrence, which depends on elapsed times only, and the innovation determinant is positive |
| Kalman.HealthyIsPositiveDefinite | src/ws_clustering/src/tracking.cpp:360-361 | the invariant means symmetry and x'Px > 0 for every nonzero x |
| Kalman.MatchBlends | src/ws_clustering/src/tracking.cpp:359-367 | the corrected position is a strict convex combination of prediction and measurement with weight a/(a+0.2), and the posterior position variance is below the prior one and below 0.2 |
| Kalman.MatchVelocity | src/ws_clustering/src/tracking.cpp:363-377 | the velocity after a match, per axis, as 0.7 of the corrected velocity plus 0.3 of the implied one, with 10 ms in place of a non-positive time |
| Kalman.UpdateIsAxisWise | src/ws_clustering/src/tracking.cpp:350-379 | the matrix update and the implied velocity equal the formulas for the single entries |
| Kalman.AxisUpdateBlends | src/ws_clustering/src/tracking.cpp:359-367 | those formulas move the position to a strict convex combination and cut the variance below 0.2 |
| Kalman.PredictMoves | src/ws_clustering/src/tracking.cpp:339-345 | prediction moves the position by velocity times time |
| TrackTable.ProbeIsFirstFree | src/ws_clustering/src/tracking.cpp:155-162 | the probe finds the cyclically first free id, and fails only when all 256 ids are live |
| TrackTable.FreshIdIsFirstFree | src/ws_clustering/src/tracking.cpp:151-163 | with distinct ids, allocation fails exactly on a table of 256 tracks and otherwise gives the first free id of the cyclic order |
| TrackTable.AllocatesFirstFree | src/ws_clustering/src/tracking.cpp:151-163 | the id is free, and no free id lies less far ahead of the next id, going round from 255 to 0 |
| TrackTable.AtMostAllIds | src/ws_clustering/src/tracking.cpp:151-163 | distinct ids in 0..255 bound the table by 256 |
| TrackTable.MatchKeepsHealthy | src/ws_clustering/src/tracking.cpp:478-482 | the measurement update of a track keeps its covariance positive definite |
| TrackLaws.LoopServes | src/ws_clustering/src/tracking.cpp:471-515 | after any number of detections, each is served by the track it matched or a new one of its own unless all ids are live, unmatched tracks are untouched, and ids are distinct |
| TrackLaws.SlotState | src/ws_clustering/src/tracking.cpp:435-515 | a track serves a detection and has no miss, or it is an old one that was not matched, aged by one miss and with cost 1e6 |
| TrackLaws.AdvanceKeepsValid | src/ws_clustering/src/tracking.cpp:435-521 | every callback keeps distinct ids in 0..255, at most 256 tracks, next id in 0..255, misses in 0..10 and positive definite covariances |
| TrackLaws.MatchedStays | src/ws_clustering/src/tracking.cpp:475-482 | a matched track stays in the table with no miss |
| TrackLaws.UnmatchedAges | src/ws_clustering/src/tracking.cpp:435-441 | an unmatched track with fewer than 10 misses stays with one more |
| TrackLaws.UnmatchedLeaves | src/ws_clustering/src/tracking.cpp:517-521 | an unmatched track with 10 misses is erased and its id is not given away in the same callback |
| TrackLaws.PublishedMatchDetections | src/ws_clustering/src/tracking.cpp:471-544 | the published tracks are in bijection with the detections that were not refused an id: each such detection has a published track with its box and no miss, every published track is one of these, no id is published twice, and there are as many tracks as detections not refused |
| TrackLaws.Lifetime | src/ws_clustering/src/tracking.cpp:435-521 | over runs: a track survives exactly 10 consecutive callbacks without a match and is erased by the 11th |
| TrackLaws.RunStaysValid | src/ws_clustering/src/tracking.cpp:424-521 | over every run from the empty table the table invariant holds and every innovation is invertible |
| TrackerContract.MatchedIsCorrected | src/ws_clustering/src/tracking.cpp:435-482 | after a callback a matched track is its old self predicted to the frame and corrected by its detection: every field |
| TrackerContract.MissedIsPredicted | src/ws_clustering/src/tracking.cpp:435-441 | a track without a match is predicted only, one miss older, with cost 1e6 |
| TrackerContract.UnmatchedStarts | src/ws_clustering/src/tracking.cpp:484-511 | a detection without a match starts a track at its position, at rest, with covariance 100 I and an id of no old track, unless 256 tracks are there by then |
| TrackerContract.AdvanceIsTracked | src/ws_clustering/src/tracking.cpp:435-521 | these are all the tracks that there are after a callback |
| TrackerContract.CostsAreDistances | src/ws_clustering/src/tracking.cpp:443-453 | the association costs are the distances from the detections to the predicted positions below 2, and 1e6 otherwise |
| TrackerContract.FreshIsPublished | src/ws_clustering/src/tracking.cpp:543-544 | what is published are the tracks with no miss, all of them, in the order of the table |
| TrackerContract.TracksAreFilterRuns | src/ws_clustering/src/tracking.cpp:424-521 | over every run of callbacks, the covariance of every track is that of a filter run from 100 I |
| LidarTracking.LidarKalmanNode.AllocateTrackID | src/ws_clustering/src/tracking.cpp:151-163 | fails only on a table of 256 tracks; otherwise returns the free id that lies least far ahead of the next id, and moves the next id behind it |
| LidarTracking.LidarKalmanNode.Prediction | src/ws_clustering/src/tracking.cpp:337-347 | the stepwise matrix code moves the position by velocity times time and turns the covariance entries into a + 2 dt b + dt^2 c + 0.05, b + dt c, c + 0.05 |
| LidarTracking.LidarKalmanNode.KalmanUpdate | src/ws_clustering/src/tracking.cpp:350-384 | the stepwise matrix code, entry by entry: position x + g (z - x) with g = a/(a+0.2), velocity 0.7 of the corrected and 0.3 of the implied one, covariance 0.2a/(a+0.2), 0.2b/(a+0.2), c - b^2/(a+0.2), and the norm of the implied velocity |
| LidarTracking.LidarKalmanNode.AgeTracks | src/ws_clustering/src/tracking.cpp:435-441 | every track is predicted over the time since its last match and counts one more miss |
| LidarTracking.LidarKalmanNode.BuildCosts | src/ws_clustering/src/tracking.cpp:443-453 | each cell is the distance if that is inside the gate, else 1e6 |
| LidarTracking.LidarKalmanNode.Associate | src/ws_clustering/src/tracking.cpp:455-457 | the accepted part of the assignment is lexicographically best, also when there is nothing to match |
| LidarTracking.LidarKalmanNode.RecordCosts | src/ws_clustering/src/tracking.cpp:459-467 | accepted pairs leave their distance with the track, all others get 1e6 |
| LidarTracking.LidarKalmanNode.HandleDetections | src/ws_clustering/src/tracking.cpp:471-515 | after the loop the table is that of which the laws speak, each detection having updated its track, started one, or been refused |
| LidarTracking.LidarKalmanNode.Publish | src/ws_clustering/src/tracking.cpp:543-544 | publishes exactly the tracks that the filter lets through, in order |
| LidarTracking.LidarKalmanNode.Callback | src/ws_clustering/src/tracking.cpp:424-544 | keeps the invariant, and for a lexicographically best matching by distances to the predicted positions: matched tracks are predicted and corrected, others predicted only and erased after the 11th miss, unmatched detections start tracks unless 256 ids are live, nothing else is in the table, and what is published are the tracks with no miss, in order |
| LidarPipeline.PublishedServe | src/ws_clustering/src/tracking_velo.cpp:415-542 | the published tracks serve different detections and carry their boxes |
| LidarPipeline.PublishedAreClusters | src/ws_clustering/src/tracking_velo.cpp:182-542 | every published box holds all points of a density cluster and is reached by them on all six sides, the cluster passes the size filter, and no cluster is published twice |
| LidarPipeline.OnCloud | src/ws_clustering/src/tracking_velo.cpp:415-542 | clustering and tracking one after the other: the published boxes are those of different clusters of the one canonical density partition, the detections of that partition take the table to the next one, and the published tracks are those with no miss |
| DensityReach.GrownIsPartition | src/ws_clustering/src/tracking_velo.cpp:222-282 | clusters grown from core seeds are disjoint, cover exactly the core neighbourhoods, and hold two core points together iff they are connected through core points |
| DensityReach.ConnectedIsSymmetric | src/ws_clustering/src/tracking_velo.cpp:228-265 | connection through core points is symmetric |
| DbscanClustering.FreshComponent | src/ws_clustering/src/tracking_velo.cpp:224-230 | everything connected to an unvisited core point is unvisited and in no cluster |
| DbscanClustering.GrowthIsComplete | src/ws_clustering/src/tracking_velo.cpp:246-282 | when the queue is empty the grown set holds every core point connected to the seed |
| DbscanClustering.GrowthStep | src/ws_clustering/src/tracking_velo.cpp:248-281 | handling one queued point keeps the flags, the waiting neighbours, nearness to the seed and the tight box |
| DbscanClustering.AddLatest | src/ws_clustering/src/tracking_velo.cpp:267-281 | a border point reached by several clusters belongs to the earliest |
| DbscanClustering.Visit | src/ws_clustering/src/tracking_velo.cpp:251-265 | a first visit marks the point and queues the neighbours of a core point |
| DbscanClustering.Take | src/ws_clustering/src/tracking_velo.cpp:267-281 | an unclustered point is flagged, joins the cluster and widens the box; a clustered one changes nothing |
| DbscanClustering.Expand | src/ws_clustering/src/tracking_velo.cpp:236-282 | the queue loop ends with every neighbour of a visited core point clustered and the box tight |
| DbscanClustering.Clustering | src/ws_clustering/src/tracking_velo.cpp:218-318 | each cluster of the canonical density partition that the size filter lets through yields, in order, one detection: its box holds every point and is reached on all six sides, its reference point has the least x and the middle y; the other clusters yield none |
| DbscanClustering.DetectedEncloses | src/ws_clustering/src/tracking_velo.cpp:286-315 | the box of a cluster, from the running least and greatest coordinates, holds every point of the cluster and has one on each face |
| DbscanClustering.KeptIffNotDiscarded | src/ws_clustering/src/tracking_velo.cpp:298-304 | the size filter, on the points: ground, thin plates in the air, flat or tall boxes, the vehicle itself and wide boxes are discarded, and nothing else |
| DbscanClustering.DetectionsAreDetermined | src/ws_clustering/src/tracking_velo.cpp:218-318 | what the clustering promises about the points leaves one possible list of detections |
| DensityReach.GrownIsCanonical | src/ws_clustering/src/tracking_velo.cpp:222-282 | starting each cluster from the first unvisited core point puts the clusters in the order of their least core points |
| DensityReach.CanonicalIsUnique | src/ws_clustering/src/tracking_velo.cpp:222-282 | two density partitions in that order that give contested border points to the earliest cluster are equal, cluster by cluster |
| DensityReach.ListOrderDoesNotMatter | src/ws_clustering/src/tracking_velo.cpp:230-262 | the order in which the radius search lists neighbours, and so the order of the queue, does not change the clusters |
| SignalCodec.EncodeSignedDefined | src/ros2_udp/src/udp_package/src/UDP_node_v4.1.cpp:756-773 | the encoder is defined iff the width is below 63 or the value is above -1/2, and gives the nearest integer of the clamped value modulo 2^bit |
| SignalCodec.SignedRoundTrip | src/ros2_udp/src/udp_package/src/UDP_node_v4.1.cpp:756-841 | decoding an encoded value gives floor(clamp(v) + 1/2), for negative values too, wherever the encoder is defined |
| SignalCodec.SignedError | src/ros2_udp/src/udp_package/src/UDP_node_v4.1.cpp:756-841 | a value in range comes back within half a unit, ties going up |
| SignalCodec.SignedMonotone | src/ros2_udp/src/udp_package/src/UDP_node_v4.1.cpp:756-841 | decoding after encoding keeps the order of values |
| SignalCodec.SignedCodeRoundTrip | src/ros2_udp/src/udp_package/src/UDP_node_v4.1.cpp:756-841 | a code decodes iff its width is below 63 or its top bit is clear, the subtraction overflowing otherwise, and each code that decodes is the encoding of the integer it decodes to |
| SignalCodec.WidestFails | src/ros2_udp/src/udp_package/src/UDP_node_v4.1.cpp:756-841 | inputs that fail at width 63: encoding -1, and decoding the code 2^63 - 1 |
| SignalCodec.UnsignedRoundTrip | src/ros2_udp/src/udp_package/src/UDP_node_v4.1.cpp:775-851 | at every width 1..63 the unsigned encoder is defined and decodes to floor(clamp(v) + 1/2) |
| SignalCodec.UnsignedError | src/ros2_udp/src/udp_package/src/UDP_node_v4.1.cpp:775-851 | a value in range comes back within half a unit |
| SignalCodec.UnsignedMonotone | src/ros2_udp/src/udp_package/src/UDP_node_v4.1.cpp:775-790 | larger values get codes that are not smaller |
| SignalCodec.RangeReassembles | src/ros2_udp/src/udp_package/src/UDP_node_v4.1.cpp:499-505 | the two 6-bit halves reassemble to the 12-bit code, within 0.05 of a range in [0, 409.5] |
| SignalCodec.AngleRateError | src/ros2_udp/src/udp_package/src/UDP_node_v4.1.cpp:486-491 | a clamped angle rate comes back within 0.025 |
| RecordStore.RunHoldsRecord | src/ros2_udp/src/udp_package/src/UDP_node_v4.1.cpp:334-352 | after any steps the write buffer holds the one logical record and the other buffer that record as of the last swap |
| RecordStore.SendsAreSnapshots | src/ros2_udp/src/udp_package/src/UDP_node_v4.1.cpp:334-352 | under every interleaving of callbacks, swaps and sends no update is lost and each send transmits the logical record as of the preceding swap |
| RecordStore.MsgSubscriber.Callback | src/ros2_udp/src/udp_package/src/UDP_node_v4.1.cpp:665-689 | a callback rewrites the write buffer and leaves the other buffer and the index alone |
| RecordStore.MsgSubscriber.SwapBuff | src/ros2_udp/src/udp_package/src/UDP_node_v4.1.cpp:334-343 | the record is copied to the spare buffer, which becomes the write buffer |
| RecordStore.MsgSubscriber.SendBuff | src/ros2_udp/src/udp_package/src/UDP_node_v4.1.cpp:345-352 | sends the buffer that is not written to and changes nothing |
| RecordStore.MsgSubscriber.Timer | src/ros2_udp/src/udp_package/src/UDP_node_v4.1.cpp:285-286 | swap and send without a callback in between transmit the record as it is |
| Overlap.IoUIsSymmetric | src/ros2_udp/src/fo_fusion/src/SF2Publisher.cpp:328-338 | the overlap of two rectangles does not depend on their order |
| Overlap.IoUIsRatio | src/ws_clustering/src/tracking copy.cpp:89-109 | for sizes that are not negative the overlap lies in [0, 1] |
| Overlap.IoUOfSelf | src/ws_clustering/src/tracking copy.cpp:89-109 | a rectangle with positive sizes overlaps itself by 1 |
| Overlap.CommonPoints | src/ws_clustering/src/tracking copy.cpp:92-99 | a point lies in both rectangles iff it lies between the greater of the lower edges and the lesser of the upper edges |
| Overlap.IoUAtLeast | src/ros2_udp/src/fo_fusion/src/SF2Publisher.cpp:328-338 | the overlap is at least t > 0 iff the union is not empty and the common area is at least t times the union |
| Overlap.IoUAbove | src/ws_clustering/src/tracking copy.cpp:89-109 | the overlap is above t iff the common area is above t times the union, for every t |
| Overlap.IoUOfDisjoint | src/ws_clustering/src/tracking copy.cpp:89-109 | rectangles without a common point overlap by 0 |
| Overlap.IoUOfNested | src/ws_clustering/src/tracking copy.cpp:89-109 | the overlap of a rectangle with one around it is the quotient of their areas |
| Overlap.IoUIsOneOnlyForEqual | src/ws_clustering/src/tracking copy.cpp:89-109 | only equal rectangles overlap by 1 |
| Suppression.SelectionIsMaximal | src/ws_clustering/src/tracking copy.cpp:116-135 | the kept boxes are an order-preserving selection without a pair above the threshold, and each dropped box is above it with an earlier kept one |
| Suppression.SuppressionIsIdempotent | src/ws_clustering/src/tracking copy.cpp:112-148 | a second run keeps everything |
| Suppression.StrikeOut | src/ws_clustering/src/tracking copy.cpp:123-134 | a later box is removed iff a kept box so far overlaps it above the threshold |
| Suppression.Select | src/ws_clustering/src/tracking copy.cpp:116-135 | the two loops compute the greedy selection |
| Suppression.KeepListIsGreedy | src/ws_clustering/src/tracking copy.cpp:116-135 | the kept boxes are exactly those that are clear, by areas, of the kept ones before them |
| Suppression.ApplyNMS | src/ws_clustering/src/tracking copy.cpp:112-148 | both vectors are cut to the same kept entries, in order; a box is kept iff no earlier kept box has more than the threshold share of their union in common with it |
| SensorFusion.NextChoice | src/ros2_udp/src/fo_fusion/src/SF2Publisher.cpp:370-385 | the first object not consumed that overlaps is one that no earlier camera object took, and it is marked |
| SensorFusion.FusionIsOneToOne | src/ros2_udp/src/fo_fusion/src/SF2Publisher.cpp:341-388 | each lidar and each radar object is taken by at most one camera object, which takes the first that passes the test and was not taken before; field by field, a fused object has the ids of the lidar object and the ids and velocity components of the radar object it took, and the camera values otherwise |
| SensorFusion.OverlapsByArea | src/ros2_udp/src/fo_fusion/src/SF2Publisher.cpp:328-338 | the overlap test on two objects: their common area, widths along x and lengths along y, is at least a tenth of their union |
| SensorFusion.FuseAllIsFusion | src/ros2_udp/src/fo_fusion/src/SF2Publisher.cpp:341-388 | the fusion with that test: each camera object takes the first lidar object and the first radar object that overlaps it by area and was not taken before |
| SensorFusion.FusionKeepsCameraObjects | src/ros2_udp/src/fo_fusion/src/SF2Publisher.cpp:366-388 | the fused list keeps the camera objects' number, order, positions, sizes, types and ids |
| SensorFusion.FusionIsMaximal | src/ros2_udp/src/fo_fusion/src/SF2Publisher.cpp:366-388 | a camera object left without a match overlaps only objects that earlier ones took |
| SF2.SF2Publisher.CallbackLidarObj | src/ros2_udp/src/fo_fusion/src/SF2Publisher.cpp:114-158 | replaces the lidar list by unconsumed objects, each with the fields of its message entry, numbered in 8 bits |
| SF2.SF2Publisher.CallbackRadarObj | src/ros2_udp/src/fo_fusion/src/SF2Publisher.cpp:284-324 | replaces the radar list by unconsumed objects with the fields of the message entries away from the origin, in order; sizes that are not positive count as 1 |
| SF2.SF2Publisher.CallbackCameraObj | src/ros2_udp/src/fo_fusion/src/SF2Publisher.cpp:160-282 | fuses iff a lidar list waits, always from unconsumed lidar and radar lists; the camera objects have the fields of the message and the size of their type, the result is the one-to-one fusion, and what is away from the origin is published, in order |
| SF2.SF2Publisher.FindLidar | src/ros2_udp/src/fo_fusion/src/SF2Publisher.cpp:370-384 | the loop finds the first lidar object not consumed that overlaps |
| SF2.SF2Publisher.FindRadar | src/ros2_udp/src/fo_fusion/src/SF2Publisher.cpp:346-364 | the loop finds the first radar candidate not consumed that overlaps |
| SF2.SF2Publisher.FuseOne | src/ros2_udp/src/fo_fusion/src/SF2Publisher.cpp:368-388 | one camera object takes at most one lidar and one radar object, which are marked as consumed, and carries their ids and the radar velocity |
| SF2.SF2Publisher.Fusion | src/ros2_udp/src/fo_fusion/src/SF2Publisher.cpp:341-506 | the camera list becomes its one-to-one fusion with the lists, what is away from the origin is published in order, consumed lidar objects stay consumed, radar objects do not, and the flags are cleared |
| SF2.SF2Publisher.Publish | src/ros2_udp/src/fo_fusion/src/SF2Publisher.cpp:448-478 | publishes all fused objects but those at the origin, in order |
| SF2.VisibleIsSelection | src/ros2_udp/src/fo_fusion/src/SF2Publisher.cpp:448-455 | the objects away from the origin are published, all of them and in order |
| SF2.RadarObjsAreRead | src/ros2_udp/src/fo_fusion/src/SF2Publisher.cpp:284-316 | the radar objects are those of the entries away from the origin, in order, field by field |
| GnssPairing.BuffersHoldLatest | src/ws_gnss/fo_spi_info/calculate_heading.py:50-72 | on every run each buffer holds the last 50 fixes of its topic |
| GnssPairing.PublishedInOrder | src/ws_gnss/fo_spi_info/calculate_heading.py:64-92 | with each topic in order, under any interleaving the published times of week strictly increase and each publication pairs received base and rover fixes of one time of week |
| GnssPairing.WindowIsComplete | src/ws_gnss/fo_spi_info/calculate_heading.py:50-92 | a time of week is published if and only if it came in on both topics with fewer than 50 fixes of the earlier one's topic between the two arrivals |
| GnssPairing.CalculateHeading.CbBase | src/ws_gnss/fo_spi_info/calculate_heading.py:64-67 | the callback takes one step of the pairing and publishes the heading from the base to the rover of the pair |
| GnssPairing.CalculateHeading.CbRover | src/ws_gnss/fo_spi_info/calculate_heading.py:69-72 | the callback takes one step of the pairing and publishes the heading from the base to the rover of the pair |
| GnssPairing.CalculateHeading.Find | src/ws_gnss/fo_spi_info/calculate_heading.py:57-62 | finds the oldest buffered fix of a time of week |
| GnssPairing.CalculateHeading.TryPublish | src/ws_gnss/fo_spi_info/calculate_heading.py:74-92 | publishes the heading from base to rover, and remembers the time of week, iff it is new and on both sides |
| Sharding.PaddingFits | src/Documents/OpenPCDet/pcdet/datasets/__init__.py:45-46 | the sampler's check passes iff the padding is no longer than the dataset |
| Sharding.ShardElement | src/Documents/OpenPCDet/pcdet/datasets/__init__.py:48-51 | index k of rank r is entry k R + r of the padded list, and all ranks get the same number |
| Sharding.MergeResults | src/Documents/OpenPCDet/pcdet/utils/common_utils.py:240-250 | the loops interleave the parts up to the shortest and cut to the size |
| Sharding.MergeUndoesShard | src/Documents/OpenPCDet/pcdet/utils/common_utils.py:240-250 | merging the results of all shards gives the results of the original order, each once, for any order and any number of ranks that the check admits |
| Sharding.TooManyRanks | src/Documents/OpenPCDet/pcdet/datasets/__init__.py:45-46 | three ranks fail on a dataset of one |
| BitPacking.SetOneBit | src/Documents/dump/UDPclient_ros2_v1.py:84 | setting one bit of a byte changes no other |
| BitPacking.SetBits | src/Documents/dump/UDPclient_ros2_v1.py:79-84 | every bit of the field whose digit of the value is 1 is set, most significant first, by the numbers that the bytes are; all other bits stay |
| BitPacking.PacketBitIsDigit | src/Documents/dump/UDPclient_ros2_v1.py:82-84 | bit q of a packet is the binary digit of weight 2^(7 - q mod 8) of byte q div 8 |
| BitPacking.BitIsDigit | src/Documents/dump/UDPclient_ros2_v1.py:84 | the masks of the writer stand for the digits of a byte, most significant first |
| BitPacking.ValueBitIsDigit | src/Documents/dump/UDPclient_ros2_v1.py:81 | shifting n times and taking the last bit gives the digit of weight 2^n, for negative values too |
| BitPacking.ByteIsField | src/Documents/dump/UDPclient_ros2_v1.py:82-84 | a whole byte of a packet, read most significant bit first, is the number that the byte is |
| BitPacking.WriteFields | src/Documents/dump/UDPclient_ros2_v1.py:79-84 | writing fields that do not overlap into new bytes: on the bytes, each field reads back as the low bits of its value and all other bits are 0 |
| BitPacking.ReadIsLowBits | src/Documents/dump/UDPclient_ros2_v1.py:81 | a field that holds the low bits of a value reads as the value modulo 2^length, for negative values too |
| BitPacking.FieldsReadBack | src/Documents/dump/UDPclient_ros2_v1.py:79-84 | after any writes to fields that do not overlap, each field of a zeroed packet reads back and every other bit is 0 |
| BitPacking.SignedFieldRoundTrip | src/Documents/dump/UDPclient_ros2_v1.py:23-84 | a signed signal that is encoded, written and read back decodes to the value with its fraction cut off, or to the nearest bound of the range |
| FrameCache.CacheHoldsLatestMisses | src/ws_cam2/bag_image_player.py:151-169 | after any requests the cache holds the frames decoded last, without duplicates and within its size |
| FrameCache.AgreesWithLru | src/ws_cam2/bag_image_player.py:151-169 | after each request the cache holds the frames that a least-recently-used cache would hold, if and only if every frame that is dropped was requested less recently than all other cached frames |
| FrameCache.KeepsLruOrder | src/ws_cam2/bag_image_player.py:151-169 | the order list is that of a least-recently-used cache after each request, if and only if every hit is on the frame decoded last |
| FrameCache.LruIsByLastUse | src/ws_cam2/bag_image_player.py:151-169 | the list that the two are compared with is in the order of the last requests |
| FrameCache.HitsDoNotProtect | src/ws_cam2/bag_image_player.py:164-169 | inputs on which they differ: with two places, requests x, y, x, z leave y and z, where a least-recently-used cache holds x and z |
| FrameCache.FrameIndex.GetImage | src/ws_cam2/bag_image_player.py:151-162 | the image is that of decoding the frame directly, counting from the end for negative indices, with an index error outside, and the cache invariant is kept |
| FrameCache.FrameIndex.CachePut | src/ws_cam2/bag_image_player.py:164-169 | the new frame enters, and the oldest leaves when the size is exceeded |

## Left out

- HungarianSolver.Solve: costs that are negative or at least half the sentinel are outside its precondition; the association only produces costs in [0, 2) and 1e6.
- SignalCodec.SignedRoundTrip: doubles are exact reals, so the loss of precision near 2^62 at the widest fields is not modelled.
- RecordStore.SendsAreSnapshots: each mutex-protected function is one atomic step; the mutex itself and the socket are not modelled.
- GnssPairing.PublishedInOrder: the weekly rollover of the time of week, where a topic's times decrease, is outside its precondition.
- Overlap.IoUIsRatio: says nothing for negative sizes, which the detectors do not produce.
- Floating-point rounding, NaN and infinities throughout.
- The height scaling of the cloud, voxel grid, cropping and the KdTree of the clustering: their result is the neighbour lists.
- The lidar-main branch of the fusion, which the shipped setting never reaches.
- Trigonometry: the bearing between two positions and the local coordinates of static objects.
- Message layout, markers, publishers, sockets, serial ports and the shuffling of the sampler (any order is covered).
- The base class of the sampler computes the samples per rank; PyTorch's documented rounding up is used.
- Alive counters, fail flags, fix flags and timing averages, which are single-branch facts.
