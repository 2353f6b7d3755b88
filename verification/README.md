# Verified model of the superevent service

This project models the core of a gravitational-wave alert service in Dafny and
proves properties of it. The service groups candidate events into superevents,
keeps them across restarts, localizes them with external sky maps, and matches
them with gamma-ray, radio, neutrino and optical triggers.

Layout, one module per file unless noted:

- **Clustering.** `Clustering` holds the data and the meaning of one operation
  (against a brute-force nearest window); `SupereventCreator.dfy` (module
  `Creator`) the stateful clusterer; `ClusteringRuns` whole runs;
  `OrderedTimes` the ordered-map queries.
- **Persistence and mirrors.** `Persistence` saves to and loads from Redis,
  `Restart` runs with crashes, `Mirrors` adds the archive rows and sky-map
  blobs, `Pipeline` is the object of `gw-clusterer`, `Provenance` says whose sky
  map a superevent shows, `Redelivery` what an event handed in again does.
- **Sky maps.** `Nuniq` packs HEALPix cells, `Fits` fixes the file format byte by
  byte, `FitsRoundTrip` proves reading undoes writing, `FitsReading` says which
  arbitrary bytes the reader accepts, `FitsHeader` gives the literal text of a
  written file, `FitsIo` holds the two writers and the parser with its cursor, `Posterior` the joint map over reals,
  `JointSkymap` the joint map from file to file.
- **Time.** `Calendar` for dates, GPS time and the alert's inverse, `Timestamps`
  (with `Texts`) for the textual form.
- **Storage.** `SkymapStore` is object storage behind a read-through cache.
- **Significance and matches.** `Significance` for false-alarm rates and
  p-values, `CrossMatches` for rescans and operator decisions, `Interleaving` for
  rescans that overlap them, `Tiers` for confidence tiers, `Boom` for the optical turn-on bracket, `Sorting` for the
  stable library sort these use.
- `Wrappers`, `Decimal`, `ByteStrings` (in `Bytes.dfy`) and `Reals` are shared.

Times, densities and rates are reals. 64-bit counters, ids and file words are
bounded explicitly. Stores are maps; JSON, compression, centroids, contours,
logarithms, the timestamp reader of `Boom` and "the cell's centre lies in the
region" are arbitrary functions with only the laws written out beside them. The
window width is taken as nonnegative.

The JSON law is asked only of the superevents actually stored when a process
dies: each decodes to itself (`Persistence.Faithful`). Encoders into bytes that
meet it exist for any finitely many superevents
(`Persistence.SomeEncoderIsFaithful`). For the program it is an assumption:
`serde_json` is built without its `float_roundtrip` feature (Cargo.toml:41), so a
time may come back changed in the last bit.

## Where the code differs from its documentation or from an obvious claim

- The leap-second table (src/gcn.rs:56-78) counts earlier leap seconds in its
  thresholds but is compared with a count free of them: the k-th offset starts
  k-1 seconds late, up to 17 s (`Calendar.OffsetIsRightIff`,
  `Calendar.AlertInvertsIff`).
- `cleanup_before` is documented to return superevents in arrival order; it
  returns them by window centre. `Creator.RemovalOutOfArrivalOrder` gives an
  input where the two differ, `Creator.RemovalIsInArrivalOrderIff` says exactly
  when they agree. Nothing in the repository calls `cleanup_before`.
- A reload recovers the id counter from the open ids only, so after a cleanup of
  the newest superevent an id is issued again (`Restart.CleanedUpIdReturns`, with
  the exact condition in `Restart.RestartIsExactIff` and, over runs,
  `Restart.CrashRunIsExactIff`). The windows survive all the same; a late map may
  then reach another window (`Restart.MapsAgreeIff`).
- A failed index read at start-up is taken for an empty store, and the next save
  wipes the windows (`Persistence.FailedIndexReadForgets`).
- A sky map is attached by superevent id alone and may belong to another event.
  `Provenance.MapBelongsIff` says exactly when it belongs to the preferred one;
  a check of the result's graceid before attaching would tell. The map may be
  that of an outranked event (`Provenance.StaleMapRun`) or of an event that a
  crash lost after its request went out and before the save
  (`Provenance.LostPromotionRun`, `Provenance.LostOpeningRun`).
- Ids are reused without any cleanup too: the id of a lost event goes to the next
  window opened exactly when the event had opened one
  (`Provenance.LostIdReturnsIff`).
- After a crash while draining, rows and blobs may be ahead of the restored
  clusterer (`Mirrors.TornLeavesMapsAheadIff`).
- An event redelivered after its save is recorded twice
  (`Mirrors.RedeliveryAfterSaveRepeats`), and in another superevent when a nearer
  one has been opened since (`Redelivery.RedeliveryReturnsIff`,
  `Redelivery.RedeliveryMayMove`). The consumer stores no offsets
  (src/kafka.rs:205-206), so a restart may redeliver the whole stream.
- A PATCH that lands between a rescan's lookup of a match and its write is
  overwritten although every access works (`Interleaving.OvertakenPatch`);
  `Interleaving.FlagIsOrigins` says whose decision a match shows under any
  interleaving.
- A row's centre is lost to the next event of its superevent, whose upsert leaves
  it unset (`Mirrors.CentreLastsUntilNextEvent`).
- A centre patched onto a row whose own write failed can leave a summary that no
  longer reads back (`Pipeline.FailedRowWriteSpoilsIff`).
- A failed lookup during a rescan reads as "not associated", and recomputing a
  match always clears the flag (`CrossMatches.FlaggedIff`).
- The remapped false-alarm rate has no upper guard and turns negative past e times
  the maximum (`Significance.RemappedIsNegativePastE`); such a match is listed
  first and gets the top tier (`CrossMatches.RunawayMatchRanksFirst`).
- A refused cache write or delete can leave a stale entry
  (`SkymapStore.RefusedWriteIsStaleIff`, `SkymapStore.RefusedDeleteIsStaleIff`);
  so can a lookup that fills the cache after the object changed
  (`SkymapStore.LateFillIsStaleIff`, `SkymapStore.LateFillRun`).
- GRB map keys are ambiguous when an instrument or trigger name contains a slash
  (`SkymapStore.GrbKeyIsSharedIff`).

## Model

| member | source | states |
|---|---|---|
| `Clustering.NeighboursSuffice` | src/clustering.rs:264-284 | looking only at the last centre before a time and the first from it on gives the nearest of all centres within half a window, the earlier on a tie, and none exactly when no window contains the time |
| `Clustering.NearestIsUnique` | src/clustering.rs:264-284 | the brute-force nearest centre is well defined |
| `Clustering.ProcessKeepsValid` | src/clustering.rs:188-236 | processing keeps both maps in step, ids distinct and issued, members inside their window, the preferred event the first loudest, and open centres more than half a window apart |
| `Clustering.AttachKeepsValid` | src/clustering.rs:239-258 | attaching a sky map keeps the same invariant |
| `Clustering.CleanupKeepsValid` | src/clustering.rs:171-186 | dropping old windows keeps the same invariant |
| `Clustering.StaysOpenIff` | src/clustering.rs:171-186 | a cleanup leaves a window open, and unchanged, if and only if the cutoff is not past its end |
| `Clustering.AtMostTwoWindows` | src/clustering.rs:264-284 | no time lies in three open windows |
| `Clustering.FormatIdInjective` | src/clustering.rs:286-291 | distinct counters give distinct ids, also past six digits |
| `Clustering.IdNumberOfFormat` | src/state.rs:115-127 | parsing an id gives back its counter for every 64-bit value, and nothing for larger ones |
| `Clustering.IdNumberIff` | src/state.rs:115-127 | an id has number n if and only if it is S followed by a numeral for n that fits in 64 bits |
| `Clustering.IdsInFull` | src/clustering.rs:286-291 | ids are S and at least six digits, zero padded |
| `Creator.SupereventCreator.constructor` | src/clustering.rs:123-130 | a new clusterer is the empty state |
| `Creator.SupereventCreator.FromPersisted` | src/clustering.rs:140-153 | each persisted superevent is filed under its own centre, in list order, and the counter is the one given |
| `Creator.SupereventCreator.FindClosestT0` | src/clustering.rs:264-284 | the two-neighbour lookup returns the nearest centre of all |
| `Creator.SupereventCreator.Process` | src/clustering.rs:188-236 | the whole new state and the reported update equal the specification, so the lookup that "cannot fail" does not |
| `Creator.SupereventCreator.AttachSkymap` | src/clustering.rs:239-258 | the map goes to the one window with that id, or nothing changes and nothing is reported |
| `Creator.SupereventCreator.CleanupBefore` | src/clustering.rs:171-186 | exactly the windows ending before the cutoff leave both maps and come back ordered by centre |
| `Creator.NewestHasGreatestNumber` | src/clustering.rs:286-291 | ids number the windows in the order they were opened |
| `Creator.RemovalIsInArrivalOrderIff` | src/clustering.rs:171-186 | the returned superevents are in order of arrival if and only if the expiring windows were opened in the order of their centres |
| `Creator.RemovalOutOfArrivalOrder` | src/clustering.rs:171-186 | events at 100 and then 50, and a cleanup past both: the later arrival comes back first |
| `Creator.Summarize` | src/clustering.rs:302-314 | exactly the open graceids are listed; when they are distinct, each with its superevent and its preferred mark |
| `Creator.OnePreferredEach` | src/clustering.rs:302-314 | such a summary names the holding superevent for every member and marks exactly one graceid preferred per superevent, that of its preferred event |
| `ClusteringRuns.EventsAreConserved` | src/clustering.rs:171-236 | over any run, open and dropped superevents together hold exactly the ingested events, with multiplicity |
| `ClusteringRuns.MembersKeepArrivalOrder` | src/clustering.rs:188-236 | members are listed in arrival order and the preferred one is the earliest of maximal SNR |
| `ClusteringRuns.FarEventsCommute` | src/clustering.rs:188-236 | two events more than a full window apart give the same state in either order, up to exchanging the two fresh ids when both open a window |
| `ClusteringRuns.TwinsRun` | src/clustering.rs:171-258 | states equal up to exchanging two ids stay so under any further operations |
| `ClusteringRuns.ReorderedStream` | src/clustering.rs:188-236 | such an exchange anywhere in a stream is invisible in every later state but for those two names |
| `Persistence.RedisStore.Save` | src/state.rs:38-62 | the stored hash and sorted set hold exactly the open windows, whatever was there before |
| `Persistence.RedisStore.Load` | src/state.rs:79-112 | loads by ascending centre, takes a failed index read for an empty one, skips index entries without a payload, stops at the first payload that cannot be read or decoded, and rebuilds the clusterer with the recovered counter |
| `Persistence.NextSeqFromIds` | src/state.rs:115-127 | one past the largest parsable id, or the number of ids when none parses |
| `Persistence.NextSeqIs` | src/state.rs:115-127 | the recovered counter is one past the greatest number among the ids, or their count when none has a number |
| `Persistence.CollectsIff` | src/state.rs:79-112 | loading fails if and only if a listed payload cannot be read or decoded, and reports the first; otherwise it yields the stored payloads decoded, in order |
| `Persistence.WindowsRestored` | src/state.rs:38-112 | whatever order equal scores come in, loading a saved image gives back every window and the index exactly, as long as the stored superevents decode to themselves |
| `Persistence.SomeEncoderIsFaithful` | src/state.rs:38-112 | for any finitely many superevents some encoder into bytes meets that demand |
| `Persistence.FailedIndexReadForgets` | src/state.rs:90-93 | after a failed index read the clusterer comes up empty, equal to the saved one only if that was new, and the next save leaves nothing stored |
| `Persistence.CounterRecovered` | src/state.rs:115-127 | the recovered counter lies past every open id, never past the lost one, and just past one of them |
| `Restart.RestartKeepsWindows` | src/state.rs:38-127 | a crash and reload changes at most the counter, which stays past every open id |
| `Restart.RestartIsExactIff` | src/state.rs:79-127 | the reload is exact if and only if no id was issued yet or the newest id is still open; otherwise the next id was issued before |
| `Restart.RestartIsPossible` | src/state.rs:38-112 | from every valid state whose superevents survive the encoding a save and reload lead somewhere |
| `Restart.CleanedUpIdReturns` | src/clustering.rs:171-186 | one event, a cleanup past its window, a crash: the reload hands out the same id again |
| `Restart.CrashRunIsExactIff` | src/state.rs:38-127 | any run, cleanups included, is reproduced exactly at every point if and only if at each crash the newest superevent is still open or none was opened |
| `Restart.NewestStaysOpen` | src/clustering.rs:188-258 | in runs without cleanup the newest id is always open |
| `Restart.CrashesAreInvisible` | src/state.rs:38-127 | a cleanup-free run from an empty clusterer reaches the same state with any crashes as with none |
| `Restart.CrashesKeepWindows` | src/state.rs:38-127 | whatever is done, cleanups and sky maps included, crashes change no window, member or preferred event at any point of the run |
| `Restart.MapsAgreeIff` | src/clustering.rs:239-258 | the sky maps agree too, at every point, if and only if each map attached reaches the window it would have reached without crashes or changes nothing either way |
| `Mirrors.TransitionKeepsRecoverable` | src/bin/gw_clusterer.rs:244-360 | every transition, crashes inside events and drains included, leaves a Redis image of the clusterer; a crash restores the state last saved |
| `Mirrors.TransitionKeepsHealth` | src/bin/gw_clusterer.rs:244-283 | each event with its results, each late result and each reload leaves the Redis image and the archive rows equal to memory; a reload changes nothing |
| `Mirrors.StoresAgreeWithMemory` | src/bin/gw_clusterer.rs:244-360 | the same after every run that mixes events, late, duplicated or reordered results and reloads |
| `Mirrors.RowTells` | src/archive.rs:188-206 | a row in step with memory shows the window's bounds, its members' graceids in order, the first loudest member as preferred, and the stored map's size and time |
| `Mirrors.ArchiveTells` | src/archive.rs:188-206 | so every row does, after every run without crashes inside events or drains |
| `Mirrors.CentreLastsUntilNextEvent` | src/bin/gw_clusterer.rs:504-543 | a row shows the centre of the map just attached and loses it to the next event of its superevent, no other row being touched |
| `Mirrors.ImageAgreesWithMemory` | src/bin/gw_clusterer.rs:244-360 | with crashes anywhere the Redis image still loads back to the clusterer after every run |
| `Mirrors.ResultsSetLastMap` | src/bin/gw_clusterer.rs:337-360 | after any results each window shows the last usable map addressed to it, or what it showed before, and nothing else changes |
| `Mirrors.TornLeavesMapsAheadIff` | src/bin/gw_clusterer.rs:337-360 | after a crash while draining, rows and blobs agree with the restored clusterer if and only if every map handled last for an open window was there already |
| `Mirrors.ResultsKeepSync` | src/bin/gw_clusterer.rs:337-360 | any sequence of results keeps the rows of all open superevents equal to memory apart from the centre |
| `Mirrors.LostEventLeavesArchiveAheadIff` | src/bin/gw_clusterer.rs:244-283 | after dying between archive write and save, the archive disagrees with the restored clusterer exactly when the event had joined an open window |
| `Mirrors.RedeliveryRepairs` | src/bin/gw_clusterer.rs:244-283 | handing the lost event in again gives the state of a run without the crash |
| `Mirrors.RedeliveryAfterSaveRepeats` | src/clustering.rs:188-236 | an event handed in twice in a row is recorded twice in the same window and changes nothing else |
| `Redelivery.RedeliveryReturnsIff` | src/clustering.rs:188-236 | redelivered after any operations while its superevent is open, an event opens no window; it returns to its superevent if and only if no centre opened since is nearer, and there changes nothing but the member list |
| `Redelivery.RedeliveryMayMove` | src/clustering.rs:188-236 | window 5, events at 0, 2.2 and 4: the second, redelivered last, is recorded in both superevents, and is preferred in the other if and only if it is louder |
| `Redelivery.ReplayOpensNoWindow` | src/clustering.rs:188-236 | replaying any part of a cleanup-free stream, in any order, opens no window and issues no id |
| `Pipeline.RequestIdIsUnique` | src/bin/gw_clusterer.rs:945-963 | a request id determines its superevent and its graceid |
| `Pipeline.RequestDueIff` | src/bin/gw_clusterer.rs:945-963 | a request is due if and only if the event became its superevent's preferred event, and it names both |
| `Pipeline.DueRequestsDiffer` | src/bin/gw_clusterer.rs:945-963 | two due requests carry the same id if and only if they name the same superevent and the same event |
| `Pipeline.Pipeline.Emit` | src/bin/gw_clusterer.rs:287-310 | an inbound update is logged; a failed log write is an error and nothing is published, a failed publication is passed over |
| `Pipeline.Pipeline.Ingest` | src/bin/gw_clusterer.rs:244-258 | the event is recorded and clustered in any case; a failed log write stops before the archive, a failed archive write is passed over; with all writes succeeding, clusterer, rows and blobs are the specified ones |
| `Pipeline.Pipeline.RequestLocalization` | src/bin/gw_clusterer.rs:259-279 | a request is submitted when a window opened or its preferred event changed, unless SNR or FAR gates it, in which case a skip is recorded; a failed submission is passed over |
| `Pipeline.Pipeline.ProcessEvent` | src/bin/gw_clusterer.rs:244-283 | memory, queue, requests and Redis after one event, for every outcome of the log write, the archive writes and the two saves; rows and blobs when their writes succeed |
| `Pipeline.Pipeline.HandleResult` | src/bin/gw_clusterer.rs:353-358 | one result attaches to its superevent in memory whatever the archive does; rows and blobs follow when their writes succeed |
| `Pipeline.Pipeline.DrainLocalizeResults` | src/bin/gw_clusterer.rs:337-360 | all queued results are applied in order, then saved once if there were any |
| `Pipeline.Pipeline.DrainUntilQuiet` | src/bin/gw_clusterer.rs:365-396 | results are applied and saved one by one until every open superevent has a map, a save fails, or the polls run out |
| `Pipeline.Pipeline.ApplyLocalizeResult` | src/bin/gw_clusterer.rs:405-449 | an error, missing or malformed result changes nothing; a map attaches by superevent id |
| `Pipeline.Pipeline.PersistState` | src/bin/gw_clusterer.rs:451-462 | Redis holds an image of the clusterer, or is unchanged when the save fails |
| `Pipeline.Pipeline.ArchiveSupereventFrom` | src/bin/gw_clusterer.rs:477-622 | the named superevent's row is replaced; for a newly attached map also its centre, set on whatever row is there, its bytes, 50% and 90% contours and a rescan, each write that fails being skipped alone |
| `Pipeline.FailedRowWriteSpoilsIff` | src/bin/gw_clusterer.rs:504-543 | the centre patch leaves an unreadable summary if and only if the row's own write failed and the row is there without a summary |
| `Pipeline.Recover` | src/state.rs:79-112 | loading a saved image never fails and yields a clusterer a reload allows |
| `Pipeline.OutrankedMapStillAttaches` | src/clustering.rs:239-258 | a map computed for an outranked event is attached beside the new preferred event |
| `Provenance.PreferredIsLastPromotion` | src/clustering.rs:188-236 | over any run, a superevent's preferred event is that of its last promotion, the last one for which a localization was due |
| `Provenance.NeverTwice` | src/clustering.rs:188-236 | no event promotes the same superevent twice, redelivery included |
| `Provenance.UpdateReports` | src/clustering.rs:188-236 | an update names the window that took the event as its last member; a promotion names the event outranked, a skip the event itself |
| `Provenance.PromotionReportsPrevious` | src/clustering.rs:195-205 | over any run, a promotion's update names as previous the event of the promotion of that superevent just before it, and reports a new superevent if and only if there was none |
| `Provenance.LastMapStands` | src/bin/gw_clusterer.rs:405-449 | over any run, an open superevent shows the map of the last usable result addressed to it while it was open, and none when there was none |
| `Provenance.MapBelongsIff` | src/bin/gw_clusterer.rs:405-449 | over any run and for any result, the map shown belongs to the preferred event if and only if the last promotion of that superevent was by the event the result names |
| `Provenance.AnsweredMapBelongsIff` | src/bin/gw_clusterer.rs:405-449 | when the result answers a request whose event was not lost: if and only if no promotion followed that request |
| `Provenance.StaleMapRun` | src/bin/gw_clusterer.rs:405-449 | two events at one time, the second louder, and the first one's result last: the map is stale |
| `Provenance.LostIdReturnsIff` | src/bin/gw_clusterer.rs:259-280 | after a crash between request and save, the next window opened gets the id the lost event's request named if and only if that event had opened a window |
| `Provenance.LostPromotionRun` | src/bin/gw_clusterer.rs:259-280 | a service run exists in which the louder event is lost and its map is shown beside the quieter preferred one |
| `Provenance.LostOpeningRun` | src/bin/gw_clusterer.rs:259-280 | a service run exists in which the first event is lost and its map lands on the next event's superevent, under the same id |
| `Provenance.ServiceRunFeeds` | src/bin/gw_clusterer.rs:244-360 | every run of the service, crashes included, leaves the clusterer such a run of events and results would leave |
| `Nuniq.DecodeEncodes` | src/joint_skymap.rs:114-126 | every 64-bit uniq from 4 on decodes to depth at most 30 and a pixel of that depth that encode back to it, without underflow |
| `Nuniq.EncodeDecodes` | src/skymap_synth.rs:49-51 | every pixel of every depth is recovered from its uniq value |
| `Nuniq.EncodeFitsIff` | src/joint_skymap.rs:114-126 | a uniq value fits in 64 bits if and only if its depth is at most 30, and below 2^62 if and only if at most 29 |
| `Nuniq.DepthLimitIff` | src/joint_skymap.rs:114-126 | a uniq value decodes to a depth of at most 29 if and only if it is below 2^62 |
| `Nuniq.EncodeIsInOrder` | src/skymap_synth.rs:49-51 | uniq values number the cells from 4 on, depth by depth and within a depth by pixel |
| `FitsRoundTrip.ReadInvertsWrite` | src/joint_skymap.rs:147-347 | reading a written file gives back the cells bit for bit, and its length is a multiple of 2880 |
| `FitsRoundTrip.PrefixReadsIff` | src/joint_skymap.rs:147-214 | a written file cut anywhere reads back exactly when no row byte is missing, and otherwise reports end of file |
| `FitsRoundTrip.WideTableReads` | src/joint_skymap.rs:147-187 | on wider rows, exactly the first 16 bytes of each row are returned, whatever follows |
| `FitsRoundTrip.SameFileIffSameOrder` | src/joint_skymap.rs:281-347 | two files of the same cells are equal exactly when their MOCORDER is |
| `FitsRoundTrip.OrderIsDeepest` | src/joint_skymap.rs:282-286 | MOCORDER is the depth of the deepest cell, 0 when there is none |
| `FitsReading.ReadsIff` | src/joint_skymap.rs:147-187 | arbitrary bytes are accepted if and only if two headers end, the first NAXIS1 and NAXIS2 cards hold numerals, the first TTYPE1, TFORM1, TTYPE2 and TFORM2 cards spell UNIQ, K, PROBDENSITY and D apart from quotes and blanks, rows are at least 16 bytes and none is cut; every row's first 16 bytes are then its cell |
| `FitsReading.RefusesFirstFault` | src/joint_skymap.rs:147-187 | otherwise the error is end of file for a missing header or cut row, else that of the first of the six checks to fail, else the row width |
| `FitsReading.HeaderReads` | src/joint_skymap.rs:198-214 | a header ends with the first block that holds an END card, and there is none otherwise |
| `FitsReading.WordIff` | src/joint_skymap.rs:227-248 | a value passes if and only if it starts with the word apart from quotes and blanks |
| `FitsHeader.FileLayout` | src/joint_skymap.rs:281-347 | a written file is two blocks with exactly the listed 80-column lines, the cells' big-endian rows, and zeros to the next multiple of 2880 |
| `ByteStrings.TextIff` | src/joint_skymap.rs:216-225 | bytes decode to a text if and only if they are its UTF-8 encoding |
| `Decimal.ParsesIff` | src/joint_skymap.rs:216-225 | a text parses if and only if it is a numeral, with at most one plus sign, that fits in 64 bits |
| `FitsIo.WriteMultiordermapFits` | src/joint_skymap.rs:281-347 | the pushed bytes are the specified file with the deepest cell's depth as MOCORDER, which the round trip reads back |
| `FitsIo.WriteIvoaMultiordermapFits` | src/skymap_synth.rs:60-125 | the pushed bytes are the specified file of the uniform cells with the caller's depth |
| `FitsIo.WritersAgreeIff` | src/skymap_synth.rs:60-125 | for a non-empty uniform list at one depth the two writers agree byte for byte if and only if the caller passes that depth |
| `FitsIo.ReadMultiordermapCells` | src/joint_skymap.rs:147-187 | the cursor-driven reader computes the specified result on every input, errors included |
| `FitsIo.Cursor.ReadTable` | src/joint_skymap.rs:168-186 | the row loop computes the specified rows, or end of file at the first row that does not fit |
| `FitsIo.Cursor.ReadHduHeader` | src/joint_skymap.rs:198-214 | whole blocks up to the one holding END, with the cursor just behind it, or end of file |
| `FitsIo.ScanForEnd` | src/joint_skymap.rs:198-214 | whether one of the block's 36 cards is END and blanks |
| `Posterior.Keep` | src/joint_skymap.rs:84-97 | the filtering pass keeps the region's rows in order and sums their mass |
| `Posterior.Rescale` | src/joint_skymap.rs:102-105 | the second pass multiplies every density by the same factor |
| `Posterior.Combine` | src/joint_skymap.rs:66-106 | the filter-and-accumulate pass and the in-place rescaling give the specified map or "empty overlap" |
| `Posterior.CombinedIsOkIff` | src/joint_skymap.rs:66-106 | for densities that are not negative, combining succeeds if and only if some row of positive density has its centre in the region |
| `Posterior.CombinedMassIsOne` | src/joint_skymap.rs:66-106 | every combined map integrates to exactly one |
| `Posterior.CombinedKeepsRowsAndRatios` | src/joint_skymap.rs:66-106 | its rows are the region's rows in order, all densities in proportion |
| `Posterior.ConditioningComposes` | src/joint_skymap.rs:66-106 | combining with A and then B equals combining once with their intersection, the empty case included |
| `Posterior.ConditioningCommutes` | src/joint_skymap.rs:66-106 | the order of two regions does not matter |
| `Posterior.SyntheticConeMassIsOne` | src/skymap_synth.rs:29-57 | a synthetic cone integrates to one and its rows decode to the cone's pixels |
| `Posterior.CellsCoverSphere` | src/joint_skymap.rs:108-112 | the cells of a depth cover the sphere once and each splits into four equal ones |
| `Posterior.CombinedClose` | src/joint_skymap.rs:66-106 | maps whose densities agree up to a relative error eps combine alike: same outcome, same rows, densities in ratio at most (1+eps)/(1-eps) |
| `JointSkymap.CombineGwWithExternalMoc` | src/joint_skymap.rs:66-106 | reading, parsing the region, combining and writing give the specified file or error for every input; a row that packs no cell, or one deeper than 29, counts as an error |
| `JointSkymap.JointFileIsOkIff` | src/joint_skymap.rs:66-106 | for such densities, which of the four errors is reported, and when none is, by the file, the region and single rows |
| `JointSkymap.JointFileReads` | src/joint_skymap.rs:66-106 | whatever the rounding, the written file reads back to the region's rows in order; with exact density words its mass is one |
| `JointSkymap.FilesCompose` | src/joint_skymap.rs:66-106 | when the first result's densities are exact words, combining its file with B gives the very bytes, or the error, of combining once with the intersection |
| `JointSkymap.FilesNearlyCompose` | src/joint_skymap.rs:66-106 | with rounding of relative error eps the two-step and one-step combinations fail together or keep the same rows, with densities in ratio at most (1+eps)/(1-eps) |
| `JointSkymap.SyntheticFileReads` | src/skymap_synth.rs:29-125 | the synthetic file reads back to the cone's pixels at its depth whatever the rounding, with mass one when its density is an exact word |
| `Calendar.SumMonthTable` | src/gcn.rs:147-156 | the patched table summed up to a month gives the days before it, also for months past 12 |
| `Calendar.NthDayHasNumber` | src/gcn.rs:126-156 | the date n next-day steps after 1980-01-06 is valid and has number n |
| `Calendar.DayNumberCountsSteps` | src/gcn.rs:126-156 | year sum plus month table count next-day steps for every later date: with the row above, a bijection onto the naturals |
| `Calendar.DayNumberIsMonotone` | src/gcn.rs:126-156 | later dates have larger numbers |
| `Calendar.MonthsClosedForm` | src/gcn.rs:147-156 | the month table in closed form: lengths and sums of every month, in common and leap years |
| `Calendar.DayNumberClosedForm` | src/gcn.rs:126-156 | the day number of every date in one formula without tables or sums |
| `Calendar.ScanLeapSeconds` | src/gcn.rs:158-168 | the scan that stops early counts every threshold reached |
| `Calendar.ThresholdsIncludeEarlierLeaps` | src/gcn.rs:56-78 | every threshold is its introduction date's midnight plus the number of earlier leap seconds |
| `Calendar.OffsetIsRightIff` | src/gcn.rs:158-168 | the offset is never too large and is right if and only if no introduction lies less than its index in seconds back |
| `Calendar.LateOnFirstOfJanuary2017` | src/gcn.rs:56-78 | at midnight of 2017-01-01 the offset is still 17 |
| `Calendar.GpsIsMonotone` | src/gcn.rs:89-141 | conversion to GPS time is strictly increasing on valid timestamps |
| `Calendar.GpsClosedForm` | src/gcn.rs:89-141 | GPS time in one formula for every timestamp from 2017-01-01T00:00:17 on |
| `Calendar.KnownInstants` | src/gcn.rs:89-141 | the GPS epoch is 0, and GW150914, GW170817 and GW190425 get their published GPS times |
| `Calendar.LeapSecondFoldsOver` | src/gcn.rs:89-141 | second 60 is given the GPS time of the next day's first second |
| `Calendar.AlertInvertsIff` | src/alert.rs:187-195 | the alert formula recovers the calendar's Unix milliseconds if and only if the time is at or after 2017-01-01T00:00:17 |
| `Calendar.BoundaryIsSeventeenSecondsIn` | src/alert.rs:56-61 | that instant is 1167264017 s after the GPS epoch, leap seconds not counted |
| `Timestamps.ParseInvertsFormat` | src/gcn.rs:89-125 | every valid millisecond timestamp parses back from each accepted spelling |
| `Timestamps.AcceptedIff` | src/gcn.rs:89-125 | a text is accepted, with these fields, if and only if it is blanks, year-month-day, T, hour:minute:second, any number of Z, blanks, with plain numerals that fit |
| `Timestamps.TextToAlertIff` | src/gcn.rs:89-141 | text to GPS time to alert milliseconds is exact from that instant on, and only then |
| `SkymapStore.UnpackInvertsPack` | src/storage/skymap.rs:868-886 | a packed cache entry unpacks to the same blob |
| `SkymapStore.PackInvertsUnpack` | src/storage/skymap.rs:868-886 | entries of at least eight bytes, and only those, unpack, and to one blob each |
| `SkymapStore.S3KeyInjective` | src/storage/skymap.rs:517-519 | distinct ids have distinct keys |
| `SkymapStore.ContourKeyInjective` | src/storage/skymap.rs:521-523 | a contour key determines superevent and level, slashes in ids included |
| `SkymapStore.GrbKeyIsSharedIff` | src/storage/skymap.rs:525-527 | a GRB key names a second trigger if and only if instrument or trigger contains a slash |
| `SkymapStore.KindsHaveDistinctKeys` | src/storage/skymap.rs:517-527 | maps, contours and GRB maps never share a key |
| `SkymapStore.S3SkymapStorage.Upsert` | src/storage/skymap.rs:572-613 | object and cache entry afterwards, compressed or not; nothing changes when the object store fails, and a refused cache write is passed over |
| `SkymapStore.S3SkymapStorage.Get` | src/storage/skymap.rs:615-664 | a live readable entry answers; otherwise, a failing cache read included, the object is decoded, and cached on success; a failing object store is an error |
| `SkymapStore.S3SkymapStorage.Delete` | src/storage/skymap.rs:666-685 | the cache entry goes first, then the object, each unless its server refuses |
| `SkymapStore.CacheIsInvisible` | src/storage/skymap.rs:572-685 | after any operations, with entries expiring, either server failing at any point and lookups filling the cache late, every lookup answers as a plain map would or reports the object store's failure, as long as no cache write or delete is refused over a live entry while the object changes and no late fill brings what is no longer the object |
| `SkymapStore.CacheIsFilled` | src/storage/skymap.rs:572-664 | after an answered lookup or an upsert whose cache write succeeds, the next lookup answers even when the object store fails; without a cache nothing is kept |
| `SkymapStore.StoredCompressedIff` | src/storage/skymap.rs:572-613 | objects are stored compressed if and only if so configured; the cache entry is eight little-endian bytes of elapsed time and the plain map |
| `SkymapStore.RefusedWriteIsStaleIff` | src/storage/skymap.rs:888-916 | after a refused cache write the next lookup is right if and only if no entry was live or it already held the blob |
| `SkymapStore.RefusedDeleteIsStaleIff` | src/storage/skymap.rs:888-916 | after a refused cache delete the blob is gone for the next lookup if and only if no entry was live |
| `SkymapStore.LateFillIsStaleIff` | src/storage/skymap.rs:615-664 | after a lookup's late fill the next lookup is right if and only if the object is still the one it had read |
| `SkymapStore.LateFillRun` | src/storage/skymap.rs:615-664 | a lookup reads the old map, an upsert stores a new one, the fill comes last: the old map is served |
| `Significance.TailBounds` | src/crossmatch.rs:429-431 | z(1 - ln(z/m)) lies strictly between z and m inside the sample space |
| `Significance.TailMonotone` | src/crossmatch.rs:429-431 | it strictly increases up to m and strictly decreases past it |
| `Significance.JointFarTimesOverlap` | src/crossmatch.rs:332-346 | the untargeted rate exists if and only if the overlap is positive; times the overlap it is the yearly chance rate in time, so it scales inversely |
| `Significance.JointFarInFigures` | src/crossmatch.rs:332-346 | rate times overlap is 31557600 times window, external rate and GW rate |
| `Significance.TargetedFarBounds` | src/crossmatch.rs:417-434 | the targeted rate exists if and only if the overlap is positive and 0 < z < z_max, and lies strictly between the untargeted rate and that of z_max |
| `Significance.TargetedFarIncreases` | src/crossmatch.rs:417-434 | it strictly increases with the GW rate |
| `Significance.TargetedFarInFigures` | src/crossmatch.rs:417-434 | its value: 31557600 z (1 - ln z + ln z_max) over the overlap |
| `Significance.RemappedDependsOnProduct` | src/pvalue.rs:190-206 | the remapped rate depends on GW rate and p-value only through their product |
| `Significance.RemappedExistsIff` | src/pvalue.rs:190-206 | the remapped rate exists if and only if GW rate, p-value and maximum are positive |
| `Significance.RemappedOrder` | src/pvalue.rs:190-206 | it is increasing and at most rate * window * maximum while the product is at most the maximum, and decreasing past it |
| `Significance.RemappedIsNegativeIff` | src/pvalue.rs:190-206 | it is negative if and only if ln(product/maximum) > 1, always from eight times the maximum on, never up to the maximum |
| `Significance.RemappedIsNegativePastE` | src/pvalue.rs:190-206 | it is negative if and only if the product exceeds e times the maximum |
| `Significance.PvalueBounds` | src/pvalue.rs:138-180 | at least 1/(n+1), at most 1, equal to 1 exactly when every trial ties or beats the observation, and not increasing in the observation |
| `Significance.RunIsBounded` | src/pvalue.rs:138-180 | the estimate fails exactly for a radius that is not positive, and otherwise lies between 1/(trials+1) and 1 |
| `Significance.RunCountsSeeds` | src/pvalue.rs:138-180 | the estimate times trials plus one is one plus the number of seeds, from the base seed (42 by default) on with wrap-around, whose overlap is at least the observed one |
| `Significance.RankIsCardinality` | src/pvalue.rs:153-164 | the plus-one count is the number of areas at least as large, the observed one included |
| `Significance.PlusOneIsConservative` | src/pvalue.rs:153-168 | among n exchangeable areas at most k get a p-value of k/n or less, ties included, so the estimator is conservative |
| `Significance.TrialSeedsAreDistinct` | src/pvalue.rs:152-157 | no two of the first 2^64 trials share a seed, wrap-around included |
| `CrossMatches.CollectNear` | src/ingest.rs:325-360 | a cursor walk returns the triggers within the window, in order |
| `CrossMatches.CollectTurnedOn` | src/ingest.rs:317-345 | the walk over optical alerts returns those whose bracket encloses t_0 and that have a position |
| `CrossMatches.CandidateIff` | src/ingest.rs:312-371 | a trigger is a candidate if and only if it is a GRB, FRB or neutrino within the window, ends included, or an optical alert whose bracket encloses t_0 |
| `CrossMatches.RescanStoresIff` | src/ingest.rs:264-469 | a fault-free rescan stores a match exactly for the candidates that can be computed, and touches no other superevent |
| `CrossMatches.RescanStoresMatches` | src/ingest.rs:375-469 | each computable candidate is stored under its superevent, instrument and trigger with such a candidate's metrics and the flag stored before; other documents are untouched |
| `CrossMatches.RefusedIff` | src/ingest.rs:264-305 | which early error is reported, by what is missing or fails |
| `CrossMatches.Archive.Upserts` | src/ingest.rs:450-469 | the loop leaves the specified store and stops at the first failed upsert |
| `CrossMatches.Archive.Rescan` | src/ingest.rs:264-486 | the early errors in their order; else the matches of all candidates, in whatever order they arrive, are upserted, and the returned list is the stable ascending sort of what was written |
| `CrossMatches.ListIsByRate` | src/ingest.rs:471-484 | the returned list is ordered by remapped rate, else joint rate, matches with neither last |
| `CrossMatches.Archive.Patch` | src/api.rs:2344-2373 | the flag is set and nothing else, or 404 and no change; a failed update changes nothing, a failed read-back reports an error after setting the flag |
| `CrossMatches.Archive.Create` | src/api.rs:2255-2256 | the new document replaces the old one with the flag cleared, or the write fails and nothing changes |
| `CrossMatches.ScanFlag` | src/ingest.rs:450-469 | a rescan that runs alone keeps a match's flag unless it reaches the match with a failing lookup |
| `CrossMatches.FlaggedIff` | src/ingest.rs:450-469 | over any run of rescans, recomputations and PATCHes one after the other, a match is flagged if and only if its last effective PATCH said so and nothing later rewrote it without reading it |
| `CrossMatches.DecisionsSurviveRescans` | src/ingest.rs:450-469 | with only fault-free rescans and PATCHes, none overlapping another, the flag is exactly the last effective PATCH |
| `Interleaving.FlagIsOrigins` | src/ingest.rs:450-469 | however rescans, PATCHes and recomputations overlap, a match is flagged if and only if the PATCH its flag traces back to, lookup by lookup, set it |
| `Interleaving.LastPatchStandsIff` | src/api.rs:2356-2363 | the last effective PATCH stands if and only if the last write of the match after it, if there is one, carries the same flag |
| `Interleaving.FreshLooksKeepPatch` | src/ingest.rs:450-469 | it stands, and is what the match shows, when every later write was preceded by its own rescan's answered lookup after that PATCH |
| `Interleaving.OvertakenPatch` | src/ingest.rs:450-469 | lookup, PATCH, write: the decision is lost with no access failing |
| `Interleaving.OneByOneIsRun` | src/ingest.rs:450-469 | accesses that do not overlap leave the documents the single-step operations leave |
| `CrossMatches.RepeatChangesOnlyTimes` | src/ingest.rs:450-469 | a repeat on unchanged findings changes only computed_at |
| `CrossMatches.RepeatReturnsSameList` | src/ingest.rs:450-485 | it also returns the same list, timestamps apart |
| `CrossMatches.ArrivalOrderIsIrrelevant` | src/ingest.rs:375-469 | the order in which concurrent fetches deliver matches does not affect what is stored |
| `CrossMatches.SameOrderSameFindings` | src/ingest.rs:450-469 | the same matches in the same order are unchanged findings, repeated ids included |
| `CrossMatches.NegativeRanksFirst` | src/ingest.rs:471-484 | a match with a negative rate comes first and gets the most significant tier |
| `CrossMatches.RunawayMatchRanksFirst` | src/pvalue.rs:190-206 | so does every match whose product of GW rate and p-value exceeds e times the maximum |
| `Sorting.StableSortIsSortBy` | src/ingest.rs:471-484 | a sequence is a sorted, key-wise order-preserving rearrangement if and only if it is the modelled sort, so nothing depends on the library's algorithm |
| `Sorting.SortMap` | src/ingest.rs:471-484 | a change that keeps every key commutes with the sort |
| `Tiers.ScienceFilter.SortTiers` | src/archive.rs:563-569 | the tiers become their stable ascending sort |
| `Tiers.ScienceFilter.SetTiersAndTag` | src/archive.rs:563-611 | tiers given in any order, sorted, then looked up: the most significant tier cleared |
| `Tiers.TierForIsBest` | src/archive.rs:606-611 | after sorting, the first tier cleared has the least threshold, the earliest listed on a tie, and there is none exactly when the rate exceeds every threshold |
| `Tiers.SmallerRateKeepsTier` | src/archive.rs:606-611 | a smaller rate never gets a less significant tier |
| `Boom.Classify` | src/boom.rs:256-271 | the dated rows with a magnitude, and the dated rows with only a limit |
| `Boom.DetectionBracket` | src/boom.rs:256-282 | the least detection and the greatest upper limit strictly before it, each absent exactly when there is none |
| `Boom.BracketIgnoresOrder` | src/boom.rs:256-282 | reordering the rows changes neither end |
| `Boom.NothingInsideBracket` | src/boom.rs:256-282 | no detection or limit lies strictly inside the bracket |
| `Boom.DatedRowIsOneKind` | src/boom.rs:256-271 | a dated row with a magnitude is a detection, with or without a limit; with only a limit it is a limit; nothing else |
| `Boom.AdmittedIff` | src/ingest.rs:317-320 | a rescan admits a transient if and only if it was detected, never before t_0, and its limits preceding every detection exist and all lie at or before t_0 |

## Left out

- Floating point: rounding, NaN, infinities and the sign of zero; all arithmetic on times, densities and rates is over the reals.
- Transport: Kafka, Redis, Mongo, S3 and HTTP, apart from the outcomes of reads and writes that are parameters.
- JSON, zstd, base64, centroids, contours and logarithms: arbitrary functions with the stated laws; HEALPix geometry and cone building are not modelled.
- `Creator.SupereventCreator.Process`: requires the 64-bit counter not to overflow, because the program would panic or wrap there.
- `Pipeline.Pipeline.ArchiveSupereventFrom`: the rescan it starts is recorded, not run; the audit rows of requests, skips and results are not modelled.
- `Mirrors.StoresAgreeWithMemory`: archive writes succeed, because the program only logs their failure and the row stays behind until the next upsert.
- `JointSkymap.FilesCompose`: asks for exact intermediate densities; JointSkymap.FilesNearlyCompose says what rounding leaves of it.
- `FitsIo.ReadMultiordermapCells`: allocation limits for absurd row counts are not modelled.
- `Timestamps.ParseInvertsFormat`: seconds are plain decimals; exponents and the words inf and nan are not read.
- `Significance.PvalueBounds`: the random positions and overlap areas are an arbitrary function of the trial's seed.
- `CrossMatches.FlaggedIff`: operations come one after the other there; Interleaving.FlagIsOrigins is the statement for overlapping ones.
- `CrossMatches.Archive.Rescan`: runs without interference, its overlap with other tasks being the matter of the Interleaving module; localizing a trigger and computing its metrics are one arbitrary function; maps rebuilt on the way are not stored back.
- Alert documents, alert JSON parsers, the GraceDB annotations, access control, sessions and tokens, metrics, command-line flags, the demo loader and the web interface: mostly one-branch lookups or foreign code.
- The Fermi mission-time offset: nothing in the repository fixes its value.
