# Fiber client: bandwidth-manager utilities and client algorithms

A Dafny 4.11 model of the self-contained algorithms of the Fiber client and of its bandwidth
manager, with proofs. `dafny verify dfyconfig.toml` checks everything.

| file | models |
|---|---|
| `DuplicateChecker.dfy` | the sliding window that drops duplicate RTP packets |
| `Unwrapper.dfy`, `SequenceNumbers.dfy` | unwrapping and comparing wrapping counters (section 5.1 of RFC 3550, section 3.2 of RFC 1982) |
| `Correlation.dfy`, `Welford.dfy`, `Histogram.dfy` | windowed correlation and slope, running mean and variance, lazy median, overlapped histograms |
| `SharedPtr.dfy` | the reference-counted pointer |
| `DeviceSync.dfy`, `PreferredDevice.dfy` | device-list reconciliation and the choice of the automatic device |
| `DecayPolling.dfy` | the decay timers of the level pollers |
| `CpuProfiles.dfy` | wildcard lookup of machine models and the best-fit CPU profile |
| `NetworkMonitor.dfy` | interface edges and the network events made of them |
| `ScreenShare.dfy` | the scaled screen-share size and the frame gate |
| `CircularBuffer.dfy` | the push-only circular buffer |
| `Windows.dfy`, `IntArith.dfy`, `RealArith.dfy`, `Options.dfy`, `Devices.dfy` | shared notions and arithmetic |

Objects whose methods update fields are classes; rings and bit sets are arrays written in place; a
ghost field records the history of the calls, and each `Valid()` ties the fields to a function of that
history, so a method's contract speaks about every run. Nothing was executed.

## Where the code differs from what one would expect

- `reset` of the duplicate checker is commented "Restores to construct-time state", but it leaves the
  highest sequence number as it is (`duplicatepacketchecker.h:95-100`). Verdicts do not depend on it.
- Once its window rolls, the windowed mean is in general not the mean of the window: a constant stream c
  reports c / WINDOW_SIZE after the first roll and c (1 - (1 - 1 / WINDOW_SIZE)^j) after j of them, until
  the window has been replaced (`Welford.ConstantStreamDrifts`). `Welford.RollExactlyWhen` gives the
  exact condition under which a push is right. Nor is the windowed variance right:
  `Welford.VarianceRollsExactlyWhen` says when it is, and `Welford.VarianceNegativeExactlyWhen` when it
  falls below zero.
- A wildcard key that does not match can shadow one that does, and a name containing '~' can sort above
  its own match (`CpuProfiles.FindsLongestExactlyWhen`).
- An entry for a machine's own name shuts out the default entry even when it has no profile for the CPU
  (`CpuProfiles.OwnEntryDecides`).
- An interface with two table rows can post the same message twice. The posts of a run tell the state
  throughout exactly when no notification is spurious (`NetworkMonitoring.TellsExactlyWhen`).
- An added and a removed device signal in one burst carry out only the later one
  (`DeviceSync.OneActionReconcilesExactlyWhen`, `DeviceSync.BurstLosesAddition`).
- A very wide or very tall screen-share frame is given a width or height of 0
  (`ScreenShare.DesiredSizeVanishesExactlyWhen`).
- Polling a level, or arming by the level monitor, while the timer is idle and the last message still
  queued starts a second chain. Ordinary polling does it, without a stop: `DecayPolling.OneMessageExactlyWhen`,
  `DecayPolling.PollingGrowsTheQueue`.
- `at()` of the circular buffer is commented as designed to throw out of bounds (`circularbuffer.h:103-113`).
  With assertions an index from the capacity on aborts instead; without, `at(capacity)` returns the
  front of a buffer that holds anything. `CircularBuffers.CircularBuffer.At` is the code without assertions.

## Modelling choices

- `float` and `double` are exact reals, or exact integer ratios in `ScreenShare`; `int` counters and
  64-bit sequence numbers are unbounded, except where the code relies on wrapping or narrowing: 16-bit
  sequence numbers, the templated comparisons, and the unsigned bin index of the lazy median.
- The square root of the correlation denominator is a parameter constrained to be a square root.
- Device enumeration, hardware-id and blacklist lookups, the interface table and the address-family
  checks are parameters or fields; posting a message appends to a queue or a log.
- `std::sort` is any permutation its comparison allows; `std::map` is a sequence ordered by key, found by
  `lower_bound`; `make_cpuid_key` is the tuple it joins.
- Message handlers run one at a time.
- `Memory` in `SharedPtr.dfy` is ghost: it is the heap the C++ program would have.

## Model

| member | source | states |
|---|---|---|
| DuplicateChecking.DuplicatePacketChecker.InsertAndTest | wpfib_essentials/fiberapp/fiber/bwmgr/src/duplicatepacketchecker.h:45-93 | the 256-bit window over 16-bit numbers gives the verdict of the unbounded reference; bit k is set exactly when index highest - k was accepted in the current stream; a first packet, or one 256 or more ahead or 4096 or more behind, is accepted and alone remembered; the self-call after the reset terminates |
| DuplicateChecking.DuplicatePacketChecker.TestInStream | wpfib_essentials/fiberapp/fiber/bwmgr/src/duplicatepacketchecker.h:65-92 | a packet of the current stream is new exactly when it is less than 256 behind and not recorded; the window then records it too |
| DuplicateChecking.DuplicatePacketChecker.Reset | wpfib_essentials/fiberapp/fiber/bwmgr/src/duplicatepacketchecker.h:96-100 | forgets everything received; the highest sequence number stays, contrary to the comment |
| DuplicateChecking.ShiftUp | wpfib_essentials/fiberapp/fiber/bwmgr/src/duplicatepacketchecker.h:71-71 | shifting the bit set up in place |
| DuplicateChecking.RejectedExactlyWhen | wpfib_essentials/fiberapp/fiber/bwmgr/src/duplicatepacketchecker.h:45-93 | in any run an arrival is rejected if and only if it is 256 or more behind the highest or its index was accepted before in the same stream |
| DuplicateChecking.NoIndexAcceptedTwice | wpfib_essentials/fiberapp/fiber/bwmgr/src/duplicatepacketchecker.h:45-93 | within a stream no index is accepted twice |
| DuplicateChecking.RunInvariant | wpfib_essentials/fiberapp/fiber/bwmgr/src/duplicatepacketchecker.h:105-107 | after any run the remembered set is exactly the accepted indices of the current stream |
| DuplicateChecking.TrueIndex | wpfib_essentials/fiberapp/fiber/bwmgr/src/duplicatepacketchecker.h:55-55 | across any number of wraps the index of an arrival is its true index up to a constant |
| DuplicateChecking.NextOnTrueStream | wpfib_essentials/fiberapp/fiber/bwmgr/src/duplicatepacketchecker.h:45-93 | after a true index stream, whatever came before it, the next arrival starts another stream, is accepted and alone remembered if and only if it is 256 or more ahead of the highest or 4096 or more behind; any other is accepted if and only if it is less than 256 behind and has not arrived before |
| DuplicateChecking.VerdictOnTrueStream | wpfib_essentials/fiberapp/fiber/bwmgr/src/duplicatepacketchecker.h:45-93 | the same verdict, also for the first packet of the stream |
| DuplicateChecking.StreamRestarts | wpfib_essentials/fiberapp/fiber/bwmgr/src/duplicatepacketchecker.h:55-63 | when a packet raises the stream number, the checker has forgotten everything before it |
| Unwrapping.SequenceNumberUnwrapper.UnwrapWithoutUpdate | wpfib_essentials/fiberapp/fiber/bwmgr/src/webrtc_common.h:281-298 | every branch computes the nearest non-negative number congruent to the input; the state is not touched |
| Unwrapping.SequenceNumberUnwrapper.Unwrap | wpfib_essentials/fiberapp/fiber/bwmgr/src/webrtc_common.h:303-307 | the same, and the result becomes the new last value |
| Unwrapping.UnwrapsToNearest | wpfib_essentials/fiberapp/fiber/bwmgr/src/webrtc_common.h:281-298 | for every last value and input: the result is non-negative, congruent, and no other such number is nearer; ties are decided as the comparison decides them |
| Unwrapping.NearestIsUnique | wpfib_essentials/fiberapp/fiber/bwmgr/src/webrtc_common.h:274-298 | that description has exactly one answer |
| Unwrapping.UnwrapRoundTrip | wpfib_essentials/fiberapp/fiber/bwmgr/src/webrtc_common.h:274-311 | wrapping a stream to 16 bits and unwrapping it is the identity when it starts in the first cycle and each step is under half a cycle |
| Unwrapping.UnwrapRunSound | wpfib_essentials/fiberapp/fiber/bwmgr/src/webrtc_common.h:274-276 | for arbitrary inputs no output is negative and each is congruent to its input |
| SequenceNumbers.SeqDelta | wpfib_essentials/fiberapp/fiber/bwmgr/src/rtputil.h:42-45 | the signed 16-bit difference leads from prev to cur |
| SequenceNumbers.SeqDeltaExact | wpfib_essentials/fiberapp/fiber/bwmgr/src/rtputil.h:42-45 | it is the true difference exactly when that fits 16 signed bits |
| SequenceNumbers.RtpTrichotomy | wpfib_essentials/fiberapp/fiber/bwmgr/src/rtputil.h:16-40 | exactly one of less, equal, greater holds, except at the three antipodal distances, where less and greater both hold |
| SequenceNumbers.RtpEmbedsOrder | wpfib_essentials/fiberapp/fiber/bwmgr/src/rtputil.h:16-28 | for true counters less than a modulus apart the comparisons agree with the integers exactly when these are closer than half the modulus minus one |
| SequenceNumbers.RtpTransitiveOnWindow | wpfib_essentials/fiberapp/fiber/bwmgr/src/rtputil.h:16-40 | transitive on a window of close counters, with the derived non-strict comparisons |
| SequenceNumbers.IsNewerTotal | wpfib_essentials/fiberapp/fiber/bwmgr/src/webrtc_common.h:238-271 | exactly one of two distinct values is newer, also at the antipode; Latest does not depend on argument order |
| SequenceNumbers.IsNewerEmbedsOrder | wpfib_essentials/fiberapp/fiber/bwmgr/src/webrtc_common.h:238-271 | agrees with the integer order below half the modulus, for both widths; Latest is the later counter |
| SequenceNumbers.IsNewerTransitiveOnWindow | wpfib_essentials/fiberapp/fiber/bwmgr/src/webrtc_common.h:238-260 | transitive on such windows |
| Correlation.WindowedCorrelationCoeff.Push | wpfib_essentials/fiberapp/fiber/bwmgr/src/rtpstatsutil.h:241-284 | after any run the five sums are the sums over the last mWindowSize pairs, with the five rings in step |
| Correlation.WindowedCorrelationCoeff.GetCorrelationCoeff | wpfib_essentials/fiberapp/fiber/bwmgr/src/rtpstatsutil.h:286-311 | Pearson's product-moment coefficient of the window: its square times the two sums of squared deviations is the squared sum of products of deviations, with the sign of that sum; in [-1, 1], zero for a constant side, and 1 or -1 exactly when the window lies on one line |
| Correlation.WindowedCorrelationCoeff.GetSlope | wpfib_essentials/fiberapp/fiber/bwmgr/src/rtpstatsutil.h:313-325 | 0 when all xs are equal, the line's slope exactly when the points lie on a line |
| Correlation.SumsSlide | wpfib_essentials/fiberapp/fiber/bwmgr/src/rtpstatsutil.h:245-277 | subtracting what falls out and adding what comes in keeps the sums exact |
| Correlation.CauchySchwarz | wpfib_essentials/fiberapp/fiber/bwmgr/src/rtpstatsutil.h:299-308 | both denominator factors are non-negative, numerator squared is at most their product, with equality exactly for points on a line |
| Correlation.SpreadXSign | wpfib_essentials/fiberapp/fiber/bwmgr/src/rtpstatsutil.h:301-301 | the first factor vanishes exactly when all xs are equal |
| Correlation.SpreadYSign | wpfib_essentials/fiberapp/fiber/bwmgr/src/rtpstatsutil.h:302-302 | the second factor vanishes exactly when all ys are equal |
| Correlation.CoefficientMeaning | wpfib_essentials/fiberapp/fiber/bwmgr/src/rtpstatsutil.h:296-309 | the range, the zero case and the ends of the coefficient, for any window and any square root of its denominator |
| Correlation.CoefficientIsPearson | wpfib_essentials/fiberapp/fiber/bwmgr/src/rtpstatsutil.h:296-309 | the formula gives Pearson's coefficient for any window and any square root of its denominator |
| Correlation.FormulasAreCoDeviations | wpfib_essentials/fiberapp/fiber/bwmgr/src/rtpstatsutil.h:299-308 | the numerator and the two denominator factors are n times the sums of products of deviations from the means |
| Correlation.PearsonIsUnique | wpfib_essentials/fiberapp/fiber/bwmgr/src/rtpstatsutil.h:296-309 | the description has one answer |
| Correlation.SlopeIsLeastSquares | wpfib_essentials/fiberapp/fiber/bwmgr/src/rtpstatsutil.h:313-325 | the slope is that of the unique least-squares line |
| Correlation.SlopeOfLine | wpfib_essentials/fiberapp/fiber/bwmgr/src/rtpstatsutil.h:313-325 | points on y = a*x + b with two different xs give slope a |
| Welford.WindowedRunningMeanAndVariance.Push | wpfib_essentials/fiberapp/fiber/bwmgr/src/rtpstatsutil.h:100-127 | the in-place rings and running values follow the recurrence in every run |
| Welford.WindowedRunningMeanAndVariance.GetMean | wpfib_essentials/fiberapp/fiber/bwmgr/src/rtpstatsutil.h:129-132 | the arithmetic mean until the window is full |
| Welford.WindowedRunningMeanAndVariance.GetVariance | wpfib_essentials/fiberapp/fiber/bwmgr/src/rtpstatsutil.h:138-141 | (n - 1) times the variance is the sum of squared deviations until the window is full; at the first roll the variance is negative exactly under a condition on the pushed values; later it is the running sum over n - 1 |
| Welford.FirstWindow | wpfib_essentials/fiberapp/fiber/bwmgr/src/rtpstatsutil.h:100-156 | for the first WINDOW_SIZE pushes the running values are the mean and the sum of squared deviations from it |
| Welford.RunningValuesAreSums | wpfib_essentials/fiberapp/fiber/bwmgr/src/rtpstatsutil.h:110-120 | in every state of every run the running values are the sums of the stored parts |
| Welford.RollExactlyWhen | wpfib_essentials/fiberapp/fiber/bwmgr/src/rtpstatsutil.h:108-117 | a push into a full window gives the true window mean exactly when the old mean without its oldest part was the mean of the values that stay |
| Welford.FirstRollExactlyWhen | wpfib_essentials/fiberapp/fiber/bwmgr/src/rtpstatsutil.h:108-117 | the same for the first roll: exactly when the mean of the first window is (2 - n) times its first value, whatever is pushed |
| Welford.ConstantStreamDrifts | wpfib_essentials/fiberapp/fiber/bwmgr/src/rtpstatsutil.h:108-117 | a constant c is reported until a window of two or more rolls; after j rolls, up to the size n of the window, the windowed mean is c (1 - (1 - 1/n)^j), so c / n after the first |
| Welford.VarianceNegativeExactlyWhen | wpfib_essentials/fiberapp/fiber/bwmgr/src/rtpstatsutil.h:108-120 | a push into a full window makes the running sum of squares negative exactly when n times what is left of it plus (n - 1)(val - mean)(val - rest of the mean) is |
| Welford.FirstRollNegativeExactlyWhen | wpfib_essentials/fiberapp/fiber/bwmgr/src/rtpstatsutil.h:108-120 | the same for the first roll, in terms of the pushed values only |
| Welford.VarianceRollsExactlyWhen | wpfib_essentials/fiberapp/fiber/bwmgr/src/rtpstatsutil.h:108-120 | for any full window, exactly when the rolled sum is the sum of squared deviations of the new window from its mean |
| Welford.FirstVarianceRollsExactlyWhen | wpfib_essentials/fiberapp/fiber/bwmgr/src/rtpstatsutil.h:108-120 | the same for the first roll, in terms of the pushed values only |
| Welford.DeviationsAppend | wpfib_essentials/fiberapp/fiber/bwmgr/src/rtpstatsutil.h:108-120 | one more value x adds (n - 1)/n times its squared distance from the old mean to the squared deviations |
| Welford.VarianceGoesNegative | wpfib_essentials/fiberapp/fiber/bwmgr/src/rtpstatsutil.h:143-147 | a concrete run in which it is negative, the case stddev guards |
| Welford.WindowOfOne | wpfib_essentials/fiberapp/fiber/bwmgr/src/rtpstatsutil.h:100-127 | a window of one value never drifts |
| Histograms.BasicHistogram.InsertValue | wpfib_essentials/fiberapp/fiber/bwmgr/src/rtpstatsutil.h:631-640 | every bin holds the number of inserted values that fall in it; extremes are exact |
| Histograms.IndexExactly | wpfib_essentials/fiberapp/fiber/bwmgr/src/rtpstatsutil.h:721-730 | which values a bin takes: bin 0 those below the range, the last one all above it, each other one a step; said with the template arguments alone |
| Histograms.BasicHistogram.Median | wpfib_essentials/fiberapp/fiber/bwmgr/src/rtpstatsutil.h:643-660 | stops inside the bins and returns the centre of the first bin up to which half of the values, and at least one, lie, counted by value below the upper edge; that is the bin of the order statistic of rank max(1, n/2), within half a step of it when it is in range |
| Histograms.BasicHistogram.BinsSumToCount | wpfib_essentials/fiberapp/fiber/bwmgr/src/rtpstatsutil.h:631-640 | bin counts sum to the number of inserts |
| Histograms.CentreUnwrapped | wpfib_essentials/fiberapp/fiber/bwmgr/src/rtpstatsutil.h:659-659 | the unsigned wrap at bin 0 and the cast to int cancel |
| Histograms.CentreIsClose | wpfib_essentials/fiberapp/fiber/bwmgr/src/rtpstatsutil.h:721-730 | a value in range is within half a step of the centre of its bin |
| Histograms.RankInBins | wpfib_essentials/fiberapp/fiber/bwmgr/src/rtpstatsutil.h:650-657 | k sorted values reach bin b exactly when the k-th one does |
| Histograms.FirstHalfBin | wpfib_essentials/fiberapp/fiber/bwmgr/src/rtpstatsutil.h:650-659 | the first bin that reaches half the count is the bin of the order statistic, and that of the count by value |
| Histograms.HalfwayCentreIsUnique | wpfib_essentials/fiberapp/fiber/bwmgr/src/rtpstatsutil.h:643-660 | the count by value has one answer |
| Histograms.OverlappedHistogram.InsertValue | wpfib_essentials/fiberapp/fiber/bwmgr/src/rtpstatsutil.h:752-764 | in every run both histograms hold the histories that Histories describes, the roles changing through the mActive alias |
| Histograms.OverlappedHistogram.Median | wpfib_essentials/fiberapp/fiber/bwmgr/src/rtpstatsutil.h:766-766 | the same of the active history, which is the last interval + mSwapCount inserts |
| Histograms.HistoriesInsert | wpfib_essentials/fiberapp/fiber/bwmgr/src/rtpstatsutil.h:752-764 | one insert with its change of roles keeps: active the last N + count inserts, inactive the last count; also for N = 0 |
| Histograms.HistoryLength | wpfib_essentials/fiberapp/fiber/bwmgr/src/rtpstatsutil.h:744-744 | once swapping has begun the active history has between N + 1 and 2N inserts |
| SharedPointers.SharedPtr.Empty | wpfib_essentials/fiberapp/fiber/bwmgr/src/smartpointer.h:179-179 | a handle that points nowhere |
| SharedPointers.SharedPtr.FromRaw | wpfib_essentials/fiberapp/fiber/bwmgr/src/smartpointer.h:181-185 | a fresh block with count one for a pointer handed over for the first time |
| SharedPointers.SharedPtr.Copy | wpfib_essentials/fiberapp/fiber/bwmgr/src/smartpointer.h:187-196 | one more sharer, counted |
| SharedPointers.SharedPtr.Swap | wpfib_essentials/fiberapp/fiber/bwmgr/src/smartpointer.h:244-248 | exchanges two handles; no count changes |
| SharedPointers.SharedPtr.Destruct | wpfib_essentials/fiberapp/fiber/bwmgr/src/smartpointer.h:218-221 | one sharer less; object and block are deleted, each once, exactly when it was the last |
| SharedPointers.SharedPtr.Decrement | wpfib_essentials/fiberapp/fiber/bwmgr/src/smartpointer.h:260-268 | the step behind it: the deleting branch is the only place where anything is freed, and with it the memory is what Drop describes |
| SharedPointers.SharedPtr.Destroy | wpfib_essentials/fiberapp/fiber/bwmgr/src/smartpointer.h:270-276 | deletes the object and its block and clears both pointers |
| SharedPointers.SharedPtr.Assign | wpfib_essentials/fiberapp/fiber/bwmgr/src/smartpointer.h:198-209 | the handle takes rhs's slot; its old object is freed exactly when no other live handle held it; the source's assertion holds |
| SharedPointers.SharedPtr.ResetEmpty | wpfib_essentials/fiberapp/fiber/bwmgr/src/smartpointer.h:234-237 | the handle is cleared; its object is freed exactly when it was the sole holder |
| SharedPointers.SharedPtr.Reset | wpfib_essentials/fiberapp/fiber/bwmgr/src/smartpointer.h:239-242 | the same with a new raw pointer, null or not |
| SharedPointers.SharedPtr.UseCount | wpfib_essentials/fiberapp/fiber/bwmgr/src/smartpointer.h:250-250 | the number of live handles on the block |
| SharedPointers.EveryRunSafe | wpfib_essentials/fiberapp/fiber/bwmgr/src/smartpointer.h:176-276 | in every run every count equals the number of live handles, and every object handed over is guarded by one block or freed once; what is freed stays freed |
| SharedPointers.AliveExactlyWhileHeld | wpfib_essentials/fiberapp/fiber/bwmgr/src/smartpointer.h:260-276 | an object is alive exactly while a live handle points to it |
| SharedPointers.NothingLeaks | wpfib_essentials/fiberapp/fiber/bwmgr/src/smartpointer.h:260-276 | when no handle is left every object was freed exactly once |
| SharedPointers.Replaced | wpfib_essentials/fiberapp/fiber/bwmgr/src/smartpointer.h:205-209 | temporary, swap, destruct frees exactly the sole holder's object |
| SharedPointers.CountOneExactlyWhenSole | wpfib_essentials/fiberapp/fiber/bwmgr/src/smartpointer.h:264-266 | a count is one exactly when the handle is the sole holder |
| DeviceSync.SkinnySipManager.FindAndSetAddedDevice | wpfib_essentials/fiberapp/src/skinnysipmanager.cpp:873-981 | saves the first unseen device of the first list that has one, and reports it: the kind, the list that grew, and the id and name of the device it grew by |
| DeviceSync.SkinnySipManager.FindAndSetRemovedDevice | wpfib_essentials/fiberapp/src/skinnysipmanager.cpp:983-1088 | erases the first saved device that is gone, and reports it: the kind, the list that shrank, and the id and name of the erased device |
| DeviceSync.SkinnySipManager.FindUnmatched | wpfib_essentials/fiberapp/src/skinnysipmanager.cpp:904-925 | the nested scan by device id |
| DeviceSync.SkinnySipManager.OnDevicesChange | wpfib_essentials/fiberapp/src/skinnysipmanager.cpp:1877-1891 | sets the shared action and queues a message that may retry |
| DeviceSync.SkinnySipManager.HandleDevicesChanged | wpfib_essentials/fiberapp/src/skinnysipmanager.cpp:2037-2105 | one notification, which reports the one change made, and a new message, or a failed probe with at most one retry |
| DeviceSync.SkinnySipManager.RunToQuiescence | wpfib_essentials/fiberapp/src/skinnysipmanager.cpp:2037-2105 | from any state with a message queued and a fixed enumeration the self-posting run is finite in any message order, sends exactly the due notifications in list order, which list by list name the ids and names of the devices added or erased, ends with the reconciled lists, and costs two failing probes per signal |
| DeviceSync.StepProgress | wpfib_essentials/fiberapp/src/skinnysipmanager.cpp:873-1088 | each step takes the first due device and does not change where the run ends |
| DeviceSync.PendingReports | wpfib_essentials/fiberapp/src/skinnysipmanager.cpp:873-1088 | the first pending notice reports what the step does |
| DeviceSync.RunTells | wpfib_essentials/fiberapp/src/skinnysipmanager.cpp:2037-2105 | a whole run tells, list by list and in order, of exactly the devices it adds or erases |
| DeviceSync.UnseenIds | wpfib_essentials/fiberapp/src/skinnysipmanager.cpp:904-925 | one addition per distinct unseen id |
| DeviceSync.SelectIds | wpfib_essentials/fiberapp/src/skinnysipmanager.cpp:1012-1033 | the ids of what is erased are those absent from the enumeration |
| DeviceSync.SelectIsSubsequence | wpfib_essentials/fiberapp/src/skinnysipmanager.cpp:1012-1033 | what is erased, and what is kept, is the subsequence of exactly the entries absent from, or present in, the enumeration: saved order, each as often as it is listed |
| DeviceSync.OneActionReconcilesExactlyWhen | wpfib_essentials/fiberapp/src/skinnysipmanager.cpp:2042-2075 | one kind of run alone makes the ids match exactly when the other kind had nothing to do |
| DeviceSync.BothActionsReconcile | wpfib_essentials/fiberapp/src/skinnysipmanager.cpp:2042-2075 | both kinds, in either order, make the id sets equal the enumeration |
| DeviceSync.BurstLosesAddition | wpfib_essentials/fiberapp/src/skinnysipmanager.cpp:1881-1889 | an added and a removed signal in one burst: only the later action is carried out |
| PreferredDevice.DeviceChooser.GetPreferredDeviceId | wpfib_essentials/fiberapp/src/skinnysipmanager.cpp:2812-2990 | the first device of highest rank (not blacklisted, then USB pair) among those that beat the default, else the default; false exactly for an empty list; a usable device, and among usable microphones a pair, is never passed over |
| PreferredDevice.DeviceChooser.Scan | wpfib_essentials/fiberapp/src/skinnysipmanager.cpp:2901-2969 | the loop with its early exit finds that device from the two facts about the default |
| PreferredDevice.DeviceChooser.BestIsSensible | wpfib_essentials/fiberapp/src/skinnysipmanager.cpp:2901-2969 | what the choice means in terms of the looked-up facts: usable over blacklisted, pairs over other usable microphones, Thunderbolt microphones no pair when deferred, and no switch away from a good default |
| PreferredDevice.DeviceChooser.SwitchesWhenHigher | wpfib_essentials/fiberapp/src/skinnysipmanager.cpp:2957-2968 | the test for switching compares ranks |
| PreferredDevice.DeviceChooser.ExtendBest | wpfib_essentials/fiberapp/src/skinnysipmanager.cpp:2957-2968 | every switch strictly raises the rank; equal rank keeps the earlier choice |
| PreferredDevice.DeviceChooser.BestIsFinal | wpfib_essentials/fiberapp/src/skinnysipmanager.cpp:2907-2915 | the early exit gives the answer of the full scan |
| PreferredDevice.DeviceChooser.BestIsUnique | wpfib_essentials/fiberapp/src/skinnysipmanager.cpp:2891-2899 | the description has one answer |
| DecayPolling.LevelMonitor.PostGetSpeakerVolLvl | wpfib_essentials/fiberapp/src/skinnysipmanager.cpp:1115-1123 | polling an idle timer arms it and queues one message |
| DecayPolling.LevelMonitor.PostStopSpeakerVolume | wpfib_essentials/fiberapp/src/skinnysipmanager.cpp:1110-1113 | clears the timer, not the queue |
| DecayPolling.LevelMonitor.HandleSpkMonitor | wpfib_essentials/fiberapp/src/skinnysipmanager.cpp:1345-1357 | each handled message lowers timer/interval + queued by exactly one |
| DecayPolling.LevelMonitor.HandleMicMonitor | wpfib_essentials/fiberapp/src/skinnysipmanager.cpp:1359-1371 | the same for the microphone |
| DecayPolling.LevelMonitor.MonitorSpeakerMic | wpfib_essentials/fiberapp/src/skinnysipmanager.cpp:1373-1412 | a check at the maximum count arms both pollers and queues nothing; any other counts on and queues the next |
| DecayPolling.LevelMonitor.HandleMonitorLevel | wpfib_essentials/fiberapp/src/skinnysipmanager.cpp:2001-2004 | the queued message is taken off and the check made |
| DecayPolling.LevelMonitor.PlatformPostDeviceOperation | wpfib_essentials/fiberapp/src/skinnysipmanager.cpp:2639-2650 | starts the count anew with the first check made and one more message queued |
| DecayPolling.LevelChecksExactly | wpfib_essentials/fiberapp/src/skinnysipmanager.cpp:1382-1411 | p queued messages make exactly 16 p - count checks, the count running through its 16 values and each round using up one message; then nothing is queued |
| DecayPolling.LevelMonitor.PlatformPreDeviceOperation | wpfib_essentials/fiberapp/src/skinnysipmanager.cpp:2629-2637 | clears timers and queues |
| DecayPolling.StepConserves | wpfib_essentials/fiberapp/src/skinnysipmanager.cpp:1110-1142 | every step keeps the timer a multiple of the interval in range and a message queued while it runs, and conserves the handler runs owed |
| DecayPolling.RunConserves | wpfib_essentials/fiberapp/src/skinnysipmanager.cpp:1110-1142 | over any run handled + dropped + owed equals what polls granted |
| DecayPolling.DrainsExactly | wpfib_essentials/fiberapp/src/skinnysipmanager.cpp:1345-1371 | with no new poll the chain stops after exactly the owed number of handler runs |
| DecayPolling.OnePollDrains | wpfib_essentials/fiberapp/src/skinnysipmanager.cpp:1115-1123 | one poll of an idle device: the timer starts at 1050 and comes down by 150 in each of eight handler runs |
| DecayPolling.OneMessageExactlyWhen | wpfib_essentials/fiberapp/src/skinnysipmanager.cpp:1110-1142 | in any run no state has two messages queued if and only if no poll and no arming by the level monitor finds the timer idle with a message still queued |
| DecayPolling.PollingGrowsTheQueue | wpfib_essentials/fiberapp/src/skinnysipmanager.cpp:1115-1123 | polling alone, with the seven handler runs that bring the timer back to zero, grows the queue by one a round without bound |
| DecayPolling.QueueGrows | wpfib_essentials/fiberapp/src/skinnysipmanager.cpp:1110-1123 | so does stopping and polling again |
| CpuProfiles.CpuMonitor.FindMatchingMachineModel | wpfib_essentials/fiberapp/src/bjn_cpu_monitor.cc:277-300 | the loop from lower_bound returns what Match describes |
| CpuProfiles.ReturnsLongestStem | wpfib_essentials/fiberapp/src/bjn_cpu_monitor.cc:277-300 | a wildcard entry that is returned has a stem that is a prefix of the name, the longest among those sorting above the name; for names of characters below '~' the longest in the map |
| CpuProfiles.FindsLongestExactlyWhen | wpfib_essentials/fiberapp/src/bjn_cpu_monitor.cc:283-297 | for any name the longest match is found exactly when it sorts above the name and no non-matching wildcard key sorts between the two |
| CpuProfiles.LostBelowNameExample | wpfib_essentials/fiberapp/src/bjn_cpu_monitor.cc:282-297 | a name containing '~' whose longest match sorts below it and is not returned |
| CpuProfiles.MatchExactlyWhen | wpfib_essentials/fiberapp/src/bjn_cpu_monitor.cc:277-300 | an entry is returned exactly when its key is the name, or the name is no key and its key is the first wildcard above the name and matches |
| CpuProfiles.ShadowingExample | wpfib_essentials/fiberapp/src/bjn_cpu_monitor.cc:287-291 | a concrete map in which a matching wildcard is shadowed |
| CpuProfiles.LongerStemFirst | wpfib_essentials/fiberapp/src/bjn_cpu_monitor.cc:286-286 | why '~' works: of two matches above the name the one with the longer stem sorts first |
| CpuProfiles.FindFinds | wpfib_essentials/fiberapp/src/bjn_cpu_monitor.cc:278-278 | find returns the entry with the key whenever there is one |
| CpuProfiles.CpuMonitor.UpdateCpuParamsMap | wpfib_essentials/fiberapp/src/bjn_cpu_monitor.cc:410-431 | appends to one list, creating entry and list when missing; order and all else unchanged; the lookup for that machine and CPU then reaches the list with the new profile in it, when its stepping is 0 |
| CpuProfiles.CpuMonitor.FindProfiles | wpfib_essentials/fiberapp/src/bjn_cpu_monitor.cc:327-349 | reaches the one place that serves the machine and CPU, and nothing exactly when no place does |
| CpuProfiles.PlaceExactlyWhen | wpfib_essentials/fiberapp/src/bjn_cpu_monitor.cc:327-349 | a place is reached exactly when its entry speaks for the machine (by name, else base board, else namelessly) and its id is the very CPU, or the vendor when the entry lacks the CPU; the stepping is always 0 |
| CpuProfiles.DefaultEntryExactlyWhen | wpfib_essentials/fiberapp/src/bjn_cpu_monitor.cc:327-339 | the nameless entry is used for a named machine exactly when no key answers its name or its base board |
| CpuProfiles.OwnEntryDecides | wpfib_essentials/fiberapp/src/bjn_cpu_monitor.cc:337-349 | an entry for the machine's own name shuts out all others: nothing is found exactly when it has neither the CPU nor its vendor |
| CpuProfiles.CpuMonitor.GetCpuParams | wpfib_essentials/fiberapp/src/bjn_cpu_monitor.cc:302-364 | sorts the found list in place, for any order std::sort may leave, changes nothing else, and returns the default or the best fit: for the current speed, or with the feature on for the greater of the current and the maximum speed |
| CpuProfiles.CpuMonitor.ComparisonCpuSpeed | wpfib_essentials/fiberapp/src/bjn_cpu_monitor.h:118-128 | the greater of the two speeds, or the current one when the feature is off |
| CpuProfiles.CpuMonitor.ScanFromBack | wpfib_essentials/fiberapp/src/bjn_cpu_monitor.cc:352-360 | the first fit of the reverse scan is lexicographically greatest among all fits, at the speed that GetCpuParams names |
| CpuProfiles.BestFitAgrees | wpfib_essentials/fiberapp/src/bjn_cpu_monitor.cc:351-360 | best fits of the same profiles in any order agree on cores and frequency |
| CpuProfiles.CpuMonitor.GetRepeatedly | wpfib_essentials/fiberapp/src/bjn_cpu_monitor.cc:302-364 | any number of calls, each finding the lists as the sorts of the earlier ones left them, reach the same list and agree on cores and frequency |
| CpuProfiles.SamePlace | wpfib_essentials/fiberapp/src/bjn_cpu_monitor.cc:327-349 | the order in which profiles are listed does not change where the lookup leads |
| CpuProfiles.SameAnswer | wpfib_essentials/fiberapp/src/bjn_cpu_monitor.cc:341-362 | nor what counts as an answer |
| CpuProfiles.SortingExists | wpfib_essentials/fiberapp/src/bjn_cpu_monitor.cc:269-275 | the comparison is one that can be sorted by |
| NetworkMonitoring.WinNetworkMonitor.HandleInterfaceChange | wpfib_essentials/fiberapp/src/Win/winnetwork_monitor.cpp:171-220 | overwrites the first row that changed and posts at most one message |
| NetworkMonitoring.WinNetworkMonitor.HandleInterfaceUp | wpfib_essentials/fiberapp/src/Win/winnetwork_monitor.cpp:95-123 | posts UP exactly when no other interface is connected |
| NetworkMonitoring.WinNetworkMonitor.HandleInterfaceDown | wpfib_essentials/fiberapp/src/Win/winnetwork_monitor.cpp:128-157 | posts DOWN exactly when no other interface is connected |
| NetworkMonitoring.PostsEdgeExactlyWhen | wpfib_essentials/fiberapp/src/Win/winnetwork_monitor.cpp:95-220 | for any table: a post agrees with the edge of the connected count unless the interface has a second connected row and no other is connected |
| NetworkMonitoring.PostsEveryEdge | wpfib_essentials/fiberapp/src/Win/winnetwork_monitor.cpp:95-220 | with one row per interface UP is posted exactly on 0 to 1 and DOWN exactly on 1 to 0 |
| NetworkMonitoring.LoopbackIsIgnored | wpfib_essentials/fiberapp/src/Win/winnetwork_monitor.cpp:95-220 | an interface of type 24 posts nothing, is not overwritten and does not count |
| NetworkMonitoring.TwoRowsPostTwice | wpfib_essentials/fiberapp/src/Win/winnetwork_monitor.cpp:225-225 | the IPv4 and the IPv6 row of one interface, coming up in turn, each post UP |
| NetworkMonitoring.TellsExactlyWhen | wpfib_essentials/fiberapp/src/Win/winnetwork_monitor.cpp:95-220 | for every table and run: after each notification the posts alternate and the last one tells the state, if and only if no notification is spurious (second connected row, no other interface connected) |
| NetworkMonitoring.TellsExtend | wpfib_essentials/fiberapp/src/Win/winnetwork_monitor.cpp:95-220 | one more notification keeps the posts in step exactly when it is not spurious |
| NetworkMonitoring.PostsAlternate | wpfib_essentials/fiberapp/src/Win/winnetwork_monitor.cpp:95-220 | in every run with one row per interface the posts alternate and the last one tells the state |
| NetworkMonitoring.NetworkEvents.HandleNetworkUpEvent | wpfib_essentials/fiberapp/src/skinnysipmanager.cpp:2565-2580 | events keep alternating whatever messages arrive; a pending re-ICE is released once |
| NetworkMonitoring.NetworkEvents.HandleNetworkDownEvent | wpfib_essentials/fiberapp/src/skinnysipmanager.cpp:2582-2596 | REMOVED is sent only on a change to down, confirmed by the address families |
| ScreenShare.DesiredSizeFits | wpfib_essentials/fiberapp/src/webrtc_capture_dev.cpp:194-217 | the size fits 1920x1080, the casts keep their values, a size that fits is kept, and a second pass changes nothing |
| ScreenShare.DesiredSizeKeepsAspect | wpfib_essentials/fiberapp/src/webrtc_capture_dev.cpp:206-215 | a scaled frame has its relatively longer side the screen side and as the other the one even number in a half-open interval of one to either side of the exact ratio |
| ScreenShare.DesiredSizeVanishesExactlyWhen | wpfib_essentials/fiberapp/src/webrtc_capture_dev.cpp:206-215 | a side becomes 0 exactly for extreme ratios |
| ScreenShare.VanishingExample | wpfib_essentials/fiberapp/src/webrtc_capture_dev.cpp:206-209 | 1921x1 is scaled to 1920x0 |
| ScreenShare.CaptureCallback.OnIncomingCapturedFrame | wpfib_essentials/fiberapp/src/webrtc_capture_dev.cpp:1050-1120 | a frame is delivered exactly while all frames have had the first one's size and that is the negotiated one, scaled to its desired size; when a format change is published, and its size, also when the device is gone |
| ScreenShare.NeverDeliversAgain | wpfib_essentials/fiberapp/src/webrtc_capture_dev.cpp:1085-1120 | after the first mismatch no frame is delivered |
| CircularBuffers.CircularBuffer.PushBack | wpfib_essentials/fiberapp/fiber/bwmgr/src/circularbuffer.h:49-65 | after any run the view is the last min(n, capacity) values pushed since the last clear |
| CircularBuffers.CircularBuffer.ConvertIndex | wpfib_essentials/fiberapp/fiber/bwmgr/src/circularbuffer.h:143-150 | for any index: inside the vector exactly for the elements of the view, and again for a stretch from the capacity on; finds the element meant |
| CircularBuffers.CircularBuffer.Front | wpfib_essentials/fiberapp/fiber/bwmgr/src/circularbuffer.h:67-71 | the oldest value kept |
| CircularBuffers.CircularBuffer.Back | wpfib_essentials/fiberapp/fiber/bwmgr/src/circularbuffer.h:79-83 | the value pushed last |
| CircularBuffers.CircularBuffer.At | wpfib_essentials/fiberapp/fiber/bwmgr/src/circularbuffer.h:103-113 | for any index: throws past the stored values, except from the capacity on for as many indices as lie between tail and vector end, where it returns the oldest elements again; at(capacity) of a buffer that holds anything is its front |
| CircularBuffers.CircularBuffer.ClearAndSetCapacity | wpfib_essentials/fiberapp/fiber/bwmgr/src/circularbuffer.h:125-138 | empties the view and sets the capacity |
| CircularBuffers.CircularBuffer.Clear | wpfib_essentials/fiberapp/fiber/bwmgr/src/circularbuffer.h:42-46 | empties the view |
| Windows.RingPush | wpfib_essentials/fiberapp/fiber/bwmgr/src/rtpstatsutil.h:267-283 | overwriting the cursor's slot and advancing slides the window by one |

## Left out

- Floating-point rounding, and overflow of 32-bit and 64-bit counters.
- Handlers that run concurrently with pollers on other threads, and the times at which delayed messages are due.
- The null checks of `client_thread_`: the client thread exists.
- `UniquePtr`, and `SharedPtr` conversions between different pointee types.
- Capture without a frame scaler, cropping, and frame conversion in the capture callback.
- The refresh and thunderbolt-map side effects of a device change, and the huddle-mode message.
- The faulty-device notifications of the level monitor, and the volume and mute readings themselves.
- The first-match scan of `getMatchingDevice` and the hardware-id string handling behind it.
- `make_cpuid_key` as a string: the tuple stands for it, the numbers containing no comma.
- `WindowedAverageT`, `MaxValueEstimator`, the filters and smoothers: a plain loop or a one-line update each.
- `stateMachine.h` and the classes of which only headers exist.
- Window minimum and maximum: their sentinels are not restored, so the obvious claims do not hold.
- User interface, COM, Direct3D, PJSIP, WebRTC engine, registry, proxy, certificates and configuration parsing.
