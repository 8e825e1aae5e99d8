# Verified kernels of the hardware-fault toolkit

The toolkit watches servers for failing memory and other hardware: exporters and parsers read fault records,
analysers turn them into diagnoses and projections, and controllers restart or cordon what is at risk. This
project models the small algorithms and state machines on which those decisions rest and proves what they promise,
for all inputs, all runs, or all interleavings.

`dafny verify dfyconfig.toml` checks everything. One file holds one component:

| file | component |
|---|---|
| `Wrappers` | types shared by the components |
| `RealAlgebra`, `LeastSquares`, `FitQuality`, `WearPredictor` | trend lines and failure projections |
| `Gf2`, `Crc8`, `Crc8Division`, `Crc8Detection`, `Heartbeat` | the out-of-band heartbeat and its checksum |
| `RestartLimiter` | the operator's restart limiter |
| `CardinalityGuard`, `GuardProgress`, `Fingerprint` | the exporter's bound on label sets |
| `EdacDrain`, `EdacProgress`, `BpfCounter` | counters shared between threads or CPUs in the kernel |
| `SeverityLabels`, `Cper`, `CperEncoding`, `Smbios` | firmware tables |
| `Bitflip`, `BitflipAnalysis`, `BitflipReport`, `Clusters` | diagnosing bit flips, and clusters in a fleet |
| `Remediation` | the remediation cooldown and the webhook that clears it |
| `TraceParser` | the kernel log parser |
| `EventCorrelation`, `Annotations` | the sliding event window and its annotations |
| `Appearance` | the order in which dictionaries list their keys |
| `WatchdogMonitor`, `WatchdogBound` | the loop that feeds systemd's watchdog |

How the models are built:

- What the source updates in place is a class with the same fields. A ghost history says what has happened so far,
  `Valid()` ties the fields to it, and the theorems are about histories.
- What runs concurrently is a step machine. A program counter per thread stands before each atomic step, an action
  that is blocked changes nothing, and so the theorems hold for every schedule.
- Rates, probabilities and second-valued timestamps are exact reals; counters are integers, and the 32-bit wrap of
  the driver's atomics is explicit. Where a program reads its clock several times, each reading is a separate
  parameter, and readings never go back.
- A Python dictionary is a map with the list of its keys in order of insertion, since its order is visible in results.

Where the code and its own text, or the standard it names, disagree, the model follows the code:

- The checksum is called CRC-8/MAXIM, but the loop is most-significant-bit first and not reflected. The theorems are
  about the loop.
- `days_to_threshold` answers "never" whenever the slope is not positive, even if the threshold is already exceeded.
- `fingerprint` can give two label sets one fingerprint once values may hold a comma; which label sets this can happen
  to is `Fingerprint.TwinsExactly`.
- In `bert_reader.py` the header format adds up to 100 bytes (a comment says 128) and the section descriptor to 38
  (a comment says 72). So the walks differ in two ways: only the Python walk sees a record with 100 to 127 bytes left,
  and only the Python walk goes on behind a record that states a length of 100 to 127 (`Cper.WalksDiffer`; when they
  agree, exactly, is `Cper.WalksAgreeExactly`).
- The Type 17 size decoder takes 0xFFFF as the marker for an extended size. The comment above it, and section 7.18 of
  DSP0134, say 0x7FFF (`Smbios.SizeAgreesExactly`).
- One poll of the remediation controller can act twice on a node when a cooldown passes inside the poll
  (`Remediation.TwoActionsInOnePoll`; when, exactly, is `Remediation.ActsAgainExactly`).
- The correlator's header promises 10-second and 30-second windows for its first two rules, on one node. The code uses
  one window for all rules, 60 s by default, and keeps events that are stamped ahead of the clock. So the promised
  distance is kept exactly when that window, plus what stamps run ahead, is no longer (`EventCorrelation.RuleWindows`).
  The rules read nothing of an event but its type (`EventCorrelation.RulesReadTypesOnly`).
- The watchdog example says that critical error rates make systemd restart it. The flag that withholds a ping is
  cleared in every turn, so pings come in time anyway while turns are short
  (`WatchdogMonitor.CriticalPollsDoNotRestart`; how short, exactly, is `WatchdogBound.FedExactly`).

## Model

| member | source | states |
|---|---|---|
| DimmAging.FitIsLeastSquares | aging/dimm_aging_report.py:40-65 | the returned line has the least sum of squared residuals of all lines, in every branch: fewer than two points, all x equal, or the closed formula |
| DimmAging.FitIsUnique | aging/dimm_aging_report.py:40-65 | the returned line is the only minimiser if and only if two samples have different x |
| DimmAging.OtherMinimiser | aging/dimm_aging_report.py:40-65 | the minimisers are exactly the lines whose difference from the fit vanishes on every sample |
| DimmAging.FitSolvesNormalEquations | aging/dimm_aging_report.py:42-56 | slope and intercept of every branch solve both normal equations |
| DimmAging.DenominatorSign | aging/dimm_aging_report.py:51-53 | n times the sum of squares minus the squared sum is never negative, and is zero exactly when all x agree |
| DimmAging.RSquaredRange | aging/dimm_aging_report.py:58-65 | R² lies in [0, 1], and is 1 exactly when the samples vary in x and y and all lie on the returned line |
| FitQuality.RSquaredMeaning | aging/dimm_aging_report.py:58-65 | where x and y vary, 1 - R² times the residuals of the best horizontal line is the residuals of the fit; otherwise R² is 0 |
| FitQuality.MeanIsBestFlatLine | aging/dimm_aging_report.py:59-60 | of all horizontal lines the one at the mean has the least residuals |
| FitQuality.DegenerateFit | aging/dimm_aging_report.py:43-53 | without two different x the fit is horizontal, at the mean, and zero without samples |
| DimmAging.FitIsCovariant | aging/dimm_aging_report.py:168-172 | shifting and rescaling time divides the slope by the scale and leaves R² alone, so the choice of time origin and unit is harmless |
| DimmAging.DaysToThresholdMeaning | aging/dimm_aging_report.py:68-75 | the answer is infinite exactly for a slope that is not positive, a finite one is the first crossing of the line with the threshold, and an infinite one is right exactly when the rate is still below the threshold |
| DimmAging.HealthIsAntitone | aging/dimm_aging_report.py:78-84 | a worse rate never scores healthier |
| FitQuality.HealthMeaning | aging/dimm_aging_report.py:78-84 | 1 without errors, 0 from the critical rate on, and in proportion in between |
| FitQuality.AnalysisMeaning | aging/dimm_aging_report.py:161-185 | the analysis is about the fit in days since the first sample, the last rate, the warning threshold and the critical rate |
| WearPredictor.OlsAgreesWithLinearRegression | storage/wear_predictor.py:41-63 | the second implementation answers exactly when the least-squares line is unique, and then with the line of the first |
| WearPredictor.PredictDevice | storage/wear_predictor.py:66-133 | which series get a prediction; hours and days left are first crossings of the fitted line with 100 %, capped at ten years; the 90-day flag says whether the line exceeds 100 % by then |
| WearPredictor.WearOutMeaning | storage/wear_predictor.py:120-131 | the projected hour is the first crossing, the same moment counted in days, and earlier than 90 days exactly when the line is above 100 % by then |
| WearPredictor.FitExistsAfterSpanCheck | storage/wear_predictor.py:100-111 | after the 72-hour span check the fit always exists, so its error branch is never taken |
| WearPredictor.ProjectionsAgree | storage/wear_predictor.py:100-122 | on the same samples 24 times the hourly slope is the daily slope of the aging report, and both tools project the same day |
| Crc8.Crc | network-resilience/oob-heartbeat.py:29-40 | the byte loop computes the register of the bit-serial division after all message bits |
| Crc8Division.CrcIsRemainder | network-resilience/oob-heartbeat.py:29-40 | for messages of any length the checksum, and no other register, is the remainder of data·x^8 modulo x^8+x^5+x^4+1 |
| Crc8Division.DivisionIsUnique | network-resilience/oob-heartbeat.py:29-40 | polynomial long division has exactly one quotient and remainder, and they are the digits and the register of the loop |
| Crc8.CrcIsLinear | network-resilience/oob-heartbeat.py:29-40 | the checksum of the XOR of two messages of one length is the XOR of their checksums |
| Crc8.AcceptedIffResidueZero | network-resilience/oob-heartbeat.py:29-40 | a frame carries its right checksum exactly when the checksum over the whole frame is zero |
| Crc8.ErrorDecides | network-resilience/oob-heartbeat.py:29-40 | whether a damaged frame is still accepted depends on the error pattern alone |
| Crc8Detection.OddErrorsDetected | network-resilience/oob-heartbeat.py:29-40 | any odd number of flipped bits is noticed, in frames of any length |
| Crc8Detection.BurstsDetected | network-resilience/oob-heartbeat.py:29-40 | a burst of up to nine bits is missed exactly when it flips nothing or is the generator pattern, so every burst of up to eight bits is noticed |
| Crc8Detection.TwoFlipsDetected | network-resilience/oob-heartbeat.py:29-40 | two flipped bits are noticed exactly when their distance is no multiple of 127 |
| Crc8Detection.PeriodIs127 | network-resilience/oob-heartbeat.py:34-39 | the powers of x modulo the generator return to 1 exactly at the multiples of 127 |
| Crc8Detection.FramesFourBitsApart | network-resilience/oob-heartbeat.py:29-40 | different accepted frames of one length up to 15 bytes differ in at least four bits |
| Crc8Detection.DistanceFourIsReached | network-resilience/oob-heartbeat.py:29-40 | every accepted frame has another one at distance four, so the bound is exact |
| Heartbeat.BuildFrame | network-resilience/oob-heartbeat.py:46-72 | a receiver that checks sync bytes, end marker and checksum decodes the sequence number modulo 2^16, high byte first, the flags modulo 2^8, and the load, which is kept inside 0..100 and cut to it outside |
| Heartbeat.SendAll | network-resilience/oob-heartbeat.py:281-309 | frame k decodes to number k modulo 65536 and to the health of round k, whose rate bit compares with the last total that could be read |
| Heartbeat.LastTotalMeaning | network-resilience/oob-heartbeat.py:121-144 | a round is compared with the total of the last round before it that could read one, or with 0 |
| Heartbeat.RateMeaning | network-resilience/oob-heartbeat.py:142-144 | up to 99 new errors are normal |
| Heartbeat.BeatsFourBitsApart | network-resilience/oob-heartbeat.py:46-72 | frames that decode to different beats are at least four bit errors apart |
| RestartLimiter.RestartRecord.Allowed | operator/main.go:71-96 | the answer from the pruned lists is that of a limiter over the whole grant history, and a refusal changes nothing |
| RestartLimiter.GrantedExactly | operator/main.go:71-96 | a call is granted if and only if the last grant of all is 30 s back and fewer places of the grant log than the limit have the key and a time within the last 3600 s; the grant carries the key and the later readings |
| RestartLimiter.KeyGetsItsLimit | operator/main.go:80-95 | a key with a limit of up to 120 gets all of it in an hour, 30 s apart, and the next call within the hour is refused |
| RestartLimiter.Pruned | operator/main.go:82-87 | the loop keeps exactly the times after the cutoff, in order |
| RestartLimiter.HourlyLimitHolds | operator/main.go:80-93 | in every run each window of one hour, wherever it starts, holds at most the limit of grants for a key |
| RestartLimiter.CountInMeaning | operator/main.go:80-91 | what these limits count is the places of the log with a time in the window |
| RestartLimiter.GrantsAreSpaced | operator/main.go:75-78 | in every run any two grants, whatever their keys, are at least 30 s apart |
| RestartLimiter.FleetLimitHolds | operator/main.go:71-96 | so the fleet sees at most 120 restarts in any window of one hour |
| RestartLimiter.FleetLimitIsReached | operator/main.go:71-96 | 120 different keys reach that limit, however few restarts each is allowed |
| CardinalityGuard.Guard.AllowLabels | exporter/collectors/cardinality_guard.go:39-65 | one call by itself is one atomic bounded insert: admitted if known or if there is room, and the set holds the labels afterwards exactly if admitted |
| CardinalityGuard.GuardIsLinearizable | exporter/collectors/cardinality_guard.go:39-65 | under every interleaving of the read-locked check and the write-locked re-check, calls take effect one at a time with the answers of the atomic insert, each between its start and its return, in real-time order |
| CardinalityGuard.SeenIsBounded | exporter/collectors/cardinality_guard.go:32-65 | no schedule makes a metric hold more label sets than the bound (1000 if none is given) |
| CardinalityGuard.SeenGrows | exporter/collectors/cardinality_guard.go:39-65 | an admitted label set stays, whatever is scheduled next |
| CardinalityGuard.AdmittedAgain | exporter/collectors/cardinality_guard.go:39-65 | a label set admitted by a finished call is admitted by every later one |
| CardinalityGuard.DroppedCountsRefusals | exporter/collectors/cardinality_guard.go:57-61 | with no call in flight the drop counter of a metric is the number of calls that returned false |
| CardinalityGuard.LegalBound | exporter/collectors/cardinality_guard.go:57-64 | a history with the answers of the atomic insert never admits more label sets than the bound |
| CardinalityGuard.AdmittedForGood | exporter/collectors/cardinality_guard.go:42-56 | in such a history what was admitted once is admitted ever after |
| GuardProgress.EveryCallCanReturn | exporter/collectors/cardinality_guard.go:39-65 | no deadlock: from every state that a schedule leads to, at most eight further steps per goroutine and no new call let every call in flight return |
| GuardProgress.AnsweredExactly | exporter/collectors/cardinality_guard.go:39-65 | under every interleaving a finished call was admitted if and only if its labels were among those admitted before the point at which it took effect, or these were fewer than the bound |
| Fingerprint.Fingerprint | exporter/collectors/cardinality_guard.go:67-78 | the text is one that the label map alone determines, whatever order the map is iterated in |
| Fingerprint.AtMostIsLexicographic | exporter/collectors/cardinality_guard.go:72 | the keys are sorted in dictionary order |
| Fingerprint.FingerprintIsInjective | exporter/collectors/cardinality_guard.go:67-78 | label maps without '=' in keys and without ',' in values never share a fingerprint |
| Fingerprint.TwinsExactly | exporter/collectors/cardinality_guard.go:67-78 | which label maps with plain keys share their fingerprint with another one, if and only if: those with two labels or more, and those with one label whose value reads like a value, a comma and a later label |
| EdacDrain.NothingIsLost | edac-reference/edac_cortex_ref.c:159-225 | under every interleaving injected errors are those pending, those in the hands of a drain and those reported, if and only if no injection overflowed the pending counter; then, when all is quiet, all are reported |
| EdacDrain.ExecuteConservesExactly | edac-reference/edac_cortex_ref.c:159-225 | once an injection has overflowed, errors are missing for ever: no later drain or injection brings the books back |
| EdacDrain.NothingReportedTwice | edac-reference/edac_cortex_ref.c:159-225 | whatever overlaps, the totals are the reported errors plus those whose report is due, and every report names a csrow and a channel that exist |
| EdacDrain.InjectionConservesExactly | edac-reference/edac_cortex_ref.c:291-359 | an accepted injection keeps the books exactly when the 32-bit pending counter does not overflow |
| EdacDrain.RunMovesErrors | edac-reference/edac_cortex_ref.c:165-175 | each step of a drain moves errors along pending, carried and total without changing their sum |
| EdacProgress.WholeDrain | edac-reference/edac_cortex_ref.c:159-225 | a drain that nothing disturbs empties both pending counters, adds them to the totals, reports each positive count once, correctable errors first, on the current csrow and channel, and changes nothing else |
| EdacProgress.PollIsQuiet | edac-reference/edac_cortex_ref.c:243-252 | with interrupts on the poll worker starts nothing |
| EdacProgress.EveryErrorCanBeReported | edac-reference/edac_cortex_ref.c:159-225 | from every state that a schedule without overflow leads to, further steps without an injection report every injected error |
| EdacProgress.CanBeDrained | edac-reference/edac_cortex_ref.c:159-225 | drains cannot deadlock: the pending counters can always be brought to zero and all drains to rest |
| EdacProgress.InjectionMeaning | edac-reference/edac_cortex_ref.c:291-359 | 1 to 1000 correctable or 1 to 100 uncorrectable errors are queued, any other number changes nothing |
| EdacProgress.TargetMeaning | edac-reference/edac_cortex_ref.c:361-431 | the targets take exactly the values inside the topology |
| EdacDrain.ProbeEstablishes | edac-reference/edac_cortex_ref.c:648-699 | probing succeeds for 1 to 16 csrows and 1 to 8 channels, and then all invariants hold |
| BpfCounter.UndercountIsBounded | ebpf/edac_trace.bpf.c:81-90 | under every interleaving a counter never exceeds the completed events, and misses at most one event per CPU but one over the whole run, unless the map is full |
| BpfCounter.BoundIsReached | ebpf/edac_trace.bpf.c:81-90 | for every number of CPUs there is a schedule that loses that many |
| BpfCounter.FullMapShutsOut | ebpf/edac_trace.bpf.c:74-90 | a key that comes to a full map is never counted |
| Cper.ParseBertRecordCounts | exporter/collectors/apei.go:116-155 | the table is refused exactly when it is short or its offset lies outside; otherwise each label, by its literal name, counts the visited records of its severity |
| SeverityLabels.SeverityNameIsInjective | exporter/collectors/apei.go:99-112 | different severities never share a label, so no count mixes two of them |
| SeverityLabels.LabelsMeaning | exporter/collectors/apei.go:99-153 | "recoverable", "fatal", "corrected" and "informational" hold the numbers of visited records of severity 0, 1, 2 and 3, and are absent for none; any other key is "unknown_" with the decimal digits of a severity from 4 on, and holds its number |
| Cper.ParseCperRecords | apei/bert_reader.py:71-123 | the loop terminates on every region and returns the records of the walk, with their sections |
| CperEncoding.RecordRoundTrip | apei/bert_reader.py:85-121 | a record written with its count at 18, its size at 20 and its severity at 24, and descriptors of 38 bytes from 128 on, is read back field by field by both walks, wherever it stands |
| CperEncoding.SectionsRoundTrip | apei/bert_reader.py:94-110 | descriptors are read back one after the other; the length is also the first two bytes of the type |
| CperEncoding.TableRoundTrip | exporter/collectors/apei.go:116-136 | length and offset are read from bytes 36 and 40, least significant byte first, and name the region |
| Cper.SectionsFit | apei/bert_reader.py:94-110 | a record lists as many sections as it announces, or as there is room for up to the end of the region |
| Cper.GoWalkIsPrefix | exporter/collectors/apei.go:138-153 | on any bytes the severities of the Go walk are a prefix of those of the Python walk |
| Cper.WalksAgreeExactly | exporter/collectors/apei.go:138-153 | on any bytes, from any offset, the two walks see the same severities if and only if every record that the Python walk visits has 128 bytes left and all but the last state at least that length |
| Cper.WalksDiffer | apei/bert_reader.py:75-121 | the two ways to differ, at any offset: a record with 100 to 127 bytes left is seen by the Python walk only, and behind a record that states a length of 100 to 127 only the Python walk goes on |
| Cper.WalksVisitEveryRecord | apei/bert_reader.py:71-123 | both walks over a concatenation of well-formed records return exactly those records' severities, in order |
| Cper.RegionsAgreeExactly | exporter/collectors/apei.go:116-136 | for which tables both programs read the same region, refusals included, if and only if |
| Cper.ProgramsAgree | exporter/collectors/apei.go:116-155 | whenever both programs read the same region and it consists of well-formed records, the one counts and the other lists all of them |
| Bitflip.SyndromeRoundTrip | ml/bitflip_analyzer.py:35-36 | the bit positions of a 64-bit syndrome are strictly increasing and their powers of two add up to it |
| Bitflip.PositionsMeaning | ml/bitflip_analyzer.py:35-36 | the listed positions are exactly the set bits |
| Bitflip.SortOrders | ml/bitflip_analyzer.py:45 | sorting by time is stable: equal times keep their list order |
| Bitflip.EarlyExit | ml/bitflip_analyzer.py:49-50 | in a sorted group nothing after the first event outside the window can pair, so the break loses nothing |
| Bitflip.CheckRowHammer | ml/bitflip_analyzer.py:39-56 | the loops with their break report exactly what the unbroken scan of all pairs reports, in its order |
| Bitflip.FullScanMeaning | ml/bitflip_analyzer.py:39-56 | that scan lists every pair of one group that is in time order, at most 0.064 s apart, in adjacent csrows and on different pages, each exactly once, and nothing else |
| Bitflip.HammerPairMeaning | ml/bitflip_analyzer.py:46-51 | what such a pair is, written out |
| BitflipAnalysis.AnalyzeBitflips | ml/bitflip_analyzer.py:59-91 | the passes over events and dictionaries produce the four lists of diagnoses in the order of the report |
| BitflipAnalysis.StuckBitsMeaning | ml/bitflip_analyzer.py:72-80 | a stuck-bit diagnosis lists, in increasing order, exactly the bits flipped by more than five events of the page |
| BitflipAnalysis.Classification | ml/bitflip_analyzer.py:59-91 | which pages get each pattern, if and only if; RANDOM_SEU exactly those of the events that no other pattern names |
| BitflipAnalysis.EveryPageIsDiagnosed | ml/bitflip_analyzer.py:59-91 | exactly the pages of the events get a diagnosis |
| BitflipReport.EveryDiagnosisIsJustified | ml/bitflip_analyzer.py:39-91 | every diagnosis names exactly the bits that its pattern is about: of one event, of more than five events, of both events of a pair, or of all events of the page |
| BitflipReport.ReportArrangement | ml/bitflip_analyzer.py:59-91 | the patterns come in a fixed order, with one multi-bit diagnosis per event, and at most one stuck-bit and one random diagnosis per page |
| Clusters.AnalyzeClusters | aging/dimm_cluster_analysis.py:67-78 | the two dictionaries and the group checks produce the alerts of both groupings, in order of insertion |
| Clusters.CheckGroup | aging/dimm_cluster_analysis.py:51-64 | the loop over the groups alerts exactly as the group rule says, and not at all for a fleet average of zero |
| Clusters.AlertedExactly | aging/dimm_cluster_analysis.py:45-64 | for a positive fleet total a group is alerted exactly when its members' total times the fleet size is three times the fleet total times its size |
| Clusters.AlertMeaning | aging/dimm_cluster_analysis.py:37-64 | an alert holds the size of its group and both averages, and is critical from ten times the fleet's average on, high from five and medium from three |
| Clusters.AverageIsBetween | aging/dimm_cluster_analysis.py:45-48 | the fleet average lies between the least and the largest probability |
| Clusters.KeyMeaning | aging/dimm_cluster_analysis.py:73-75 | groups are told apart by vendor and part, as long as vendor names hold no vertical bar, and by date code |
| Clusters.AlertsAreRare | aging/dimm_cluster_analysis.py:34-78 | with nonnegative probabilities at most a third of the fleet is in alerted groups of one grouping, a fifth in high or critical ones, a tenth in critical ones |
| Clusters.OneThirdIsReached | aging/dimm_cluster_analysis.py:34-78 | the bound of one third is reached |
| Remediation.System.PollOnce | remediation/remediation-controller.py:482-515 | one poll takes file, log and counters to the next state of the run; a failed query changes nothing but the error counter; the risk gauge counts the series above the threshold, and each cooldown gauge shows the finding at the last series that names its node |
| Remediation.System.HandleOne | remediation/remediation-controller.py:494-512 | one series updates its node's gauge and, if it leads to an action, the entry, the log and the action counter together |
| Remediation.System.HandleReplacementConfirmed | remediation/webhook-server.py:151-165 | a confirmation removes one node from the state, leaves an unaffected file as it is, even a corrupt one, requests retraining, and counts the component |
| Remediation.CooldownHolds | remediation/remediation-controller.py:277-292 | over every run of polls and confirmations, from any state file, two recorded actions on a node without a confirmation between them are at least the cooldown apart, counted in microseconds |
| Remediation.ActsUnlessBlocked | remediation/remediation-controller.py:493-515 | the converse: a series above the threshold is acted on exactly when the log of actions and confirmations, or the first file, does not block it and the action succeeds |
| Remediation.ConfirmationIsLocal | remediation/webhook-server.py:151-165 | a confirmation frees its node and changes no decision about another |
| Remediation.OncePerPoll | remediation/remediation-controller.py:493-515 | a poll shorter than the cooldown acts at most once on a node, however many series name it |
| Remediation.ActsTwiceInOnePoll | remediation/remediation-controller.py:493-515 | for any start state and any list of series: after a series has led to an action, the next series of its node that could do so leads to one exactly when it is risky, carried out, and a whole cooldown away |
| Remediation.ActsAgainExactly | remediation/remediation-controller.py:493-515 | hence a poll that acted on a node acts on it again if and only if a cooldown passes before some later series of that node |
| Remediation.TwoActionsInOnePoll | remediation/remediation-controller.py:493-515 | a concrete poll that acts twice: two risky series of one node an hour apart, with a cooldown of one hour |
| Remediation.EntryStays | remediation/remediation-controller.py:467-474 | the entry of an action holds its time, probability and mode until the node is acted on again |
| Remediation.CountMeaning | remediation/remediation-controller.py:436-439 | the action counter of a node is the number of its actions in the log |
| Remediation.RiskyMeaning | remediation/remediation-controller.py:492-514 | the gauge of nodes at risk is the number of series above the threshold |
| Smbios.ParseStrings | exporter/collectors/dimm.go:253-270 | the reslicing loop terminates on every input and returns the strings of the table |
| Smbios.ParseMeaning | exporter/collectors/dimm.go:253-270 | on any bytes the result is the one list of nonempty zero-free strings whose table the bytes begin with, up to a closing zero or to the end |
| Smbios.TableRoundTrip | exporter/collectors/dimm.go:253-270 | a table encoded as in section 6.1.3 of DSP0134 is parsed back, whatever follows it |
| Smbios.IndexRoundTrip | exporter/collectors/dimm.go:214-219 | the 1-based index k yields the k-th string of an encoded table, and every other index the empty text |
| Smbios.SizeAgreesExactly | exporter/collectors/dimm.go:221-233 | the decoded size is that of section 7.18 of DSP0134 exactly when neither marker value tells them apart |
| Smbios.SizeMeaning | exporter/collectors/dimm.go:221-233 | megabytes, kilobytes rounded down with bit 15 set, and the extended size without bit 31 |
| TraceParsing.TraceParser.ParseFile | replay/parse_edac_trace.py:156-169 | a parser for some kinds returns the selection by kind from all events, numbered over all kinds from the parser's counter on |
| TraceParsing.TraceParser.ParseLine | replay/parse_edac_trace.py:171-215 | the first pattern that applies decides the kind, and the counter grows only with an event |
| TraceParsing.KindMeaning | replay/parse_edac_trace.py:180-215 | which pattern decides a line, kind by kind, if and only if |
| TraceParsing.EdacEventMeaning | replay/parse_edac_trace.py:180-195 | an EDAC event says what its line says, else what the first of the next three lines with a location says |
| TraceParsing.AerEventMeaning | replay/parse_edac_trace.py:197-213 | an AER event carries the type that the first of the next five lines with one names |
| TraceParsing.PendingMeaning | replay/parse_edac_trace.py:199-203 | the pending device is that of the last corrected AER error |
| TraceParsing.SelectingCommutes | replay/parse_edac_trace.py:145-169 | selecting kinds can be done while parsing or later, with the same events and numbers |
| TraceParsing.EventsMeaning | replay/parse_edac_trace.py:156-169 | every reporting line has exactly one event, in order, and the numbers are consecutive |
| TraceParsing.EventIsLocal | replay/parse_edac_trace.py:234-253 | an event depends on its line and the next five only, or on as many as the log still has |
| TraceParsing.SettledExactly | replay/parse_edac_trace.py:181-289 | which events later lines can still change, if and only if: those whose look-ahead runs off the end without a find, unless the line itself says both its location and its details |
| TraceParsing.AppendKeepsEvents | replay/parse_edac_trace.py:156-253 | appending lines keeps events, order and numbers, and can change only look-ahead fields of the last five lines, and of them only the unsettled |
| EventCorrelation.EventBuffer.Add | correlation/event_correlator.py:36-42 | the buffer is the window of every event ever added |
| EventCorrelation.EventBuffer.RecentEvents | correlation/event_correlator.py:48-50 | the answer is the window of every event ever added, at the time of the call |
| EventCorrelation.EventBuffer.EventsOfType | correlation/event_correlator.py:44-46 | the events of one type in that window |
| EventCorrelation.EventBuffer.CountByType | correlation/event_correlator.py:52-57 | the counts are those of the window at the time of the call, in order of first appearance |
| EventCorrelation.RecentOfPruned | correlation/event_correlator.py:36-42 | pruning at one cutoff and later at another is pruning the full list at the later one, for late events too |
| EventCorrelation.RecentMeaning | correlation/event_correlator.py:40-42 | the window keeps exactly the events from the cutoff on; one without a timestamp counts as one of time zero |
| Appearance.TypesInOrder | correlation/event_correlator.py:54-57 | the counts are listed in the order in which types first appear |
| Appearance.PagesInOrder | ml/bitflip_analyzer.py:63-72 | stuck-bit and random diagnoses are listed in the order in which pages first appear |
| Appearance.GroupsInOrder | ml/bitflip_analyzer.py:41-44 | pairs are listed group by group, in the order in which groups first appear |
| Appearance.KeysInOrder | aging/dimm_cluster_analysis.py:71-75 | alerts are listed in the order in which groups first appear |
| EventCorrelation.DetectCorrelations | correlation/event_correlator.py:60-92 | the correlations are those of the rules on the window |
| EventCorrelation.DetectionMeaning | correlation/event_correlator.py:65-90 | when each rule fires and with which numbers: both counts of the first rule, and a storm exactly for the types with three or more events in the window |
| EventCorrelation.RuleWindows | correlation/event_correlator.py:40-79 | every firing of the first or the second rule on the buffer comes from a pair of events at most d apart if and only if the window, plus what stamps may run ahead of the clock, is no longer than d |
| EventCorrelation.RulesReadTypesOnly | correlation/event_correlator.py:60-92 | the correlations depend on the types of the events and on nothing else |
| Annotations.Correlate | correlation/event_correlator.py:127-159 | the loop posts exactly the correlations whose key it has not seen since the last clear |
| Annotations.OnceBetweenClears | correlation/event_correlator.py:145-159 | two annotations with one key have a clear between them |
| Annotations.FoundIsAnnotated | correlation/event_correlator.py:145-159 | a correlation that is found has been annotated since the last clear, at the latest now |
| Annotations.SeenMeaning | correlation/event_correlator.py:145-159 | the remembered keys are exactly those annotated since the last clear |
| Annotations.AnnotatedWasFound | correlation/event_correlator.py:145-155 | what is annotated at a step was found at that step |
| Annotations.SameKey | correlation/event_correlator.py:147 | two correlations are the same for one rule, and for storms of one type only |
| Annotations.ClearsExactly | correlation/event_correlator.py:157-159 | the memory is cleared exactly when it holds more than 100 keys |
| WatchdogMonitor.Monitor | ota-updates/systemd-watchdog-example/hw-fault-monitor.c:206-310 | the loop sends the pings and status messages of the step function, turn by turn |
| WatchdogMonitor.DeltasTelescope | ota-updates/systemd-watchdog-example/hw-fault-monitor.c:255-298 | the reported deltas add up to the reading of the last turn that polled and could read, less the first reading; without a first reading there are none |
| WatchdogMonitor.StatusesAreRight | ota-updates/systemd-watchdog-example/hw-fault-monitor.c:262-296 | a message is critical above 1000 new errors, a warning above 100, and fine otherwise |
| WatchdogMonitor.IntervalMeaning | ota-updates/systemd-watchdog-example/hw-fault-monitor.c:212-217 | pings are due at half the time that the service manager gives, and every 15 seconds without one |
| WatchdogMonitor.PingsComeInTime | ota-updates/systemd-watchdog-example/hw-fault-monitor.c:249-310 | with turns shorter than a poll interval pings are less than interval plus one turn apart, and plus two turns when critical polls withhold some |
| WatchdogMonitor.CriticalPollsDoNotRestart | ota-updates/systemd-watchdog-example/hw-fault-monitor.c:261-307 | with turns of at most a quarter of the watchdog time the watchdog is always fed in time, whatever the polls read |
| WatchdogMonitor.FedInTime | ota-updates/systemd-watchdog-example/hw-fault-monitor.c:207-309 | the same whenever half the watchdog time and two turns fit into the watchdog time |
| WatchdogBound.FedExactly | ota-updates/systemd-watchdog-example/hw-fault-monitor.c:207-309 | for the turns that the loop can take, each ending with its sleep of a second, the watchdog is fed in every run if and only if turns are shorter than a poll interval and the longest wait plus two turns is shorter than the watchdog time |
| WatchdogBound.ShortIntervals | ota-updates/systemd-watchdog-example/hw-fault-monitor.c:249-309 | with a ping interval of at most n sleeps, which together with a turn fits into a poll interval, pings are at most n + 1 turns apart, whatever the polls read |
| WatchdogBound.GapIsReached | ota-updates/systemd-watchdog-example/hw-fault-monitor.c:249-309 | for intervals of up to two sleeps, or below two turns, a run of the loop, sleeps included, whose ping comes two turns after the longest wait |
| WatchdogMonitor.SlowTurnsStarve | ota-updates/systemd-watchdog-example/hw-fault-monitor.c:249-307 | once turns after the first take a whole poll interval, critical polls withhold every ping |

## Left out

- DimmAging.FitIsLeastSquares: over exact reals; rounding in floating point is not modelled, here or in the other real-valued parts.
- EdacDrain.NothingIsLost: the 64-bit totals do not wrap, and the statistics and poison files of the driver are not part of the model.
- BpfCounter.UndercountIsBounded: one program at a time per CPU; a tracepoint that interrupts another on the same CPU, and the 64-bit wrap of a counter, are not modelled.
- CardinalityGuard.Guard.AllowLabels: called by one thread at a time, so its second look-up under the write lock is not there; the step machine has it. The gauges that mirror the maps are left out.
- Cper.ParseCperRecords: section type names by GUID, and the severity text of the Python program, are left out; a record keeps its raw severity.
- Remediation.CooldownHolds: about recorded actions. A patch that succeeds before the next one fails, a process killed before the state is saved, and a controller and a webhook that overlap in the state file are outside the model, and so are the Kubernetes, Loki and Prometheus calls.
- Clusters.AnalyzeClusters: an alert list is compared as a whole; the JSON around it is left out.
- TraceParsing.TraceParser.ParseFile: the regular expressions are facts of a line, and event fields that are computed from line, follow-up line and kind are not spelled out. Appended text starts on a new line. The pending severity, which is always that of a corrected error and never read, is left out.
- TraceParsing.SettledExactly: a pattern that begins in a line and ends in the line looked up, such as a detail block that is opened and not closed, is not modelled; the patterns themselves are facts of single lines.
- BitflipAnalysis.AnalyzeBitflips: confidence and recommendation, which are constants of the pattern.
- Annotations.Correlate: input lines that are blank, no JSON or without a type are skipped before the loop of the model; the HTTP post is left out.
- WatchdogMonitor.Monitor: reading sysfs, the signal that ends the loop, and the texts of the messages.
- Smbios.IndexRoundTrip: the trimmed look-up of part numbers, the fixed fields of a Type 17 entry and the guesses about its EDAC location.
- RestartLimiter.RestartRecord.Allowed: calls are serialised by the mutex; finding and deleting the pod is left out.
- Heartbeat.SendAll: reading the health indicators and the serial port; a round's readings are parameters.
- Leader election, the survival and forecasting scripts built on external libraries, the text renderers of metrics, and the remaining collectors, which would add input and output or easier duplicates of the above.
