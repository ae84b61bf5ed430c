# Pachinko launch-parameter model

A Dafny model of the launch-prediction core of the Pachinko mini-game in
MarblesDemo. The game fires a ball from a spring so that it lands in a chosen
target zone. Each pin layout gets an offline search (`PrecomputeAllTargets`):
it fires simulated balls with random spawn positions and forces until every
target has `requiredSuccessCount` recorded hits.

- **Force ranges.** For each target, the search tracks the intervals of
  successful forces (`UpdateSuccessfulForceRanges`). Once 60% of the targets
  are done, those intervals steer the sampling (`GenerateForceValue`).
- **Storage.** Results are stored per layout under the key `PinsConfig_<i>` in
  the `BallPredictionData` store (`SaveData`, `LoadData`, `ClearData`).
- **Layout sweep.** `PrecomputeAllConfigurations` activates each layout in turn.
  It loads or recomputes the layout's entry, then restores the original layout.
  `OnValidate` and `UpdatePinsConfiguration` keep the layout index in range and
  show only the current layout.
- **Release.** At run time, `OnSpringReleased` sorts the stored hits for the
  target by force, then by distance from the ball. The spring's pull (below 30%,
  30–70%, 70% and above) picks a force band. A random index in that band picks
  the launch.
- **`PachinkoPage.SplitStringToInt`** reads an "a*b" pair of integers.

Modelling choices:

- A target (a scene `Transform`) is its index in `targetPoints`, and the
  entries of `targetPoints` are taken to be distinct (see "Left out").
  `GameObject.Find` is a resolver parameter from names to targets.
- Physics (`SimulateAndRecord`) is an oracle from launch position and force to
  the target hit, if any.
- Random.Range is a draw:
  - a float draw is `a + u * (b - a)` with `u` in [0, 1];
  - an integer draw is `pick % count`.
- Floats are `real`.
- A `Dictionary`'s enumeration order is the order in which keys were first
  added. The search tracks it as `hitOrder`.
- The search loop has no bound in the source. The model runs it on a finite
  sequence of draws and reports whether it finished before they ran out.

Two facts about the code that a reader might not expect:

- **Force ranges can overlap.** Recording a force widens only the first
  interval within 0.5 of it and never compacts the list, so two intervals can
  end up overlapping (`ForceRanges.MergeMayOverlap`).
- **No attempt budget.** The search loop has no limit on attempts and never
  abandons a target: it runs until every target reaches its quota.

## Model

| member | source | states |
|---|---|---|
| Decimal.NatToString | Assets/Lobby/Pachinko/BallPredictionController.cs:108 | a natural number prints as a non-empty digit string without a leading zero |
| Decimal.IntToString | Assets/Lobby/Pachinko/BallPredictionController.cs:108 | `int.ToString()` prints digits, with a leading '-' exactly for negative values |
| Decimal.NatToStringRoundTrip | Assets/Lobby/Pachinko/BallPredictionController.cs:108 | the printed digits denote the number that was printed |
| Decimal.IntToStringInjective | Assets/Lobby/Pachinko/BallPredictionController.cs:108 | distinct integers print as distinct strings |
| Decimal.TrimStart | Assets/Lobby/Pachinko/PachinkoPage.cs:72-73 | the result is a suffix of the input, every character removed is white space, and the result does not start with white space |
| Decimal.TrimEnd | Assets/Lobby/Pachinko/PachinkoPage.cs:72-73 | the result is a prefix of the input, every character removed is white space, and the result does not end with white space |
| Decimal.TrimNuls | Assets/Lobby/Pachinko/PachinkoPage.cs:72-73 | the result is a prefix of the input, every character removed is a NUL, and the result does not end with a NUL |
| Decimal.TrimStartOf | Assets/Lobby/Pachinko/PachinkoPage.cs:72-73 | trimming leading white space from white space followed by a non-white start gives back that rest |
| Decimal.TrimEndOf | Assets/Lobby/Pachinko/PachinkoPage.cs:72-73 | trimming trailing white space from a non-white end followed by white space gives back that start |
| Decimal.TrimNulsOf | Assets/Lobby/Pachinko/PachinkoPage.cs:72-73 | trimming trailing NULs from a string without a final NUL followed by NULs gives back that string |
| Decimal.ParseInt32 | Assets/Lobby/Pachinko/PachinkoPage.cs:72-73 | `int.Parse` only returns 32-bit values, and rejects the empty string with a format error |
| Decimal.ParseSpelled | Assets/Lobby/Pachinko/PachinkoPage.cs:72-73 | a string of white space, an optional sign, digits, white space and NULs parses to the signed value of its digits when that fits in 32 bits, and otherwise overflows |
| Decimal.FormatErrorUnlessSpelled | Assets/Lobby/Pachinko/PachinkoPage.cs:72-73 | `int.Parse` reports a format error exactly when the string does not have that shape; with ParseSpelled, every other string parses or overflows |
| Decimal.TrimSpelled | Assets/Lobby/Pachinko/PachinkoPage.cs:72-73 | trimming NULs, trailing and leading white space from such a string leaves exactly its sign and digits |
| Decimal.SignedDigitsSpelled | Assets/Lobby/Pachinko/PachinkoPage.cs:72-73 | an optional sign followed by digits reads as the signed value of the digits |
| Decimal.SpelledByTrims | Assets/Lobby/Pachinko/PachinkoPage.cs:72-73 | a string whose trimmed core is a signed number has the accepted shape |
| Decimal.ParseIntToString | Assets/Lobby/Pachinko/PachinkoPage.cs:72-73 | parsing a printed integer gives it back exactly when it fits in 32 bits, and otherwise reports an overflow |
| PachinkoPage.Split | Assets/Lobby/Pachinko/PachinkoPage.cs:69 | `Split('*')` returns at least one field, no field contains '*', and joining the fields with '*' gives back the input |
| PachinkoPage.SplitWithoutSeparator | Assets/Lobby/Pachinko/PachinkoPage.cs:69 | a string without '*' splits into itself alone |
| PachinkoPage.SplitAtFirstSeparator | Assets/Lobby/Pachinko/PachinkoPage.cs:69 | the text before the first '*' is the first field, and the rest splits on its own |
| PachinkoPage.SplitWithoutSeparatorIfSingle | Assets/Lobby/Pachinko/PachinkoPage.cs:69-73 | `parts[1]` is missing only when the input has no '*' |
| PachinkoPage.SplitStringToInt | Assets/Lobby/Pachinko/PachinkoPage.cs:66-76 | a successful read gives two 32-bit integers, and input without '*' always fails |
| PachinkoPage.FirstTwoFields | Assets/Lobby/Pachinko/PachinkoPage.cs:66-76 | the result is decided by parsing the first two fields alone, with the first field's error taking precedence, whatever follows a second '*' |
| PachinkoPage.ExtraFieldsIgnored | Assets/Lobby/Pachinko/PachinkoPage.cs:69-73 | "1*2*3" reads as (1, 2) |
| PachinkoPage.RoundTrip | Assets/Lobby/Pachinko/PachinkoPage.cs:66-76 | two 32-bit integers written as "a*b" read back as the same pair |
| ForceRanges.FirstNear | Assets/Lobby/Pachinko/BallPredictionController.cs:355-367 | the index found is the first range within 0.5 of the force, and there is none exactly when no range is within 0.5 |
| ForceRanges.Merge | Assets/Lobby/Pachinko/BallPredictionController.cs:345-371 | after recording a successful force, some range contains it. A new range [v-0.5, v+0.5] is appended exactly when no range was within 0.5. Otherwise only the first range within 0.5 is widened to include v. No range ever shrinks. |
| ForceRanges.MergeKeepsCoverage | Assets/Lobby/Pachinko/BallPredictionController.cs:361-365 | a force covered before a merge stays covered |
| ForceRanges.MergeWellFormed | Assets/Lobby/Pachinko/BallPredictionController.cs:361-370 | ranges with lo <= hi keep that shape after a merge |
| ForceRanges.MergeIdempotent | Assets/Lobby/Pachinko/BallPredictionController.cs:345-371 | recording the same force twice changes nothing the second time |
| ForceRanges.MergeMayOverlap | Assets/Lobby/Pachinko/BallPredictionController.cs:355-370 | forces 0, 1.1 and 0.9 leave two overlapping ranges: the list is not kept disjoint |
| Coverage.UniformBetween | Assets/Lobby/Pachinko/BallPredictionController.cs:337-341 | a float draw lies between the two bounds, in either order |
| Coverage.FirstUnsatisfied | Assets/Lobby/Pachinko/BallPredictionController.cs:191-200 | the target tried next is the first one below quota, and there is none exactly when all targets meet the quota |
| Coverage.CompletedCount | Assets/Lobby/Pachinko/BallPredictionController.cs:317-325 | the count is the number of targets at quota: at most the number of targets, and equal to it exactly when all are at quota |
| Coverage.UseLearnedRanges | Assets/Lobby/Pachinko/BallPredictionController.cs:317-330 | learned ranges are used exactly when there are targets, the fraction of targets at quota is at least 0.6, and the target has a learned range |
| Coverage.RateThreshold | Assets/Lobby/Pachinko/BallPredictionController.cs:327-330 | the rate test `completed / count >= 0.6` agrees with `5 * completed >= 3 * count` |
| Coverage.SpawnX | Assets/Lobby/Pachinko/BallPredictionController.cs:213-214 | the spawn x lies within spawnRadius of the spawn area's x |
| Coverage.GenerateForce | Assets/Lobby/Pachinko/BallPredictionController.cs:314-342 | Below 60% completion, or without learned ranges, the force lies between minThrustForce and maxThrustForce. Otherwise it lies in the drawn learned range, and the learned ranges cover it. |
| Coverage.SumAttemptsUpdate | Assets/Lobby/Pachinko/BallPredictionController.cs:225-226 | replacing one target's statistics changes the attempt total by exactly that target's difference |
| Coverage.Init | Assets/Lobby/Pachinko/BallPredictionController.cs:153-168 | the cleared state has every target at (0, 0) with no ranges, zero attempts, and satisfies the loop invariant |
| Coverage.Step | Assets/Lobby/Pachinko/BallPredictionController.cs:170-250 | The loop stops exactly when every target meets its quota, and otherwise tries the first target below quota. A repeated (x, force) pair is skipped. A fresh pair is simulated once: the tried target gets the attempt, the hit target gets the success, the launch record and the merged range, and every other target is left alone. |
| Coverage.Attempt | Assets/Lobby/Pachinko/BallPredictionController.cs:222-229 | An attempt adds the pair to the used pairs and one to the tried target's attempts and to the total. Success counts, launches, ranges and every other target are unchanged. |
| Coverage.Credit | Assets/Lobby/Pachinko/BallPredictionController.cs:231-250 | A miss changes nothing. A hit adds one success to the hit target, appends the launch to its records, merges the force into its ranges, and enumerates it last if it is new. Attempts, used pairs and every other target are unchanged. |
| Coverage.CreditAttempt | Assets/Lobby/Pachinko/BallPredictionController.cs:225-250 | counting an attempt and then crediting a hit change exactly the attempted target's attempts, the hit target's successes, launches and ranges, the used pairs and the total |
| Coverage.StepPreservesInv | Assets/Lobby/Pachinko/BallPredictionController.cs:209-250 | A simulated trial keeps the loop invariant: each success count equals the number of records. Attempts add up to the total, which equals the number of used pairs. Every record is a real hit on its target, drawn from a used pair, and covered by that target's ranges. |
| Coverage.AttemptPreservesInv | Assets/Lobby/Pachinko/BallPredictionController.cs:217-229 | counting an attempt with a fresh pair keeps the loop invariant |
| Coverage.CreditPreservesInv | Assets/Lobby/Pachinko/BallPredictionController.cs:232-250 | crediting the target the physics reports keeps the loop invariant |
| Coverage.Run | Assets/Lobby/Pachinko/BallPredictionController.cs:170-250 | the loop keeps its invariant, reports finished exactly when every target meets its quota, and runs at most one simulation per draw |
| Coverage.SweepCache | Assets/Lobby/Pachinko/BallPredictionController.cs:163-243 | after the loop, launch records exist only for hit targets, while statistics and ranges exist for every target |
| Coverage.SingleTargetNeverOvershoots | Assets/Lobby/Pachinko/BallPredictionController.cs:191-236 | with one target, its success count never exceeds the quota |
| Coverage.QuotaScenario | Assets/Lobby/Pachinko/BallPredictionController.cs:170-250 | with one target, a quota of 5 and physics that hits for forces in [12, 15], a finished loop holds exactly 5 records, all with forces in [12, 15] |
| PredictionStore.Find | Assets/Lobby/Pachinko/BallPredictionData.cs:44 | `List.Find` returns the first entry with the name, and none exactly when no entry has it |
| PredictionStore.FindUnique | Assets/Lobby/Pachinko/BallPredictionData.cs:44 | an entry with the name and no earlier such entry is the one found |
| PredictionStore.Clear | Assets/Lobby/Pachinko/BallPredictionData.cs:31-35 | clearing leaves no entries and an empty current name |
| PredictionStore.Positions | Assets/Lobby/Pachinko/BallPredictionData.cs:65-69 | the stored position list is index-aligned with the launches |
| PredictionStore.Forces | Assets/Lobby/Pachinko/BallPredictionData.cs:65-69 | the stored force list is index-aligned with the launches |
| PredictionStore.Zip | Assets/Lobby/Pachinko/BallPredictionData.cs:108-112 | reloaded launch k pairs position k with force k, with one launch per stored position |
| PredictionStore.ZipPositionsForces | Assets/Lobby/Pachinko/BallPredictionData.cs:108-112 | splitting launches into the two stored lists and zipping them back gives the launches back |
| PredictionStore.BuildTargetData | Assets/Lobby/Pachinko/BallPredictionData.cs:56-84 | a saved target keeps its name and all its launches, with statistics and ranges when they are present and zero or empty otherwise |
| PredictionStore.BuildTargetDatas | Assets/Lobby/Pachinko/BallPredictionData.cs:55-85 | one saved target per launch-cache key, in enumeration order, each readable back |
| PredictionStore.Save | Assets/Lobby/Pachinko/BallPredictionData.cs:37-89 | An existing entry with the name is overwritten in place and every other entry is unchanged; otherwise a new entry is appended. The entry is marked valid and holds the total and one target per launch-cache key. The name becomes current, and the store stays readable. |
| PredictionStore.SaveKeepsNameUnique | Assets/Lobby/Pachinko/BallPredictionData.cs:44-49 | saving never creates a second entry with the same name |
| PredictionStore.Resolved | Assets/Lobby/Pachinko/BallPredictionData.cs:114-121 | the set contains exactly the targets that some saved name resolves to |
| PredictionStore.LoadTargets | Assets/Lobby/Pachinko/BallPredictionData.cs:106-122 | exactly the targets whose names resolve are loaded, into all three dictionaries |
| PredictionStore.LoadTargetsLast | Assets/Lobby/Pachinko/BallPredictionData.cs:115-121 | a target's loaded data comes from the last saved entry resolving to it |
| PredictionStore.Load | Assets/Lobby/Pachinko/BallPredictionData.cs:91-126 | Load fails exactly when the entry is missing or invalid, and then returns three empty dictionaries and leaves the store untouched. Otherwise it returns the entry's resolved targets and makes the name current. |
| PredictionStore.SavedTargets | Assets/Lobby/Pachinko/BallPredictionData.cs:52-88 | after a save, the entry under the name holds exactly the freshly built target list |
| PredictionStore.ResolvedBuilt | Assets/Lobby/Pachinko/BallPredictionData.cs:114-121 | when names resolve back to their targets, the saved names resolve to exactly the saved targets |
| PredictionStore.BuiltNamesResolve | Assets/Lobby/Pachinko/BallPredictionData.cs:114-121 | each saved target's name resolves back to the target it was saved for |
| PredictionStore.ResolvedWithinBuilt | Assets/Lobby/Pachinko/BallPredictionData.cs:114-121 | reloading saved names finds no target that the saved cache lacked |
| PredictionStore.BuiltWithinResolved | Assets/Lobby/Pachinko/BallPredictionData.cs:114-121 | reloading saved names finds every target of the saved cache |
| PredictionStore.LoadBuiltKey | Assets/Lobby/Pachinko/BallPredictionData.cs:106-122 | each saved target reloads with its launches, statistics and ranges |
| PredictionStore.LoadBuiltTargets | Assets/Lobby/Pachinko/BallPredictionData.cs:106-122 | loading a freshly built target list gives back what the save persisted |
| PredictionStore.SaveThenLoad | Assets/Lobby/Pachinko/BallPredictionData.cs:37-126 | saving a name and then loading it succeeds and returns the saved launches, with zero statistics or empty ranges only where the cache had none |
| PredictionStore.LoadIgnoresCurrentName | Assets/Lobby/Pachinko/BallPredictionData.cs:91-126 | which configuration is current does not change whether a load succeeds or what it returns |
| PredictionStore.ClearThenLoad | Assets/Lobby/Pachinko/BallPredictionData.cs:100-104 | after a clear, every load fails with empty dictionaries |
| PredictionStore.SaveKeepsOtherEntries | Assets/Lobby/Pachinko/BallPredictionData.cs:44-49 | saving one name changes neither the entry stored under any other name nor whether that name loads |
| PredictionStore.Entry | Assets/Lobby/Pachinko/BallPredictionData.cs:44 | the entry stored under a name: present exactly when some entry has the name, and then one of the store's entries with that name |
| PredictionStore.SaveEntry | Assets/Lobby/Pachinko/BallPredictionData.cs:37-89 | after a save, the entry under the name is valid, holds the total and the freshly built target list |
| PredictionStore.LoadByEntry | Assets/Lobby/Pachinko/BallPredictionData.cs:91-126 | two stores with the same entry under a name load the same result for it |
| PredictionStore.SavedEntryLoads | Assets/Lobby/Pachinko/BallPredictionData.cs:37-126 | a store holding a saved entry under a name loads back what that save persisted, when target names resolve |
| Layouts.ConfigKey | Assets/Lobby/Pachinko/BallPredictionController.cs:108 | the key is `PinsConfig_` followed by a number that parses back to the layout index |
| Layouts.ConfigKeyInjective | Assets/Lobby/Pachinko/BallPredictionController.cs:108 | different layouts have different keys `PinsConfig_<i>` |
| Layouts.KeysOfOtherLayoutsDiffer | Assets/Lobby/Pachinko/BallPredictionController.cs:108 | no other layout shares layout i's key |
| Layouts.Exclusive | Assets/Lobby/Pachinko/BallPredictionController.cs:102-105 | exactly the chosen layout is active |
| Layouts.ClampIndex | Assets/Lobby/Pachinko/BallPredictionController.cs:598-601 | the index lands in range, is kept when already valid, and goes to the nearest end otherwise |
| Layouts.UpdatePinsConfiguration | Assets/Lobby/Pachinko/BallPredictionController.cs:618-634 | With layouts present, only the current layout is active, and the three dictionaries and the store are what loading its key returned, empty dictionaries on failure included. Without layouts nothing changes. |
| Layouts.OnValidate | Assets/Lobby/Pachinko/BallPredictionController.cs:596-608 | The index is clamped into range. While playing, exactly that layout is active and its entry is loaded into the dictionaries and the store. Outside play mode the layouts, dictionaries and store are untouched. |
| Layouts.PrecomputeAllTargets | Assets/Lobby/Pachinko/BallPredictionController.cs:142-311 | Without targets nothing happens. Otherwise the search gives up only when the draws run out. A finished search leaves its dictionaries as the cache and saves them under the layout's key: that entry is valid, no other entry changes validity, and no entry is invalidated. |
| Layouts.PrecomputeThenLoad | Assets/Lobby/Pachinko/BallPredictionController.cs:108-114 | when target names resolve back to the targets, loading the layout's key right after a finished search succeeds and returns what the save persisted |
| Layouts.SavedRunLoads | Assets/Lobby/Pachinko/BallPredictionData.cs:37-126 | the search's final dictionaries are valid arguments for a save, and loading them back returns what was persisted |
| Layouts.ProcessLayout | Assets/Lobby/Pachinko/BallPredictionController.cs:93-124 | The layout is shown alone under its own key. It is recomputed exactly when forced or when its entry is missing or invalid. It is then shown with what its search found, and the store is the starting store with that search saved under the layout's key. Otherwise it is shown with what loading its entry returned. Without targets no entry changes. The iteration stops the sweep exactly when a needed search runs out of draws. Afterwards its entry is valid and no other entry changed validity. |
| Layouts.ProcessLayoutEntries | Assets/Lobby/Pachinko/BallPredictionController.cs:93-124 | one iteration changes no other layout's entry, and changes its own entry only when it recomputes with targets, to exactly what its search saved |
| Layouts.LayoutRun | Assets/Lobby/Pachinko/BallPredictionController.cs:142-311 | the search run for one layout keeps the search invariant and ends with dictionaries that a save accepts |
| Layouts.VisitLayouts | Assets/Lobby/Pachinko/BallPredictionController.cs:92-123 | The loop visits every layout in order, alone active, under its own key, recomputing exactly when forced or when the starting entry is not valid. It stops only when a needed search runs out of draws. Afterwards each recomputed layout's entry is what its search saved and each other entry is the starting one. |
| Layouts.SweepStepVisit | Assets/Lobby/Pachinko/BallPredictionController.cs:92-123 | one more iteration extends the in-order visit record by that layout |
| Layouts.SweepStepLoadable | Assets/Lobby/Pachinko/BallPredictionController.cs:92-123 | one more iteration leaves unvisited layouts as valid as at the start and, with targets, makes the visited one valid |
| Layouts.SweepStepEntries | Assets/Lobby/Pachinko/BallPredictionController.cs:92-123 | one more iteration extends "each visited entry is its own search's save or its starting entry" by that layout |
| Layouts.EntriesLoad | Assets/Lobby/Pachinko/BallPredictionData.cs:91-126 | from such a store, a recomputed layout loads what its search persisted and any other layout loads what it loaded at the start |
| Layouts.PrecomputeAllConfigurations | Assets/Lobby/Pachinko/BallPredictionController.cs:87-139 | Every layout is visited in order, alone active, under its own key. A layout is recomputed exactly when forced or when its entry in the starting store is missing or invalid. Afterwards the original index and activation are restored, and the dictionaries hold what the final store has for the original layout. With targets, every layout has a valid entry and the original layout's entry is current. Each recomputed layout's entry is exactly what its own search saved, and every other entry is the starting one. So, when target names resolve, a recomputed layout loads what its search persisted and any other layout loads what it loaded at the start. Without forcing, a store with every entry valid cannot fail. |
| Layouts.SweepTwice | Assets/Lobby/Pachinko/BallPredictionController.cs:109-115 | an unforced second sweep after a completed one recomputes no layout |
| Selector.Insert | Assets/Lobby/Pachinko/BallPredictionController.cs:456-464 | inserting into the ordered list keeps it ordered by force, then distance, and adds exactly that launch |
| Selector.Sort | Assets/Lobby/Pachinko/BallPredictionController.cs:456-464 | the candidate list is a permutation of the stored launches, ordered by force and then distance |
| Selector.MinForce | Assets/Lobby/Pachinko/BallPredictionController.cs:469 | the weakest force is one of the stored forces and no stored force is below it |
| Selector.MaxForce | Assets/Lobby/Pachinko/BallPredictionController.cs:470 | the strongest force is one of the stored forces and no stored force is above it |
| Selector.SortEnds | Assets/Lobby/Pachinko/BallPredictionController.cs:469-470 | the ordered list starts at the weakest and ends at the strongest stored force |
| Selector.SortedFirst | Assets/Lobby/Pachinko/BallPredictionController.cs:469 | any force-sorted permutation starts at the weakest force |
| Selector.SortedLast | Assets/Lobby/Pachinko/BallPredictionController.cs:470 | any force-sorted permutation ends at the strongest force |
| Selector.FindIndex | Assets/Lobby/Pachinko/BallPredictionController.cs:478 | `FindIndex` gives the first index whose force reaches the threshold, or -1 exactly when none does |
| Selector.FindLastIndex | Assets/Lobby/Pachinko/BallPredictionController.cs:486 | `FindLastIndex` gives the last index whose force is at most the threshold, or -1 exactly when none is |
| Selector.RawWindow | Assets/Lobby/Pachinko/BallPredictionController.cs:474-493 | A pull of at least 70% runs from the first force at 70% of the span to the last index. A pull of at least 30% runs from the first force at 30% to the last force at 70%. A weaker pull runs from index 0 to the last force at 30%. Each bound is -1 when no force qualifies. |
| Selector.FixWindow | Assets/Lobby/Pachinko/BallPredictionController.cs:496-498 | The start is raised to 0, the end is cut to the last index, and the start is then lowered to the end. A valid window is kept, and any window with a non-negative end becomes a non-empty range of valid indices. |
| Selector.SelectWindow | Assets/Lobby/Pachinko/BallPredictionController.cs:474-498 | after the index fixes, the band is a non-empty range of valid indices |
| Selector.WindowIsBand | Assets/Lobby/Pachinko/BallPredictionController.cs:474-498 | an index lies in the selected band exactly when its force is in the band the pull selects |
| Selector.HighWindow | Assets/Lobby/Pachinko/BallPredictionController.cs:475-480 | at 70% pull or more, the band is exactly the forces in the top 30% of the span |
| Selector.MiddleWindow | Assets/Lobby/Pachinko/BallPredictionController.cs:481-487 | between 30% and 70% pull, the band is the middle 40% of the span, or the strongest force below it when that part is empty |
| Selector.LowWindow | Assets/Lobby/Pachinko/BallPredictionController.cs:488-493 | below 30% pull, the band is exactly the forces in the bottom 30% of the span |
| Selector.SelectIndex | Assets/Lobby/Pachinko/BallPredictionController.cs:501 | the random index is valid and lies in the selected band |
| Selector.EveryBandIndexReachable | Assets/Lobby/Pachinko/BallPredictionController.cs:501 | every index in the band is chosen by some draw |
| Selector.BandForce | Assets/Lobby/Pachinko/BallPredictionController.cs:466-498 | a force in the band satisfies the band's bound relative to the weakest and strongest force |
| Selector.ChosenInBand | Assets/Lobby/Pachinko/BallPredictionController.cs:456-502 | the chosen launch is one of the stored ones, and its force lies in the band the pull selects |
| Selector.ChooseTarget | Assets/Lobby/Pachinko/BallPredictionController.cs:435-437 | a random target is one of the targets, and otherwise the selected target is used |
| Selector.StoredLaunches | Assets/Lobby/Pachinko/BallPredictionController.cs:442-450 | launches are only found when the layout's entry is valid |
| Selector.OnSpringReleased | Assets/Lobby/Pachinko/BallPredictionController.cs:432-521 | Without a target nothing happens. Otherwise the layout's entry is loaded, and a launch is handed over exactly when the target has stored launches and the ball has a controller. That launch is one of the stored ones, with a force in the band the pull selects. |

## Left out

- Physics, coroutine timing and the `yield` frames, `Debug` logging, the `computationStatus`/`targetStatus` strings, `isComputing`, gizmos, and `EditorUtility`/`AssetDatabase` persistence. They change none of the modelled state, or they are the physics oracle.
- useDateBasedSelection and the date-based code paths: they depend on the clock.
- Unity's serialization of the stored lists is not modelled. The store is a value and holds the data directly.
- Floats are `real`, so `0.7f`, `0.3f`, `0.6f` and `0.5f` are exact. The completion test `completed / count >= 0.6f` is computed as `5 * completed >= 3 * count`, which `Coverage.UseLearnedRanges` proves equal to the test on exact rationals.
- Rounding is not modelled. The (x, force) duplicate check compares exact reals, not 32-bit floats.
- 32-bit wrap-around of `totalSimulationAttempts` and the per-target counters is not modelled. They are unbounded naturals.
- Null `pinsList` entries, null `targetPoints` and a null `predictionData`: the model assumes they are present. In the source, a null store makes loading throw.
- ValidSim: the physics may only report one of `targetPoints`. The source would throw on any other hit when it looks up `successRates[hitTarget]`.
- Selector.Sort is proved ordered by force then distance and a permutation of its input. It is not proved to keep ties in input order, as LINQ's stable `OrderBy` does.
- `Decimal.ParseInt32` models `int.Parse` with the default `NumberStyles.Integer` and the invariant culture. White space is U+0009 to U+000D and U+0020, and trailing NUL characters are accepted. Culture-specific signs, full-width digits and a null string are not modelled.
- Randomness is modelled as draw parameters: `Random.Range` on floats is `a + u * (b - a)` with `u` in [0, 1], and on integers it is `pick % count`.
- Selector.ChooseTarget requires a non-empty target list when `useRandomTarget` is set. The source then indexes an empty array and throws.
- PredictionStore.Load requires every stored entry to have at least as many forces as positions. The source throws otherwise, and every store that `Save` builds meets this.
- Coverage.Run: the source loop has no bound and may never end. The model runs on a finite sequence of draws. `Layouts.PrecomputeAllTargets` returns `None` when the draws run out, and `Layouts.PrecomputeAllConfigurations` then returns `ok == false`.
- Layouts.OnValidate runs `UpdatePinsConfiguration` one frame later in the source. The model applies it at once.
- Selector.SelectWindow: NaN and infinite forces are not modelled, because forces are reals. For them `FindLastIndex` can return -1 and `suitableParams[-1]` would throw. For finite forces the end threshold is never below the weakest force, and a start of -1 is fixed to 0.
- Selector.OnSpringReleased takes the ball's x position and its `BallController` presence as parameters. `SetTargetPosition` is reduced to the chosen launch.
- Coverage.Config: `targetPoints` is assumed to hold distinct Transforms. The source keys `successRates`, `launchParamsCache` and `targetForceRanges` by Transform, so a Transform listed twice shares one entry and one hit credits both positions; the model keeps one entry per position.
- Coverage.SpawnX: the spawn y is `spawnArea.position.y`, and the spawn area is a parameter of the search.
