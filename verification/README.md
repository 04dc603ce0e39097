# A model of the MMTk binding for the Android Runtime

The binding lets MMTk manage the heap of the Android Runtime (ART). This project models the parts
of it that hold algorithms of their own and proves what they guarantee:

- **The GC trigger** (`Trigger`, `TriggerProperties`, `TriggerLaws`, `PollInterleaving`,
  `PollAnswers`). The heap-sizing state is
  modelled twice: as a class whose operations run as whole steps, and as a transition system in
  which any number of threads interleave one atomic operation at a time. Reserved pages, the plan's
  own answer, and spurious failures of weak exchanges are arbitrary. Page counts are 64-bit and
  wrap as in a build without overflow checks; `f64` is modelled by reals with the saturating,
  truncating cast.
- **Class layout, object sizes and the object scanner** (`ClassLayout`, `Bitmap`, `ObjectModel`,
  `Scanner`, `ScanLaws`, `Copying`). Memory is a map from byte addresses to 32-bit words. `WellFormedObject`
  collects what the runtime guarantees about an object and its class; `ComputedSizeFits` derives the
  part about static fields and bitmaps from the layout computation itself.
- **Weak-reference phases and root buffers** (`WeakRefs`, `RootBuffers`).
- **Slots and the heap's address range** (`Slots`).

Each operation that works by updating fields or running a loop is a method proved equal to a
function of the old state; the properties are proved of those functions. `TriggerLaws`,
`PollAnswers` and `ScanLaws` say what these functions do in terms of something else: the
configuration and readings, the shared state of the moment, and the words of memory.

## Where the code and its comments differ

The model follows the code.

- The comment on the target footprint says a collection is triggered above it; the poll loop raises
  the target up to the growth limit instead (`PollDecides`).
- Clamping the maximum heap size leaves the cached foreground minimum alone, so the limits hold over
  a run exactly when every clamp spares that minimum (`RunStaysWithinLimits`,
  `ClampThenSwitchPassesLimit`), and the target alone exactly when every switch finds the minimum
  within the limit (`TargetStaysWithinLimitExactly`); the end of any collection restores them
  (`CollectionRestoresLimits`).
- Polls that overlap can absorb the same pending pages twice: two pollers between exchange and
  withdrawal (`TwoPollersAbsorbTwice`), or a foreground switch that brings the target back to what a
  poller had read (`LoweredTargetAbsorbsTwice`). Over every run this never happens if and only if
  every successful exchange is covered: the pages registered between its load of the counter and the
  exchange are no fewer than those others absorbed in that time together with those they had absorbed
  and not withdrawn at the load (`PagesAreAbsorbedOnceExactly`). While no switch lowers the target the
  first of the two is zero (`SteadyTargetAbsorbsOnceExactly`), and pages are never absorbed twice when
  polls do not overlap (`RegisteredPagesAreAbsorbedOnce`).
- The comment on the heap's place names 1788 MiB as the largest heap below the boot image at
  0x7000_0000. The slack of five chunks at the end of the heap takes 20 MiB of that: the heap stays
  below the image if and only if the capacity is at most 1768 MiB
  (`HeapEndsBelowBootImageExactly`, `LargestNamedHeapMeetsBootImage`).
- The foreground switch does not test its guard again after a failed exchange, so it can lower the
  target (`SwitchLowersTarget`, `TargetFallsExactly`); no run takes the target
  past its start, the growth limit and the cached minimum (`TargetStaysBelowCeiling`).

## Model

| member | source | states |
|---|---|---|
| Trigger.ArtTrigger.constructor | mmtk/src/gc_trigger.rs:64-87 | a new trigger holds its byte sizes in pages, with nothing pending and no cached foreground minimum |
| Trigger.ArtTrigger.CompareExchangeTarget | mmtk/src/gc_trigger.rs:131-139 | the exchange succeeds exactly when the target is the expected one and it does not fail spuriously, and changes nothing else |
| Trigger.ArtTrigger.SetIdealFootprint | mmtk/src/gc_trigger.rs:97-103 | the stored target is the wanted size cut off at the growth limit |
| Trigger.ArtTrigger.OnPendingAllocation | mmtk/src/gc_trigger.rs:203-205 | adds to the pending counter, wrapping, and changes nothing else |
| Trigger.ArtTrigger.OnGcStart | mmtk/src/gc_trigger.rs:207-211 | records the reserved pages and changes nothing else |
| Trigger.ArtTrigger.SetTargetForUtilization | mmtk/src/gc_trigger.rs:153-199 | the whole state after a resize, for nursery and full-heap collections, with pending pages, the limit and the cached foreground minimum |
| Trigger.ArtTrigger.OnGcEnd | mmtk/src/gc_trigger.rs:213-217 | resizes, then forgets pending pages and the size before the collection |
| Trigger.ArtTrigger.IsGcRequired | mmtk/src/gc_trigger.rs:219-252 | for any attempts, each with its own reading of the reserved pages and possibly a spurious failure, the poll loop ends with the state and answer of one whole poll at the first attempt that is not a spurious failure, or asks because the plan does |
| Trigger.ArtTrigger.GrowHeapOnJankPerceptibleSwitch | mmtk/src/gc_trigger.rs:127-141 | run alone, the switch leaves the larger of the target and the cached minimum |
| Trigger.ArtTrigger.ClampCapacityToGrowthLimit | mmtk/src/gc_trigger.rs:109-112 | the capacity becomes the growth limit and nothing else changes |
| Trigger.ArtTrigger.ClearLimit | mmtk/src/gc_trigger.rs:115-124 | the growth limit becomes the capacity, and so does a target that stood at the old limit |
| Trigger.ArtTrigger.ClampMaxHeap | mmtk/src/gc_trigger.rs:272-279 | capacity, growth limit and target all become the given size in pages |
| TriggerProperties.RunStaysWithinLimits | mmtk/src/gc_trigger.rs:97-141 | over every sequence of operations, target and cached minimum stay within the growth limit and that within the capacity, if and only if no clamp goes below the minimum cached at that moment |
| TriggerProperties.FreshTriggerStaysWithinLimits | mmtk/src/gc_trigger.rs:64-87 | the same from a new trigger whose byte sizes are ordered |
| TriggerProperties.CapacityBoundsGrowthLimit | mmtk/src/gc_trigger.rs:40-41 | growth limit <= capacity over every run, with or without clamps |
| TriggerProperties.CollectionRestoresLimits | mmtk/src/gc_trigger.rs:213-217 | after any run, the end of a collection brings the trigger back within all limits |
| TriggerProperties.TargetPassesLimitExactly | mmtk/src/gc_trigger.rs:127-141 | a step takes the target past the growth limit exactly when it is a foreground switch with a cached minimum above the limit |
| TriggerProperties.TargetStaysWithinLimitExactly | mmtk/src/gc_trigger.rs:97-141 | over every sequence of operations, clamps included, the target never passes the growth limit if and only if every foreground switch finds the cached minimum within it |
| TriggerProperties.ClampThenSwitchPassesLimit | mmtk/src/gc_trigger.rs:272-279 | a concrete run in which a clamp and a switch put the target at 60 pages over a limit of 50 |
| TriggerProperties.ClearingTheLimit | mmtk/src/gc_trigger.rs:109-124 | clearing keeps a full heap full and a growable one growable; after clamping the capacity it changes nothing |
| TriggerProperties.PollDecides | mmtk/src/gc_trigger.rs:225-249 | a poll asks for a collection exactly when reserved plus pending exceeds both target and limit; otherwise what remains fits under the new target; a second poll agrees and changes nothing |
| TriggerProperties.RepeatedPollsSettle | mmtk/src/gc_trigger.rs:225-249 | any number of polls at the same reserved pages leaves the state, and gives the answer, of the first |
| TriggerProperties.ResizeCoversReserved | mmtk/src/gc_trigger.rs:160-182 | the resized heap covers the reserved pages, so the subtraction against pending pages does not underflow |
| TriggerProperties.PendingPagesGetRoom | mmtk/src/gc_trigger.rs:180-184 | after a collection with pages pending, the target is the limit or leaves room for them; registering no more than that again and polling passes without moving the target |
| TriggerProperties.BackgroundThenSwitchMatchesForeground | mmtk/src/gc_trigger.rs:172-195 | a background full-heap collection and a switch to the foreground reach exactly the target of a foreground full-heap collection |
| TriggerProperties.BackgroundNurseryThenSwitchReachesForeground | mmtk/src/gc_trigger.rs:160-171 | for nursery collections they reach at least that target |
| TriggerProperties.FreeSpaceIsBounded | mmtk/src/gc_trigger.rs:172-178 | with nothing pending and no limit in the way, free space lies between the scaled minimum and the scaled maximum |
| TriggerProperties.TargetMeetsUtilization | mmtk/src/gc_trigger.rs:173-177 | left to itself, a background full-heap collection sets the largest target of which the reserved pages are the wanted fraction |
| TriggerLaws.NurserySizing | mmtk/src/gc_trigger.rs:153-199 | after a nursery collection the heap keeps its size, except that it covers the reserved pages and leaves no more than the scaled maximum free; with pending pages, the limit, the cached minimum and everything else of the new state |
| TriggerLaws.FullHeapSizing | mmtk/src/gc_trigger.rs:153-199 | after a full-heap collection the heap grows from the reserved pages by the scaled minimum when the utilization asks for less, by the scaled maximum when it asks for more, and otherwise by what it asks for; with the rest of the new state |
| TriggerLaws.ZeroUtilizationSizing | mmtk/src/gc_trigger.rs:172-178 | with a utilization of zero it grows by the larger bound, or by the minimum when nothing is reserved |
| TriggerLaws.PollMovesExactly | mmtk/src/gc_trigger.rs:225-249 | a poll changes nothing unless the wanted pages are above the target and within the limit, and then the target becomes exactly those pages and nothing stays pending |
| TriggerLaws.DecidingIsFirstFairAttempt | mmtk/src/gc_trigger.rs:225-249 | the attempt that decides a poll is the first one that does not fail spuriously while raising the target |
| TriggerLaws.RegistrationsAddUp | mmtk/src/gc_trigger.rs:203-205 | any number of registrations add up in the counter, whatever it held, modulo 2^64, and change nothing else |
| TriggerLaws.ClearingMovesExactly | mmtk/src/gc_trigger.rs:115-124 | clearing moves the limit to the capacity, with it a target that stood at the limit, and keeps every other target |
| TriggerLaws.SizesAreInPages | mmtk/src/gc_trigger.rs:64-87 | sizes given in bytes, to a new trigger or a clamp, become whole pages of 4096 bytes; a clamp keeps the cached minimum and the counters |
| TriggerLaws.SwitchReachesMinimum | mmtk/src/gc_trigger.rs:127-141 | run as one step, the switch reaches the cached minimum, never lowers the target, and changes nothing else |
| TriggerLaws.SizeBeforeCollectionIsKept | mmtk/src/gc_trigger.rs:207-217 | over every run the recorded size is that of the last start of a collection that has not ended |
| PollInterleaving.StepProgress | mmtk/src/gc_trigger.rs:225-249 | one atomic step of any poller never lowers the target, and raises it exactly when it is a successful exchange |
| PollInterleaving.RunProgress | mmtk/src/gc_trigger.rs:225-249 | every run of pollers keeps the invariant behind these bounds |
| PollInterleaving.TargetRisesWithinLimit | mmtk/src/gc_trigger.rs:225-249 | between any two points of any interleaving of pollers and registrations, the target does not fall or pass the growth limit, and successful exchanges are no more than the pages it rose by |
| PollInterleaving.PollersAreWaitFree | mmtk/src/gc_trigger.rs:225-249 | over a whole run each thread's non-spurious exchange failures are at most the room below the limit, its own steps are at most six per poll, spurious failure and page of room, and all its polls but the one in flight have been answered |
| PollInterleaving.EveryPollIsAnswered | mmtk/src/gc_trigger.rs:225-249 | over every run of polls and switches, each poll a thread began has an answer or is in flight: none gives up |
| PollInterleaving.CallsAreLockFree | mmtk/src/gc_trigger.rs:127-249 | over every run of polls and switches each thread's non-spurious failed exchanges are at most the steps that changed the target, those are at most the calls begun by all threads, and its own steps are at most six per call, spurious failure and change of the target |
| PollInterleaving.TargetFallsExactly | mmtk/src/gc_trigger.rs:127-141 | with switches running too, a step lowers the target exactly when it is a switch whose exchange failed before and then read a target above the cached minimum |
| PollInterleaving.TargetStaysBelowCeiling | mmtk/src/gc_trigger.rs:127-249 | over every run of pollers, registrations and switches the target stays at or below the larger of its start, the growth limit and the cached minimum |
| PollInterleaving.SwitchLowersTarget | mmtk/src/gc_trigger.rs:129-139 | a concrete interleaving in which a switch lowers the target from 30 to 20 |
| PollInterleaving.PendingCountsBalance | mmtk/src/gc_trigger.rs:203-249 | for any number of pollers the pending counter is registered minus absorbed plus not yet withdrawn pages, modulo 2^64 |
| PollInterleaving.ExchangeRepeatsPagesExactly | mmtk/src/gc_trigger.rs:226-247 | after any run without double absorption the counter is exact, and the next step absorbs pages twice exactly when it is a successful exchange that is not covered |
| PollInterleaving.PagesAreAbsorbedOnceExactly | mmtk/src/gc_trigger.rs:127-249 | from idle threads and an exact counter, over every run of any number of polls, switches and registrations that do not overflow the counter, pages absorbed never exceed pages registered if and only if every successful exchange is covered: what others had outstanding at its load and have absorbed since is no more than what was registered since |
| PollInterleaving.SteadyTargetAbsorbsOnceExactly | mmtk/src/gc_trigger.rs:203-249 | over every run in which no switch lowers the target, such as any run of pollers, pages are absorbed once if and only if the pages outstanding at each exchanging poll's load are no more than those registered since |
| PollInterleaving.RegisteredPagesAreAbsorbedOnce | mmtk/src/gc_trigger.rs:203-249 | with one poll in flight at a time, but registrations and switches between its operations and any spurious failures, each registered page is pending or absorbed once and the counter never wraps |
| PollInterleaving.TwoPollersAbsorbTwice | mmtk/src/gc_trigger.rs:228-247 | a concrete interleaving of two pollers that absorbs five pages twice and wraps the counter |
| PollInterleaving.LoweredTargetAbsorbsTwice | mmtk/src/gc_trigger.rs:130-249 | a concrete interleaving in which a switch brings the target back to a poller's stale reading and five pages are absorbed twice, with nothing outstanding at the load |
| PollInterleaving.UndisturbedPollIsOneStep | mmtk/src/gc_trigger.rs:225-249 | the atomic operations of a poll with nothing in between change the shared fields and answer as the whole-step poll does |
| PollInterleaving.UndisturbedSwitchIsOneStep | mmtk/src/gc_trigger.rs:127-141 | the atomic operations of a switch with nothing in between change the target as the whole-step switch does |
| PollAnswers.PollEndsExactly | mmtk/src/gc_trigger.rs:225-249 | a step takes a thread out of a poll if and only if it withdraws its pages, or compares a sum within the target it read or above the growth limit; a failed exchange changes nothing shared and starts over from the load of the target |
| PollAnswers.SwitchEndsExactly | mmtk/src/gc_trigger.rs:127-141 | a step takes a thread out of a switch if and only if its guard finds the target at the minimum, or its exchange finds the target it last saw and stores the minimum; a failed exchange remembers the current target |
| PollAnswers.StepAnswers | mmtk/src/gc_trigger.rs:225-249 | a step answers a poll exactly when it ends it, with the verdict on what that poll read last |
| PollAnswers.PollsAnswerWhatTheyRead | mmtk/src/gc_trigger.rs:225-249 | over every run, polls begun are those that declined, those that asked, those that raised the target and the one in flight; each answer is the verdict on the target, reserved pages and pending pages read last, so a poll asks exactly when their sum was above both that target and the limit |
| PollAnswers.PollsInstallWhatTheyRead | mmtk/src/gc_trigger.rs:239-247 | after any run a poll changes shared state only by storing the sum it read in a target that is still the one it read, or by withdrawing the pending pages it read |
| PollAnswers.ExchangesAreAnsweredOnce | mmtk/src/gc_trigger.rs:239-248 | over every run the successful exchanges are the polls answered as raising the target and those that have still to withdraw |
| ClassLayout.NoChoiceBeatsGreedy | mmtk/src/abi.rs:656-670 | no choice of 4, 2 and 1-byte fields fills a gap of any size better than widest first |
| ClassLayout.GreedyPaddingIsLeast | mmtk/src/abi.rs:656-670 | the padding left by widest first is the least, and is reached by some choice |
| ClassLayout.FillGap | mmtk/src/abi.rs:656-670 | the three loops leave the least padding of any choice, and move exactly the bytes they account for |
| ClassLayout.TablesEnd | mmtk/src/abi.rs:640-648 | end of the fixed part and the embedded tables |
| ClassLayout.PrimitivesEnd | mmtk/src/abi.rs:650-678 | end of the primitive statics: references, all primitive bytes and the least padding |
| ClassLayout.ComputeClassSize | mmtk/src/abi.rs:629-687 | the computed size is that of the layout with least padding, with the bitmap at the next word |
| ClassLayout.LayoutConservesSpace | mmtk/src/abi.rs:650-678 | for all counts, the bytes of a class without a bitmap are tables, four per reference, the widths of all primitives, and padding before 64-bit fields that no choice improves; these fields start 8-aligned |
| ClassLayout.BitmapFollowsStatics | mmtk/src/abi.rs:680-684 | a bitmap adds four bytes a word from the first word boundary after the static fields |
| ClassLayout.VtableEndsAtReferences | mmtk/src/abi.rs:640-648 | an embedded vtable has its length, a pointer-aligned interface table pointer and its entries, which end exactly where static references start |
| ClassLayout.LayoutIsCoherent | mmtk/src/abi.rs:595-612 | the size computed with zero counts is where references start for any counts; the bitmap found from the end is word aligned and after every static field |
| ClassLayout.FirstReferenceStaticFieldsOffset | mmtk/src/abi.rs:595-612 | the offset returned is where static references start |
| Bitmap.WordBitsAreExact | mmtk/src/object_scanning.rs:30-38 | the shift loop finds each set bit of a word once, in ascending order |
| Bitmap.BitsAreExact | mmtk/src/object_scanning.rs:40-61 | for a bitmap of any number of words, the bits found are the set bits of the concatenated words, once each and ascending |
| Bitmap.OverflowRoundTrip | mmtk/src/abi.rs:400-406 | any set of reference bits written as overflow words and scanned comes back whole and in order |
| Bitmap.InlineMatchesOverflow | mmtk/src/abi.rs:400-406 | a set within 31 bits gives the same bits in the same order, inline or in any number of overflow words |
| ObjectModel.ComputedSizeFits | mmtk/src/object_scanning.rs:45-51 | in a class of the computed size, static references come before the bitmap, which is word aligned |
| ObjectModel.ResolvedBitmapIsReadable | mmtk/src/object_scanning.rs:45-58 | the overflow bitmap of a resolved class lies inside the class |
| ObjectModel.ArrayElementsFill | mmtk/src/abi.rs:719-738 | array elements start at the first aligned offset after the length and end exactly at the array's size |
| ObjectModel.StringCharactersFit | mmtk/src/abi.rs:802-820 | a string's size is the least multiple of 8 that holds its header and its one- or two-byte characters |
| ObjectModel.ArrayOccupies | mmtk/src/abi.rs:942-958 | of the size of an object: an array of any component is as long as its last element, and its elements start at the first aligned offset |
| ObjectModel.StringOccupies | mmtk/src/abi.rs:942-958 | of the size of an object: a string is the least multiple of 8 that holds its one- or two-byte characters |
| ObjectModel.InstanceOccupies | mmtk/src/abi.rs:942-958 | of the size of an object: a class has the size it states, other instances the size their class states; the bytes copied are the least multiple of 8 that holds the object |
| ObjectModel.MoveWords | mmtk/src/lib.rs:291-298 | copying word by word, upwards to a lower place and downwards to a higher one, leaves memory as if every word had been read before any was written, overlapping or not |
| ObjectModel.MoveUpwards | mmtk/src/lib.rs:291-298 | the ascending loop does so when the target is at or below the source |
| ObjectModel.MoveDownwards | mmtk/src/lib.rs:291-298 | the descending loop does so when the target is at or above the source |
| Scanner.ClassObjectRanges | mmtk/src/object_scanning.rs:90-106 | a class object's class slot, instance fields and static references are disjoint ranges that end before its own bitmap |
| Scanner.CandidatesAreWithin | mmtk/src/object_scanning.rs:174-251 | for every well-formed object, the slots looked at are distinct, aligned, ascending, and between the header and the end of the object |
| Scanner.CandidatesAreReadable | mmtk/src/object_scanning.rs:174-251 | a scan never reads outside the object |
| Scanner.ScanIsExact | mmtk/src/object_scanning.rs:174-251 | for every well-formed object the reported slots are distinct, aligned, ascending and inside the object: exactly the class slot and the non-null candidates, which `ScanLaws` ties to memory |
| Scanner.InstanceScanFollowsBitmap | mmtk/src/object_scanning.rs:25-62 | an instance's reported slots are the class slot and the non-null fields at 8 + 4 * b for the set bits b of its class |
| Scanner.InlineAndOverflowClassesAgree | mmtk/src/object_scanning.rs:40-61 | classes with the same references in the two encodings give an object the same slots |
| Scanner.ExampleInstanceScans | mmtk/src/object_scanning.rs:186-192 | a concrete well-formed instance, whose scan reports its class slot and its one field |
| Scanner.ExampleClassScans | mmtk/src/object_scanning.rs:203-210 | a concrete well-formed class object with two static references and a two-word overflow bitmap, whose scan reports its class slot, its class loader and the static reference that is not null |
| Scanner.VisitSlot | mmtk/src/object_scanning.rs:16-21 | the slot is pushed exactly when it is not null |
| Scanner.VisitOneWord | mmtk/src/object_scanning.rs:30-38 | pushes the non-null slots of the set bits, in order |
| Scanner.VisitInstanceFields | mmtk/src/object_scanning.rs:25-62 | pushes the non-null instance references, from the inline word or the overflow words |
| Scanner.VisitOverflowWords | mmtk/src/object_scanning.rs:45-58 | pushes the non-null slots of all words of the overflow bitmap, in order |
| Scanner.VisitStaticFields | mmtk/src/object_scanning.rs:90-106 | pushes the non-null static references |
| Scanner.VisitStride | mmtk/src/object_scanning.rs:99-117 | pushes the non-null ones of n slots four bytes apart: static references or array elements |
| Scanner.VisitInstance | mmtk/src/object_scanning.rs:186-192 | pushes the non-null references of an instance |
| Scanner.VisitClassObject | mmtk/src/object_scanning.rs:203-210 | pushes a class object's instance references and, once it is resolved, its static ones |
| Scanner.VisitObjectArray | mmtk/src/object_scanning.rs:111-118 | pushes the non-null elements of an object array |
| Scanner.VisitReferences | mmtk/src/object_scanning.rs:186-250 | the dispatch on class flags visits the references of the object's kind and ends as that kind does |
| Scanner.ScanObject | mmtk/src/object_scanning.rs:174-251 | for every kind of object, pushes the class slot and the non-null references and ends with the right upcall, or panics on unexpected flags |
| ScanLaws.ScanFollowsMemory | mmtk/src/object_scanning.rs:174-251 | for every well-formed object a slot is reported if and only if it is the class slot, or not null and made a reference by the words of memory: the flags, bitmap and status of classes, the counts of statics and elements |
| ScanLaws.BitmapIsInClass | mmtk/src/object_scanning.rs:40-61 | the bitmap read for a class is its offsets word while the top bit is clear, else the counted words that end the class |
| ScanLaws.FieldsReportedExactly | mmtk/src/object_scanning.rs:25-62 | by the flag word, for normal, record, reference, dex cache, class loader and class objects: the field at 8 + 4 * b is reported if and only if bit b is set in the memory of the class and the field is not null |
| ScanLaws.OnlyFieldsReported | mmtk/src/object_scanning.rs:186-192 | nothing else of such an instance is reported |
| ScanLaws.ElementsReportedExactly | mmtk/src/object_scanning.rs:111-118 | by the flag word, of an object array the element at 12 + 4 * i is reported if and only if i is below the length and it is not null |
| ScanLaws.OnlyElementsReported | mmtk/src/object_scanning.rs:213-218 | nothing else of an object array is reported |
| ScanLaws.StaticsReportedExactly | mmtk/src/object_scanning.rs:90-106 | of a resolved class object each counted static reference is reported if and only if it is not null |
| ScanLaws.OnlyStaticsReported | mmtk/src/object_scanning.rs:65-86 | nothing else after the fixed part of a class object is reported, and nothing unless it is resolved |
| ScanLaws.OtherFlagsReportClassOnly | mmtk/src/object_scanning.rs:194-198 | with any other flags only the class slot is reported |
| ScanLaws.ReportedInOrder | mmtk/src/object_scanning.rs:174-251 | reported slots ascend without repetition, the class slot first |
| ScanLaws.OutcomeFollowsFlags | mmtk/src/object_scanning.rs:186-250 | referent, native roots, panic or none follow from the flag word, by the first test that applies |
| ScanLaws.ExampleOverflowScans | mmtk/src/object_scanning.rs:45-58 | a concrete record instance whose one reference is in the last overflow word, which is reported |
| Copying.CopyObject | mmtk/src/object_model.rs:26-40 | after the word loop over the aligned size of the object the target holds its words and nothing else has changed; every byte of the object arrives, and at a place that meets neither the object nor its classes, the result is well formed, scans like the original, which still scans as before, and has the same characters or elements |
| Copying.CopyHasSameSize | mmtk/src/abi.rs:942-958 | a copy has the computed size of the original, for arrays, classes, strings and instances |
| Copying.CopyHasSameContents | mmtk/src/object_model.rs:26-40 | a copy has every byte of the original, so the same characters if it is a string and the same elements, of any width, if it is an array |
| Copying.CopyIsWellFormed | mmtk/src/object_model.rs:26-40 | a copy of a well-formed object is well formed |
| Copying.ScanCommutesWithImage | mmtk/src/object_scanning.rs:174-251 | wherever memory holds a copy of an object, its scan reports the same offsets in the same order with the same values |
| Copying.ScanCommutesWithCopy | mmtk/src/object_model.rs:26-54 | copying a well-formed object to a place disjoint from it and its class gives a well-formed object that scans alike, and leaves the original's scan unchanged |
| Copying.ExampleClassCopies | mmtk/src/object_model.rs:26-40 | a concrete class object with statics and an overflow bitmap is copied, and the copy's scan reports the same three offsets |
| WeakRefs.RefProcessor.ProcessWeakRefs | mmtk/src/scanning.rs:102-172 | one call's upcall, next phase and request to be called again |
| WeakRefs.RefProcessor.RunCollection | mmtk/src/scanning.rs:102-172 | a collection starts and ends in the first phase after at most three calls: one sweep, or the three phases in order |
| WeakRefs.RefProcessor.RunCollections | mmtk/src/scanning.rs:102-172 | over any sequence of collections the upcalls are those of each in turn |
| WeakRefs.CollectionsCyclePhases | mmtk/src/scanning.rs:102-172 | over any sequence of collections the phases processed are the first, second and third over and over, once for each full collection, and there is one sweep for each nursery collection |
| WeakRefs.PhasesAlwaysCycle | mmtk/src/scanning.rs:117-170 | even with nursery and full calls mixed in any order, as many phases are processed as there are full calls, and they are the phases of the cycle in turn |
| WeakRefs.EachCallMakesItsUpcall | mmtk/src/scanning.rs:102-172 | each call makes one upcall: a sweep exactly for nursery calls, otherwise the phase numbered by the full calls before it, with soft references cleared as that call asks |
| RootBuffers.RootReporter.ReportAndRenewBuffer | mmtk/src/scanning.rs:222-244 | takes back the returned buffer, if any, passes its items on as one packet of work, and lends a new empty buffer |
| RootBuffers.RootReporter.ReleaseBuffer | mmtk/src/api.rs:218-231 | takes the buffer back without passing anything on, and does nothing with a single worker |
| RootBuffers.ReturnedBufferIsWhole | mmtk/src/scanning.rs:229-236 | a returned buffer holds at least the items passed on, within the capacity it is rebuilt with |
| RootBuffers.EventKeepsAccountsExactly | mmtk/src/scanning.rs:222-244 | one filling, renewal or release keeps these accounts exactly under that condition |
| RootBuffers.BuffersAreAccountedExactly | mmtk/src/scanning.rs:222-244 | over every run of any number of clients, each buffer made is lent at one address or reclaimed once and none is overfilled, if and only if items fit their buffers and new buffers are at addresses not lent |
| RootBuffers.WorkIsWhatWasReturned | mmtk/src/scanning.rs:222-244 | over every run of any number of clients the packets of work are the leading items last written in the buffers passed back, as many as the client said, in the order of the calls, and a lent buffer has the capacity it was granted with |
| RootBuffers.TurnKeepsOneLent | mmtk/src/scanning.rs:194-217 | after each turn exactly one buffer is lent and every earlier one has been reclaimed once, in order |
| RootBuffers.PlayDelivers | mmtk/src/scanning.rs:194-244 | from any such state, any number of turns adds exactly the filled items to the work and keeps one buffer lent |
| RootBuffers.PlayKeepsAccounts | mmtk/src/scanning.rs:194-244 | a client that fills within capacity and gets free addresses keeps every buffer accounted for |
| RootBuffers.RunDeliversEverythingOnce | mmtk/src/scanning.rs:194-244 | over every run from the first call to the release of the last buffer, the packets of work are exactly what the client filled in, in order; at the end every buffer made has been reclaimed exactly once, in order, and none is lent |
| Slots.StoreThenLoad | mmtk/src/lib.rs:132-143 | storing and loading is the identity exactly for non-null addresses below 4 GiB, and leaves other slots alone |
| Slots.HeapReferencesSurviveSlots | mmtk/src/lib.rs:154-193 | for every accepted capacity, every address of the heap survives a slot, and the heap has room for the capacity and the slack |
| Slots.HeapPlace | mmtk/src/lib.rs:154-193 | capacities up to 2 GiB are accepted; the heap starts at 4 MiB on 64-bit targets and 512 MiB on others, and ends at the first chunk boundary after the capacity and five chunks |
| Slots.HeapEndsBelowBootImageExactly | mmtk/src/lib.rs:163-188 | on 64-bit targets the heap ends below the boot image if and only if the capacity is at most 1768 MiB |
| Slots.LargestNamedHeapMeetsBootImage | mmtk/src/lib.rs:163-188 | the 1788 MiB named in the comment are accepted and reach 20 MiB into the boot image |
| Slots.SlotIterator.Next | mmtk/src/lib.rs:250-258 | returns the cursor and moves it by one slot, until the limit |
| Slots.CollectSlots | mmtk/src/lib.rs:247-270 | iterating over a range of n slots gives those n slots in order |
| Slots.CopySlice | mmtk/src/lib.rs:284-299 | after the word loop over a slice, overlapping its target or not, the target holds what the source held and nothing else has changed |
| Slots.CopiedSlotsLoadSource | mmtk/src/lib.rs:284-299 | each slot iterated over the target loads what the source slot held before, and nothing outside the target changes |

## Left out

- Trigger.ArtTrigger.SetTargetForUtilization: `f64` is a real with the cast's truncation and saturation, so IEEE-754 rounding of the scaled sizes is not described.
- Memory ordering weaker than interleaving, and GC-end or limit-changing events racing with polls: the transition system keeps the growth limit and the cached minimum fixed.
- 32-bit `usize`: page counts are 64-bit, and statements about resizing say that their sums do not overflow.
- Overflow of the 32-bit field offsets inside the scanner and their cast to `i32`: offsets are unbounded, so objects of 2 GiB and more are not described faithfully.
- Negative array lengths and string counts: an object with one is not well formed.
- The slots reported by the native-root and referent upcalls, and the single-worker mark stack: they belong to ART and to mmtk-core.
- Forwarding bits, post-copy metadata, the allocator that chooses where a copy goes, and where a new root buffer is placed and how large it is (a constant of mmtk-core): these are parameters.
- The two other buffer callbacks, which differ from the modelled one only in the work they create.
- Debug assertions, logging, tracing, and the exported functions that only forward to mmtk-core.
- Simple queries of the trigger (heap full, current and maximum size) and stand-alone decoding of status and primitive codes.
