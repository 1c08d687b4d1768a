# LedControlAndAnimation in Dafny

A model of the header-only LED library LedControlAndAnimation. The library
is written in C++ for Arduino-class boards. The model covers:

- the `RGBW` colour type and its arithmetic (`color.dfy`);
- the `ILedStrip` / `ILedStripWithStorage` interface with its default
  operations `setRange`, `setAll`, `clear`, `isAnyActive` and `copyTo`
  (`strip_ops.dfy`);
- `LedBufferStorage` and the virtual strips that compose storages. These are
  the multi-strip (concatenation), pass-through, mapped and inversed strips
  (`surfaces.dfy`);
- the power-limiting strip, which dims colours until a current budget is met
  (`power_limit.dfy`);
- the animations (fade, fade-from-existing, blink) and the
  `AnimationManager` tick (`animation.dfy`, `animation_manager.dfy`);
- `LedBufferStorageWithCallback` and `LedStripCrossFadeHandler`
  (`callback_storage.dfy`, `cross_fade.dfy`);
- `ColorChannels` (`color_channels.dfy`);
- the send buffers of the APA102 and LPD8806 drivers (`apa102.dfy`,
  `lpd8806.dfy`).

The library composes strips by reference. The model instead keeps every
`LedBufferStorage` in an *arena*, a map from an id to its pixel vector. A strip is
a `Surface` value: a storage leaf, or an adapter over other surfaces. Every
operation returns the new arena. When an operation flushes (runs
`updateLeds`), it also returns the leaves it flushed, in order. Reads and
writes go through one routing function, `Surfaces.Resolve`. It maps an
index of a surface to a leaf pixel. It yields `Nowhere` for the empty tail
of a multi-strip, which ignores writes and reads `RGBW()`. It yields
`Fault` where the C++ would index a vector out of range.

Integer widths follow the source. `ledoffset_t` is `u8`, and `index + i`
wraps modulo 256. Times are `u32` and wrap modulo 2^32. The APA102 count is
a `u16` that `getLedCount` cuts to its low byte. Floats are modelled as
exact reals. A float-to-integer conversion truncates toward zero. It is
required to land in the target's range, because anything else is undefined
behaviour in C++.

Two behaviours of the code are modelled as written:

- `getWithTotalBrightness` returns black for a small non-zero target, which
  its promise of a total brightness at most the target allows.
- The power-limit loop never ends when the strip is over the limit and no
  LED can be dimmed further. The model returns `Hangs` / `Stuck` for that
  state.

Where the library's documentation and its code disagree, the model
follows the code:

- The blink phase test computes `(startTime - currentTime) mod 2^32 mod 400`,
  in that order. Because 2^32 is 96 modulo 400, the LED is on for the first
  97 and the last 4 milliseconds of each 400 ms period. The class comment
  says 100 ms on (see `Animations.BlinkPhase`).

## Model

| member | source | states |
|---|---|---|
| Color.Pack | include/RGBW.h:33-36 | getAsPackedColor puts W in the top byte, then R, G, B |
| Color.UnpackPack | include/RGBW.h:27-36 | constructing from the packed form of a colour gives the colour back |
| Color.Unpack | include/RGBW.h:27-31 | the packed-colour constructor reads the word as the base-256 digits W, R, G, B, so no bit is lost |
| Color.PackUnpack | include/RGBW.h:27-36 | packing the colour built from any 32-bit word gives the word back |
| Color.PackTestVectors | test/test_RGBW.cpp:25-40 | the packed-constructor and getAsPackedColor cases of the unit test hold |
| Color.AddSat | include/RGBW.h:8-13 | AddWOOverflow is at least each operand, at most their sum, and is either 0xFF or the exact sum |
| Color.Plus | include/RGBW.h:89-96 | operator+ is, per channel, the sum capped at 0xFF |
| Color.Equals | include/RGBW.h:98-100 | operator== holds exactly when the colours are equal |
| Color.NotEquals | include/RGBW.h:102-104 | operator!= is the negation of operator== |
| Color.Brightness | include/RGBW.h:38-41 | getTotalBrightness is at most 4 * 255, at least each channel, and 0 exactly for COLOR_OFF |
| Color.MaxColor | include/RGBW.h:110-117 | RGBW::Max is, per channel, an upper bound equal to one of the two inputs |
| Color.MinColor | include/RGBW.h:119-126 | RGBW::Min is, per channel, a lower bound equal to one of the two inputs |
| Color.ScaleChannel | include/RGBW.h:80-87 | a channel times any factor whose product the uint8_t conversion accepts is that product truncated toward zero |
| Color.Times | include/RGBW.h:80-87 | operator* truncates every channel's exact product toward zero, for any factor (above 1 included) that keeps the products convertible |
| Color.FractionScalable | include/RGBW.h:80-87 | every colour can be multiplied by a factor in [0, 1] |
| Color.TimesTestVector | test/test_RGBW.cpp:63-72 | {10, 20, 30, 40} times 1.5 is {15, 30, 45, 60} |
| Color.MixChannel | include/RGBW.h:106-108 | one interpolated channel before saturation lies within 2 below the exact mix |
| Color.MixBounds | include/RGBW.h:106-108 | an interpolated channel never exceeds the larger endpoint and is at most 1 below the smaller |
| Color.Interpolate | include/RGBW.h:106-108 | interpolateTo stays, per channel, between the endpoints, up to one unit of truncation below |
| Color.InterpolateEndpoints | include/RGBW.h:106-108 | factor 0 gives the start colour and factor 1 the end colour exactly |
| Color.InterpolateHalf | include/RGBW.h:106-108 | factor 0.5 gives, per channel, the sum of the truncated halves |
| Color.ArithmeticTestVectors | test/test_RGBW.cpp:42-96 | the addition, saturation, interpolation and brightness cases of the unit test hold |
| Color.StepDown | include/RGBW.h:70-75 | one turn of the decrement loop lowers every non-zero channel by one and lowers the brightness of a non-black colour |
| Color.DecrementUntil | include/RGBW.h:70-75 | the decrement loop ends, meets the target, and raises no channel, from any start value |
| Color.DecrementIsUniform | include/RGBW.h:70-75 | the loop result is the start colour with every channel lowered by the number of iterations, stopping at zero |
| Color.DecrementIsLeast | include/RGBW.h:70-75 | the loop stops as soon as it can: one iteration fewer would still be above the target |
| Color.ClampTarget | include/RGBW.h:48 | the target is clamped to 4 * 255 and is unchanged below that |
| Color.RescaleChannel | include/RGBW.h:61-68 | when the target is at most the current brightness, no channel is raised |
| Color.RescaleChannelTruncates | include/RGBW.h:61-68 | a channel is the product of the channel and the factor target / current, truncated to an integer and capped at 255 |
| Color.Rescale | include/RGBW.h:59-68 | the proportional rescale to a lower brightness raises no channel |
| Color.RescaleMeetsTarget | include/RGBW.h:59-68 | the proportional rescale never exceeds the target brightness |
| Color.WithTotalBrightness | include/RGBW.h:47-78 | getWithTotalBrightness never exceeds the clamped target, and target 0 gives COLOR_OFF |
| Color.WithTotalBrightnessOfOff | include/RGBW.h:50-53 | a black colour gives the grey whose channels are a quarter of the clamped target |
| Color.WithTotalBrightnessNeverRaises | include/RGBW.h:55-78 | below the current brightness no channel is raised |
| Color.WithTotalBrightnessIsRescale | include/RGBW.h:55-78 | for a non-black colour and a non-zero target, the result is the proportional rescale |
| Color.WithTotalBrightnessTestVectors | test/test_RGBW.cpp:99-122 | the brightness cases of the unit test hold, including a small target giving black |
| Color.RescaleTestVectors | test/test_RGBW.cpp:99-122 | the unit test's colour rescaled to 300 is (120, 90, 60, 30) before the loop, and rescaled to 1 is black |
| Surfaces.ShapeOf | include/LedBufferStorage.h:19-21 | each leaf's count is its pixel vector's length |
| Surfaces.Parts | include/VirtualLedStrip.h:22-45 | a multi-strip lists its strips in constructor order, and no strips for the empty one |
| Surfaces.Multi | include/VirtualLedStrip.h:43-45 | building a multi-strip from strips gives back exactly those strips |
| Surfaces.Count | include/VirtualLedStrip.h:11-13 | a leaf counts its pixels, the empty multi-strip 0, a mapped strip its index list's length modulo 256 |
| Surfaces.MultiCount | include/VirtualLedStrip.h:47-49 | a multi-strip counts the sum of its strips' counts modulo 256 |
| Surfaces.CalcOffset | include/VirtualLedStrip.h:165-167 | calcOffset is count - 1 - index for an index below the count |
| Surfaces.CalcOffsetInvolution | include/VirtualLedStrip.h:165-167 | mirroring stays inside the strip and undoes itself |
| Surfaces.Resolve | include/VirtualLedStrip.h:51-183 | every index that reaches a pixel reaches one that exists |
| Surfaces.WriteAt | include/LedBufferStorage.h:23-24 | a write replaces exactly the addressed pixel and keeps every count |
| Surfaces.Flush | include/VirtualLedStrip.h:67-70 | updateLeds of a leaf flushes that leaf, of the empty multi-strip nothing |
| Surfaces.MultiFlush | include/VirtualLedStrip.h:67-70 | a multi-strip flushes each of its strips once, in constructor order |
| Surfaces.Get | include/VirtualLedStrip.h:59-65 | getLed reads the pixel the index routes to |
| Surfaces.Set | include/VirtualLedStrip.h:51-57 | setLed writes the pixel the index routes to, and with flush runs updateLeds of that pixel's leaf |
| Surfaces.GetAfterSet | include/LedBufferStorage.h:23-33 | reading back an index that reaches a pixel gives the colour just written |
| Surfaces.GetAfterSetOther | include/LedBufferStorage.h:23-33 | an index addressing a different pixel reads back unchanged |
| Surfaces.ConcatRouting | include/VirtualLedStrip.h:51-65 | a multi-strip sends indices below the first strip's count to it and the rest, lowered by that count, onward |
| Surfaces.PassthroughForwards | include/VirtualLedStrip.h:99-122 | a pass-through strip forwards count, routing and flush unchanged |
| Surfaces.MappedRouting | include/VirtualLedStrip.h:144-154 | mapped index i addresses base index indices[i] |
| Surfaces.InversedSet | include/VirtualLedStrip.h:177-183 | writing index i of an inversed strip is read back at base index count - 1 - i |
| Surfaces.InversedTwice | include/VirtualLedStrip.h:161-188 | inverting twice addresses the same pixels as the base |
| Surfaces.AffectedStrip | include/VirtualLedStrip.h:28-40 | getAffectedLedStrip names one of the multi-strip's strips |
| Surfaces.AffectedStripRoutes | include/VirtualLedStrip.h:72-87 | the strip and local offset it returns are the ones setLed and getLed use |
| Surfaces.AffectedStripInRange | include/VirtualLedStrip.h:28-40 | an offset below the total count never falls past the last strip |
| Surfaces.AffectedStripPastEnd | include/VirtualLedStrip.h:28-40 | an offset at or past the total count names the last strip, with every strip's count subtracted from the offset |
| StripOps.NewStorage | include/LedBufferStorage.h:16-17 | a new storage has the given count of RGBW() pixels |
| StripOps.NewStorageIsDark | include/LedBufferStorage.h:16-21 | a new storage counts its constructor argument and is not active |
| StripOps.StorageSet | include/LedBufferStorage.h:23-28 | a storage's setLed replaces exactly one pixel and flushes only that leaf, only when asked |
| StripOps.FillFrom | include/ILedStrip.h:16-18 | the setRange loop sets every pixel a range index addresses and keeps the others |
| StripOps.SetRange | include/ILedStrip.h:15-23 | setRange writes the colour to every addressed pixel of the range, wrapping index + i modulo 256, keeps the rest, and flushes the whole strip once iff asked |
| StripOps.SetRangeReadBack | include/ILedStrip.h:15-23 | every index in the range that reaches a pixel reads the range colour |
| StripOps.SetRangeEmpty | include/ILedStrip.h:15-23 | an empty range writes nothing and flushes exactly as asked |
| StripOps.SetRangeOnStorage | include/ILedStrip.h:15-23 | on a storage, a range that does not wrap is a splice of count copies of the colour |
| StripOps.SetAll | include/ILedStrip.h:29-31 | setAll writes the colour to every pixel the strip reaches |
| StripOps.SetRangeWhole | include/ILedStrip.h:29-35 | the range from 0 over the whole count reaches every index of the strip |
| StripOps.Clear | include/ILedStrip.h:33-35 | after clear every index reads COLOR_OFF |
| StripOps.AnyActiveFrom | include/ILedStripWithStorage.h:14-20 | the isAnyActive loop from a counter finds a lit index at or after it, iff one exists; it needs only the indices it reaches, up to the first lit one, to be readable |
| StripOps.IsAnyActive | include/ILedStripWithStorage.h:12-21 | isAnyActive holds iff some index below the count reads other than COLOR_OFF; indices after the first lit one may fault |
| StripOps.ScanStopsAtFirstLit | include/ILedStripWithStorage.h:14-20 | a strip whose indices after the first lit one fault is still accepted and reported active |
| StripOps.ClearDeactivates | include/ILedStripWithStorage.h:12-21 | after clear no strip is active |
| StripOps.Leaves | include/VirtualLedStrip.h:22-45 | the storages a strip reaches are collected by its structure |
| StripOps.ResolveInLeaves | include/VirtualLedStrip.h:51-183 | every pixel a strip reaches belongs to one of its storages |
| StripOps.CopyCount | include/ILedStripWithStorage.h:28 | copyTo copies the smaller of the two counts |
| StripOps.CopyFrom | include/ILedStripWithStorage.h:30-32 | the copyTo loop changes only pixels the target indices address |
| StripOps.CopyTo | include/ILedStripWithStorage.h:27-37 | copyTo changes only target pixels and flushes the target once iff asked |
| StripOps.CopyFromDisjoint | include/ILedStripWithStorage.h:30-32 | between strips sharing no storage, each copied target index gets the source's colour |
| StripOps.CopyToKeepsSource | include/ILedStripWithStorage.h:27-37 | copyTo never changes a source that shares no storage with the target |
| StripOps.CopyToReadsSource | include/ILedStripWithStorage.h:27-37 | after copyTo, target index k reads the source's old colour at k |
| PowerLimit.PixelPowerFormula | include/VirtualLedStripWithPowerLimit.h:16-30 | one LED draws the rest current plus each channel's share of its full-scale current |
| PowerLimit.PixelPowerMonotone | include/VirtualLedStripWithPowerLimit.h:24-30 | a colour no brighter in any channel draws no more |
| PowerLimit.PixelPowerAtLeastBase | include/VirtualLedStripWithPowerLimit.h:24-30 | a dark LED still draws the rest current |
| PowerLimit.ConsumptionMonotone | include/VirtualLedStripWithPowerLimit.h:46-54 | dimming LEDs never raises the summed consumption |
| PowerLimit.ConsumptionAtLeastBase | include/VirtualLedStripWithPowerLimit.h:46-54 | n LEDs draw at least n times the rest current |
| PowerLimit.ConsumptionOfDark | include/VirtualLedStripWithPowerLimit.h:46-54 | n dark LEDs draw exactly n times the rest current |
| PowerLimit.RestCurrentBounds | include/VirtualLedStripWithPowerLimit.h:46-54 | the draw of physical LEDs is at least their rest current, and dark LEDs draw exactly that |
| PowerLimit.ReduceLed | include/VirtualLedStripWithPowerLimit.h:103-108 | an LED with brightness 10 or more loses at least 10; a dimmer one is left alone; no channel rises |
| PowerLimit.ReduceFrom | include/VirtualLedStripWithPowerLimit.h:102-109 | the inner loop reduces every LED from its counter on and keeps the earlier ones |
| PowerLimit.ReducePass | include/VirtualLedStripWithPowerLimit.h:102-109 | one pass reduces every LED once |
| PowerLimit.PassFixedIff | include/VirtualLedStripWithPowerLimit.h:101-114 | a pass changes nothing exactly when no LED has brightness 10 or more |
| PowerLimit.PassLowersTotal | include/VirtualLedStripWithPowerLimit.h:101-114 | a pass over a strip with a reducible LED lowers the total brightness by at least 10 |
| PowerLimit.PassDims | include/VirtualLedStripWithPowerLimit.h:102-109 | a pass raises no channel of any LED |
| PowerLimit.Throttle | include/VirtualLedStripWithPowerLimit.h:101-114 | the loop ends within the limit, or in a state above the limit that a pass cannot change; it only dims; it does nothing when already within the limit |
| PowerLimit.StuckIsFinal | include/VirtualLedStripWithPowerLimit.h:101-114 | from the stuck state the next pass changes nothing, so the loop never ends |
| PowerLimit.StuckWhenDark | include/VirtualLedStripWithPowerLimit.h:101-114 | LEDs all below brightness 10 and above the limit get stuck at once |
| PowerLimit.StuckBelowRestCurrent | include/VirtualLedStripWithPowerLimit.h:101-114 | a limit below the LEDs' rest current can never be met |
| PowerLimit.NewPowerStrip | include/VirtualLedStripWithPowerLimit.h:57-61 | the constructor makes a dark buffer of the backing strip's count and leaves the backing strip alone |
| PowerLimit.LedCount | include/VirtualLedStripWithPowerLimit.h:68-70 | getLedCount is the backing strip's count |
| PowerLimit.ApplyFrom | include/VirtualLedStripWithPowerLimit.h:86-88 | step 1 copies the desired colours from the counter on |
| PowerLimit.ApplyAll | include/VirtualLedStripWithPowerLimit.h:85-88 | after step 1 the backing strip holds exactly the desired colours |
| PowerLimit.UpdateLeds | include/VirtualLedStripWithPowerLimit.h:84-123 | updateLeds keeps the desired colours, shows them dimmed or as is, and either meets the limit and flushes or hangs above it |
| PowerLimit.SetLed | include/VirtualLedStripWithPowerLimit.h:72-78 | setLed stores the desired colour and runs updateLeds iff flush |
| PowerLimit.GetAfterSetLed | include/VirtualLedStripWithPowerLimit.h:72-82 | getLed reads back the colour set, never the dimmed one |
| PowerLimit.GetLed | include/VirtualLedStripWithPowerLimit.h:80-82 | getLed reads the desired colour, which updateLeds keeps, and the backing LED shows no brighter |
| PowerLimit.SetPowerLimit | include/VirtualLedStripWithPowerLimit.h:63-66 | setPowerLimit is updateLeds on the strip with the new limit: desired colours kept, backing LEDs only dimmed, then flushed within the limit or hanging with nothing left to dim; within the limit already, the desired colours are shown undimmed |
| PowerLimit.FlushMeetsLimit | include/VirtualLedStripWithPowerLimit.h:125-127 | after an updateLeds that ends, the reported consumption is within the limit |
| PowerLimit.PowerConsumption | include/VirtualLedStripWithPowerLimit.h:125-127 | the reported draw is at least the rest current of all LEDs, and exactly that when the backing strip is dark |
| PowerLimit.FlushHangsBelowRestCurrent | include/VirtualLedStripWithPowerLimit.h:84-123 | a limit below the rest current makes every updateLeds hang |
| Animations.GetFactor | include/AnimationManager.h:39-47 | the factor is in [0, 1]: 0 before the start, 1 after the end, the elapsed part of the duration between |
| Animations.EndTime | include/AnimationManager.h:27-29 | getEndTime is start + duration, less 2^32 when the sum wraps, and then lies before the start |
| Animations.FactorAtEndpoints | include/AnimationManager.h:39-47 | for an end time that does not wrap, the factor is 0 at the start and 1 at the end |
| Animations.FactorWrapped | include/AnimationManager.h:27-47 | when the end time wraps past 2^32, the factor is 1 from the start on |
| Animations.FactorMonotone | include/AnimationManager.h:39-47 | the factor never decreases as time goes on |
| Animations.NewFade | include/AnimationManager.h:73-77 | the fade constructor stores timing, target, index and both colours |
| Animations.Pin | include/AnimationManager.h:81 | the uint16_t LED index passed to setLed is narrowed to its low byte: unchanged below 256 |
| Animations.NewFadeFromExisting | include/AnimationManager.h:90-92 | the fade-from-existing constructor starts unstarted with a dark start colour |
| Animations.NewBlink | include/AnimationManager.h:118-125 | the blink constructor lasts 400 ms per flash and starts unstarted and not showing |
| Animations.FadeColor | include/AnimationManager.h:79-82 | a fade shows its start colour before its start and its end colour after its end, at every instant but the start of a zero-length fade |
| Animations.ZeroDurationFade | include/AnimationManager.h:39-47 | a fade of duration 0 shows its start colour before its start and its end colour after it |
| Animations.FadeUpdate | include/AnimationManager.h:79-82 | a fade update writes the interpolated colour to its one pixel and keeps its state |
| Animations.FadeFromExistingUpdate | include/AnimationManager.h:94-101 | the first update reads the start colour from the pixel, later ones keep it, and each then fades |
| Animations.BlinkPhase | include/AnimationManager.h:133-136 | the phase test is on exactly for the first 97 and last 4 ms of each period after the start |
| Animations.Restore | include/AnimationManager.h:128-131 | the colour to restore is read on the first update and fixed afterwards |
| Animations.BlinkUpdate | include/AnimationManager.h:127-148 | in the on-phase a hidden flash is shown if one remains, spending one; in the off-phase a shown flash is replaced by the old colour; nothing else is written |
| Animations.Update | include/AnimationManager.h:49 | any update changes at most the one pixel its animation addresses |
| Animations.FadeEndsAtTarget | include/AnimationManager.h:79-82 | a fade updated at or after its end shows exactly its end colour |
| Animations.FadeFromExistingReadsOnce | include/AnimationManager.h:94-101 | a second update keeps the start colour read by the first |
| Animations.BlinkSpends | include/AnimationManager.h:136-141 | each shown flash spends one of the count, so no more flashes are shown than were given |
| AnimationManager.NewManager | include/AnimationManager.h:158-159 | a new manager is empty |
| AnimationManager.Empty | include/AnimationManager.h:197-199 | empty() holds iff no animation is queued |
| AnimationManager.AddAnimation | include/AnimationManager.h:193-195 | addAnimation appends at the end, keeps the queue before it, and makes the manager non-empty |
| AnimationManager.Clear | include/AnimationManager.h:205-207 | clear empties the queue |
| AnimationManager.Turn | include/AnimationManager.h:167-179 | one turn skips an animation that has not started and otherwise updates it, changing only its pixel and its own entry |
| AnimationManager.UpdateFrom | include/AnimationManager.h:167-179 | the first loop changes only the state of started animations |
| AnimationManager.UpdateFromKeeps | include/AnimationManager.h:167-179 | a pixel no started animation addresses keeps its colour through the loop |
| AnimationManager.FadeLastWins | include/AnimationManager.h:167-179 | updates run in queue order, so a pixel shows the colour of the last started fade that addresses it |
| AnimationManager.Marks | include/AnimationManager.h:173-175 | dropIndex holds, in ascending order, exactly the positions of animations that started and ended before now |
| AnimationManager.Touched | include/AnimationManager.h:178 | affectedLeds holds exactly the targets of the started animations |
| AnimationManager.EraseOne | include/AnimationManager.h:188 | erasing a position above every other removed one is removing it along with them |
| AnimationManager.EvictIsSurvivors | include/AnimationManager.h:185-190 | erasing back to front removes exactly the marked animations and keeps the rest in order |
| AnimationManager.Evict | include/AnimationManager.h:185-190 | the erase loop removes one entry per mark and keeps only queued animations |
| AnimationManager.Tick | include/AnimationManager.h:161-191 | update keeps every storage's shape, never grows the queue, and flushes exactly the targets of the started animations, each once |
| AnimationManager.TickQueue | include/AnimationManager.h:161-191 | update removes exactly the animations that ended before now, keeps the others in order, each updated if started |
| AnimationManager.MarksAreExpired | include/AnimationManager.h:167-179 | the marked positions of a whole pass are the expired ones |
| AnimationManager.TickLastFadeWins | include/AnimationManager.h:161-191 | after update a pixel shows the colour of the last started fade that addresses it |
| AnimationManager.TickKeepsOthers | include/AnimationManager.h:161-191 | update changes no pixel that no started animation addresses |
| AnimationManager.EndInstantKeeps | include/AnimationManager.h:170-175 | at its end instant an animation is updated and kept; after it, it is removed |
| CallbackStorage.NewCbStorage | include/LedBufferStorageWithCallback.h:21-23 | the constructor makes a dark buffer holding the given listener |
| CallbackStorage.SetCallbackHandler | include/LedBufferStorageWithCallback.h:25-27 | setCallbackHandler changes only the listener |
| CallbackStorage.UpdateLeds | include/LedBufferStorageWithCallback.h:29-35 | updateLeds notifies the listener once if there is one and nobody otherwise, and changes no pixel |
| CallbackStorage.SetLed | include/LedBufferStorage.h:23-28 | setLed stores one pixel, and notifies the listener iff flush |
| CallbackStorage.GetAfterSetLed | include/LedBufferStorage.h:23-33 | getLed reads back the colour set and every other index unchanged |
| CallbackStorage.GetLed | include/LedBufferStorage.h:31-33 | the inherited getLed reads the pixel a storage leaf of a strip reads |
| CallbackStorage.NotifiesLatestHandler | include/LedBufferStorageWithCallback.h:25-35 | a flush notifies the listener set last and only it |
| CallbackStorage.FlushingSetLedNotifiesOnce | include/LedBufferStorageWithCallback.h:29-35 | a flushing setLed notifies the listener exactly once, after the write |
| CrossFade.NewHandler | include/LedStripCrossFadeHandler.h:20-24 | the constructor makes two dark buffers of the target's count, both notifying this handler |
| CrossFade.MixFrom | include/LedStripCrossFadeHandler.h:67-71 | the updateLeds loop changes only pixels the target indices address |
| CrossFade.UpdateLeds | include/LedStripCrossFadeHandler.h:66-74 | updateLeds changes only target pixels and flushes the target once |
| CrossFade.MixFromShows | include/LedStripCrossFadeHandler.h:67-71 | the loop leaves at each target index the mix of the two buffers at that index |
| CrossFade.UpdateLedsShowsMix | include/LedStripCrossFadeHandler.h:66-74 | after updateLeds every target index reads strip0 interpolated towards strip1 by the factor |
| CrossFade.UpdateLedsAtEndpoints | include/LedStripCrossFadeHandler.h:66-74 | at factor 0 the target shows strip0, at factor 1 strip1 |
| CrossFade.OnUpdate | include/LedStripCrossFadeHandler.h:34-45 | onUpdate ignores strip1 at factor 0 and strip0 at factor 1, and otherwise recomputes the target |
| CrossFade.SkipIsSound | include/LedStripCrossFadeHandler.h:34-45 | a buffer whose notification is ignored does not enter the mix, so the target is already right |
| CrossFade.SetFactor | include/LedStripCrossFadeHandler.h:50-56 | setFactor stores the factor and recomputes the target iff updateTarget |
| CrossFade.GetAfterSetFactor | include/LedStripCrossFadeHandler.h:50-60 | getFactor returns what setFactor stored |
| CrossFade.GetFactor | include/LedStripCrossFadeHandler.h:58-60 | getFactor of a well-formed handler lies in [0, 1] |
| CrossFade.SetBaseLed | include/LedStripCrossFadeHandler.h:26-32 | a write to a base buffer changes only that buffer, and a flushing one runs onUpdate with it as the source |
| CrossFade.HiddenWriteIsIgnored | include/LedStripCrossFadeHandler.h:34-37 | at factor 0 a flushing write to strip1 changes and flushes nothing |
| CrossFade.VisibleWriteReachesTarget | include/LedStripCrossFadeHandler.h:34-45 | at factor 0 a flushing write to strip0 shows on the target at once |
| ColorChannels.Terminated | include/ColorChannels.h:22-23 | the characters read are those before the first NUL |
| ColorChannels.Letters | include/ColorChannels.h:26-43 | a channel flag is set iff its letter occurs in either case |
| ColorChannels.Parse | include/ColorChannels.h:19-45 | the string constructor sets each flag iff its letter occurs, in either case, before the first NUL |
| ColorChannels.SameLettersSameChannels | include/ColorChannels.h:19-45 | the flags depend only on which characters occur, not on order or repetition |
| ColorChannels.OtherCharactersIgnored | include/ColorChannels.h:26-43 | a character that is not a channel letter changes no flag |
| ColorChannels.EmptySelectsNothing | include/ColorChannels.h:20-23 | an empty string selects no channel |
| ColorChannels.ParseExamples | include/ColorChannels.h:15-18 | "RGB" selects three channels, "wbgr" all four, and nothing after a NUL is read |
| Apa102.LedCount | include/LedStrip_APA102.h:86-88 | getLedCount is the 16-bit count cut to its low byte, so it equals the count only below 256 |
| Apa102.Header | include/LedStrip_APA102.h:61 | the header byte has its top three bits set and the brightness's low five bits below them |
| Apa102.SetLedWith | include/LedStrip_APA102.h:58-64 | setLed writes the LED's frame as header, blue, green, red and no other byte |
| Apa102.AutoBrightness | include/LedStrip_APA102.h:71 | the brightness is 31 iff red, green or blue is lit, and 0 otherwise |
| Apa102.SetLed | include/LedStrip_APA102.h:70-74 | the three-argument setLed writes header 0xFF for a lit colour and 0xE0 for a dark one, ignoring white |
| Apa102.GetLed | include/LedStrip_APA102.h:76-84 | getLed reads red, green and blue back from the frame with white 0 |
| Apa102.GetAfterSetLed | include/LedStrip_APA102.h:58-84 | getLed after setLed returns the colour with white dropped, and other LEDs unchanged |
| Apa102.StartFrameUntouched | include/LedStrip_APA102.h:58-64 | setLed never writes the start frame |
| Apa102.New | include/LedStrip_APA102.h:40-52 | the constructor leaves a zero start frame, frames (0xE0, 0, 0, 0) for the LEDs clear() reaches, and all-zero frames for the LEDs from count mod 256 on |
| Apa102.NewStripIsDark | include/LedStrip_APA102.h:40-52 | on a strip of fewer than 256 LEDs, every LED reads COLOR_OFF after construction |
| Lpd8806.GammaEntry | include/LedStrip_LPD8806.h:25 | an entry has its top bit set and the curve value scaled to 127 and rounded half up below it |
| Lpd8806.GammaTable | include/LedStrip_LPD8806.h:21-29 | all 256 entries have the top bit set; entry 0 is 0x80 and entry 255 is 0xFF |
| Lpd8806.GammaMonotone | include/LedStrip_LPD8806.h:21-29 | a rising curve gives a rising table |
| Lpd8806.New | include/LedStrip_LPD8806.h:47-55 | the constructor makes count dark pixels and a zeroed buffer of 3 * count + 3 bytes |
| Lpd8806.SetLed | include/LedStrip_LPD8806.h:61-73 | setLed stores the colour with white 0 and writes exactly the LED's three bytes as the gamma entries of red, green, blue |
| Lpd8806.GetAfterSetLed | include/LedStrip_LPD8806.h:61-64 | getLed after setLed returns the colour with white dropped, and other LEDs unchanged |
| Lpd8806.GetLed | include/LedBufferStorage.h:31-33 | the inherited getLed reads the pixel a storage leaf of a strip reads |
| Lpd8806.LatchNeverWritten | include/LedStrip_LPD8806.h:49-68 | no sequence of setLed calls writes the three latch bytes |
| Lpd8806.WrittenBytesHaveTopBit | include/LedStrip_LPD8806.h:66-68 | every byte of a written LED has its top bit set |
| Lpd8806.GammaEndpoints | include/LedStrip_LPD8806.h:66-68 | a dark colour is sent as 0x80 in every byte, full red as 0xFF in the red byte |

## Left out

- Hardware I/O is not modelled: `WriteGPIO`, `pinMode`, `digitalWrite`, `millis()`, and the transmitting `updateLeds` of the APA102 and LPD8806 drivers. The clock is the `now` parameter of `AnimationManager.Tick`. The drivers are modelled as their send buffers.
- The LPD8806 `setLed` with flush transmits twice. `LedBufferStorage::setLed` dispatches to the transmitting `updateLeds` before the buffer is written. Both transmissions are I/O and are left out.
- `LedStrip_Neopixel.h` and `LedStrip_NeoPixelBus.h` are not part of this model (hardware drivers).
- `NamedColors`, `GetNamedColor` and `ParseNamedColor` (string lookup with `atof`) are not part of this model.
- The `DEBUG_REDUCE_STEPS` timing and printing in the power-limit loop is left out.
- Float rounding is not modelled. Floats are exact reals, so `pow` in the LPD8806 gamma table is a parameter. That parameter is a curve in [0, 1] that is 0 at 0 and 1 at 255.
- Color.Times: requires every channel's product to lie in (-1, 256). Outside that range the float-to-uint8_t conversion is undefined behaviour in C++, so there is no result to model.
- CrossFade.SetFactor: requires a factor in [0, 1], which the setFactor comment asks of its callers. Outside that range the interpolation would leave the modelled channel range.
- Animations.GetFactor: excludes the instant `now == start` with duration 0. There the library divides 0 by 0.
- Object identity is replaced by values:
  - `affectedLeds` is a set of pointers, so the library flushes each strip object once. The model flushes each distinct surface value once. Two strip objects of equal structure count as one.
  - The cross-fade handler's `&source != &strip0` is a comparison of buffer identities. The model names the buffer by `Side`.
- Ownership and lifetime (`unique_ptr`, references that outlive their strips) are not modelled.
- AnimationManager.Tick: requires every queued animation's LED index to reach a pixel or the empty tail, where the library would otherwise index a vector out of range. It also requires that no fade of duration 0 is at its start instant, where `getFactor` divides 0 by 0 and the conversion of the resulting NaN to uint8_t is undefined. At every other instant such a fade runs, with factor 0 or 1.
- The power-limit strip's backing strip is modelled as a plain pixel sequence of its count. Any strip the base reference could name is reduced to that.
- Apa102.New: the count truncation of `getLedCount` is modelled as written. `clear()` in the constructor reaches only the first `count mod 256` LEDs. The frames of LEDs `count mod 256` to `count - 1` stay all-zero; a count of 300 leaves LEDs 44 to 299 zero.
- Apa102.SetLedWith, Lpd8806.SetLed: the flush argument only triggers transmission, so it is left out of the buffer model.
- `IGPIOMappedDevice.h` and the example sketches are not part of this model.
