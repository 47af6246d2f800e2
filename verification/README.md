# TouchDemo core in Dafny

This project models the logic inside TouchDemo, a small UIKit demo. In the demo, dots can be dragged, highlighted and laid out on a grid, and touches are shown on screen. Four pieces are modelled:

- **`UIColor` extension** (`AEColor.swift`):
  - the `init(hex:)` decoder, with an encoder as its partner;
  - the lighter and darker shade transforms over HSB or grayscale components;
  - the two random colour generators.
- **`DotView`** (`DotView.swift`):
  - `randomValueFrom(_:to:)`, including its 32-bit conversion traps;
  - the two initialisers;
  - the `highlighted` observer and the touch overrides that set it;
  - the enlarged hit test `point(inside:with:)`;
  - the random layout and the neat grid layout of a container's subviews.
- **`TouchIndicatorGestureRecognizer`**: the map `activeTouches` from touch to indicator view and the recognizer state. A removal finishes in an animation completion, which is modelled as an event of its own.
- **`TouchDelayGestureRecognizer`**: a recognizer that only ever fails, plus its one-shot 0.15 s timer. Timers carry names. A timer firing is an event that only a scheduled, not yet invalidated timer can produce.

Layout:

| file | module |
|---|---|
| `options.dfy` | `Options` |
| `geometry.dfy` | `Geometry`: Core Graphics points, rectangles, `contains`, `insetBy` |
| `gestures.dfy` | `Gestures`: `UIGestureRecognizer.State` |
| `hex_color.dfy` | `HexColor` |
| `color_shades.dfy` | `AEColor` |
| `dot_view.dfy` | `DotViews` |
| `touch_indicator.dfy` | `TouchIndicator` |
| `touch_delay.dfy` | `TouchDelay` |

Randomness enters as draws (`nat` parameters). Every lemma holds for all draws.

`None` is the model's `Optional.none`. It stands for the absent values of the Swift code (a failed scan, the null rectangle of `CGRectInset`, an unset `highlighted`, a missing colour space or a failed `getHue`/`getWhite`), and also for three outcomes of the random and layout functions that the model does not carry as values. Two of those are traps in the Swift code: a negative or too large `UInt32(...)` conversion, and an overflowing 32-bit addition. The third is not a trap: dividing by a zero slot count in `CGFloat` gives infinite or NaN centres, and the model returns `None` instead of those.

## Model

| member | source | states |
|---|---|---|
| HexColor.HexPrefix | TouchDemo/AEColor.swift:24-26 | the digits the scanner reads: a prefix of the input, all hex digits, followed by no further hex digit |
| HexColor.ScanHexInt32 | TouchDemo/AEColor.swift:24-26 | the scan succeeds exactly when the body starts with a hex digit, and its value is below 16 to the number of digits read |
| HexColor.StripHash | TouchDemo/AEColor.swift:20-22 | drops at most one character, and drops one exactly when the string starts with "#" |
| HexColor.DecodeBytes | TouchDemo/AEColor.swift:16-39 | a failed scan or a body of neither 6 nor 8 characters gives opaque black; alpha stays 255 unless the body has 8 characters |
| HexColor.Decode | TouchDemo/AEColor.swift:16-39 | every component is in [0, 1]; a failed scan, and a body that is neither 6 nor 8 characters long, give (0, 0, 0, 1); alpha is 1 unless the body has 8 characters |
| HexColor.Hex2 | TouchDemo/AEColor.swift:27-35 | two hex digits whose value is the byte (the encoder used in the round trip) |
| HexColor.EncodeHex | TouchDemo/AEColor.swift:20-35 | the encoding is 6 or 8 hex digits, behind a "#" exactly when one is asked for: the shapes the decoder accepts |
| HexColor.ScanFitsUInt32 | TouchDemo/AEColor.swift:25-26 | a body of at most 8 characters scans to a value below 2^32, so the scanner's overflow never reaches a colour |
| HexColor.HexPrefixOfAllHex | TouchDemo/AEColor.swift:24-26 | the scanner consumes a body made only of hex digits entirely |
| HexColor.HexValueAppend | TouchDemo/AEColor.swift:26 | appending digits shifts the scanned value left by four bits per digit |
| HexColor.UnpackBytes | TouchDemo/AEColor.swift:27-35 | the masks and shifts recover r, g, b, a from RRGGBBAA and r, g, b from RRGGBB |
| HexColor.DecodeEncode | TouchDemo/AEColor.swift:16-39 | round trip: decoding the two-digit hex of r, g, b (and optionally a), with or without "#", gives back exactly those bytes, with alpha 255 when a is absent |
| HexColor.DecodeEncodeComponents | TouchDemo/AEColor.swift:16-39 | the same round trip on the components given to UIKit: each byte over 255, alpha 1 when absent |
| HexColor.HashIsOptional | TouchDemo/AEColor.swift:20-22 | a leading "#" does not change the colour |
| HexColor.TwoHashesIsBlack | TouchDemo/AEColor.swift:20-26 | only one "#" is stripped; "##..." is opaque black |
| HexColor.LengthCountsWholeBody | TouchDemo/AEColor.swift:26-36 | the length test counts the whole body: "12zz56" is read as RRGGBB with value 0x12, so blue is 0x12 |
| HexColor.UpperDigit | TouchDemo/AEColor.swift:24-26 | writing a letter digit in upper case keeps its digit value, and "#" is left alone |
| HexColor.HexPrefixUpper | TouchDemo/AEColor.swift:24-26 | the scanner reads the same digits, in either case |
| HexColor.HexValueUpper | TouchDemo/AEColor.swift:26 | the scanned value does not depend on the case of the letter digits |
| HexColor.DecodeIgnoresCase | TouchDemo/AEColor.swift:16-39 | the colour of a hex string does not depend on the case of its letter digits, so "#ff8800" and "#FF8800" decode alike and the round trip covers lower-case input |
| AEColor.LighterHsb | TouchDemo/AEColor.swift:69-73 | keeps hue and alpha, scales saturation by (1 - factor), and scales brightness's distance to 1 by (1 - factor) |
| AEColor.DarkerHsb | TouchDemo/AEColor.swift:95-99 | keeps hue and alpha, scales brightness by (1 - factor), and scales saturation's distance to 1 by (1 - factor) |
| AEColor.LighterWhite | TouchDemo/AEColor.swift:76-79 | white becomes min(white + factor, 1); alpha is kept |
| AEColor.DarkerWhite | TouchDemo/AEColor.swift:102-105 | white becomes max(white - factor, 0); alpha is kept |
| AEColor.Lighter | TouchDemo/AEColor.swift:62-86 | RGB colours are lightened in HSB and monochrome ones in grayscale; an unreadable colour or any other model gives white |
| AEColor.Darker | TouchDemo/AEColor.swift:88-112 | the same dispatch for the darker shade |
| AEColor.RandomColor | TouchDemo/AEColor.swift:44-50 | an opaque RGB colour whose hue, saturation and brightness are in [0, 1) |
| AEColor.RandomVividColor | TouchDemo/AEColor.swift:52-58 | an opaque RGB colour whose hue is in [0, 1) and whose saturation and brightness are in [0.5, 1) |
| AEColor.LighterHsbBounds | TouchDemo/AEColor.swift:69-73 | with inputs in [0, 1], the lighter HSB stays in [0, 1], with saturation not raised and brightness not lowered |
| AEColor.DarkerHsbBounds | TouchDemo/AEColor.swift:95-99 | with inputs in [0, 1], the darker HSB stays in [0, 1], with brightness not raised and saturation not lowered |
| AEColor.ShadesStayInGamut | TouchDemo/AEColor.swift:62-112 | both shades of an in-gamut colour are in gamut and move each component in the direction the shade's name says |
| AEColor.ZeroFactorIsIdentity | TouchDemo/AEColor.swift:62-112 | a factor of 0 returns the same HSB colour, or the same in-range grayscale colour |
| AEColor.FullFactorReachesExtremes | TouchDemo/AEColor.swift:62-112 | a factor of 1 reaches the extremes (lighter gives saturation 0, brightness 1, white 1; darker gives the opposite); other models give white |
| AEColor.DarkerMirrorsLighter | TouchDemo/AEColor.swift:62-112 | darker is lighter with saturation and brightness swapped, and lighter on 1 - white in grayscale |
| AEColor.ShadesCompose | TouchDemo/AEColor.swift:62-112 | two shades compose into one: HSB factors combine as 1 - (1 - f1)(1 - f2), and non-negative grayscale factors add |
| AEColor.RandomColorCovers | TouchDemo/AEColor.swift:44-50 | every grid value k/256, k below 256, of hue, saturation and brightness is produced by some draw |
| AEColor.RandomVividColorCovers | TouchDemo/AEColor.swift:44-58 | every vivid grid value (hue k/256 for k below 256, saturation and brightness 1/2 + k/256 for k below 128) is produced by some draw |
| DotViews.ArcRandomUniform | TouchDemo/DotView.swift:56 | the draw is below the bound, or 0 for a bound below 2 |
| DotViews.RandomValueFrom | TouchDemo/DotView.swift:55-57 | when it does not trap, the result lies in [from, to), or equals from when from == to; it never traps for 0 <= from <= to < 2^32 |
| DotViews.RandomValueFromCoversRange | TouchDemo/DotView.swift:55-57 | every integer of [from, to) is a possible result |
| DotViews.MakeDot | TouchDemo/DotView.swift:41-47 | the frame is radius by radius at the origin, the corner radius is radius / 2, the background is the colour and highlighted is unset |
| DotViews.DefaultDot | TouchDemo/DotView.swift:49-53 | a vivid random colour and a whole radius in [30, 100), with the frame and corner radius of `init(color:radius:)` |
| DotViews.SetHighlighted | TouchDemo/DotView.swift:20-31 | the flag takes the new value and the background shows it (the darker shade while true, the colour otherwise); nothing else changes |
| DotViews.TouchesBegan | TouchDemo/DotView.swift:61-63 | highlighted becomes true and the background becomes the darker shade of the colour |
| DotViews.TouchesEnded | TouchDemo/DotView.swift:66-68 | highlighted becomes false and the background returns to the colour |
| DotViews.TouchesCancelled | TouchDemo/DotView.swift:70-72 | highlighted becomes false and the background returns to the colour |
| DotViews.HighlightLifecycle | TouchDemo/DotView.swift:20-72 | a new dot shows its highlight, every callback keeps the background consistent with the flag, and began followed by ended or cancelled restores the dot, with highlighted now false |
| DotViews.TouchBounds | TouchDemo/DotView.swift:77-81 | a corner radius of 22 or more gives the bounds; a smaller one grows every edge by 22 - cornerRadius |
| DotViews.PointInside | TouchDemo/DotView.swift:76-83 | every point of the bounds is a hit, and from corner radius 22 on a point is a hit exactly when it is in the bounds |
| DotViews.HitAreaOfBuiltDot | TouchDemo/DotView.swift:41-83 | a dot built with radius below 44 has a 44 x 44 hit rectangle; every built dot is hit exactly in the square of side max(44, radius) round its centre |
| DotViews.Trunc | TouchDemo/DotView.swift:92-93 | `Int(CGFloat)` truncates toward zero |
| DotViews.PlaceRandomly | TouchDemo/DotView.swift:89-95 | a dot moves to whole coordinates in [Int(d), Int(side - d)) on each axis; other views stay put |
| DotViews.ArrangeDotsRandomly | TouchDemo/DotView.swift:87-97 | succeeds exactly when every placement does, and then each subview is placed by its own draw |
| DotViews.RandomCentreInRange | TouchDemo/DotView.swift:87-97 | for a whole diameter d and sides above 2d, placement cannot trap and the centre lies in [d, side - d) |
| DotViews.SlotGeometry | TouchDemo/DotView.swift:100-107 | from width 100 up there is at least one slot, the slots fill the width exactly (n * s == width) and are at least 100 wide; below 100 there are none |
| DotViews.NeatStep | TouchDemo/DotView.swift:119-123 | advancing the cursor one slot, and wrapping at the width, moves it from the centre of slot k to the centre of slot k + 1 |
| DotViews.ArrangeDotsNeatly | TouchDemo/DotView.swift:99-126 | the k-th dot goes to ((k mod n) + 1/2) * s, ((k div n) + 1/2) * s and other subviews stay; a width below 100 fails exactly when there is a dot |
| DotViews.NeatLayoutOnGrid | TouchDemo/DotView.swift:100-125 | the loop, started at half a slot in both directions, lays the dots out on the grid of the container's width |
| DotViews.PlaceOnGrid | TouchDemo/DotView.swift:113-125 | the loop keeps the number and order of the subviews; a subview that is not a dot is unchanged, and a dot changes only its centre |
| DotViews.PlaceOnGridIsNeat | TouchDemo/DotView.swift:110-125 | the cursor walk puts each dot at the grid centre indexed by the number of dots before it |
| DotViews.NeatCentresDistinct | TouchDemo/DotView.swift:113-125 | distinct dots get distinct centres; two dots share a row exactly when k div n agrees, and a column exactly when k mod n agrees |
| DotViews.GridCentreInside | TouchDemo/DotView.swift:110-125 | on a grid of n slots of side s, every centre has x in (0, n * s) and y above 0 |
| DotViews.NeatCentreInside | TouchDemo/DotView.swift:100-125 | every grid centre lies strictly within the container's width and below its top edge |
| TouchIndicator.Init | TouchDemo/TouchIndicatorGestureRecognizer.swift:19-26 | no touch is tracked, and touches in the view are never cancelled |
| TouchIndicator.CreateIndicator | TouchDemo/TouchIndicatorGestureRecognizer.swift:68-79 | the state becomes began; the touch gets an indicator at its location only when there is a view; other entries are unchanged |
| TouchIndicator.MoveIndicator | TouchDemo/TouchIndicatorGestureRecognizer.swift:88-93 | a tracked touch's indicator moves to it and the state becomes changed; an untracked touch changes nothing |
| TouchIndicator.RemoveIndicator | TouchDemo/TouchIndicatorGestureRecognizer.swift:95-101 | a tracked touch's removal becomes pending without touching the map; an untracked touch changes nothing |
| TouchIndicator.CompleteRemoval | TouchDemo/TouchIndicatorGestureRecognizer.swift:101-107 | exactly that touch's entry leaves the map, other entries are unchanged, and the state becomes ended exactly when the map is now empty |
| TouchIndicator.TouchesBegan | TouchDemo/TouchIndicatorGestureRecognizer.swift:30-35 | with a view, every began touch is stored with an indicator at its location; touches not in the set keep their entries |
| TouchIndicator.TouchesMoved | TouchDemo/TouchIndicatorGestureRecognizer.swift:37-42 | the tracked set is unchanged, moved tracked touches carry their new location, and the state becomes changed exactly when a moved touch is tracked |
| TouchIndicator.TrackedAmong | TouchDemo/TouchIndicatorGestureRecognizer.swift:96 | a touch that is not tracked, or not among those ended, is not counted; among distinct touches, each tracked one that ended is counted exactly once |
| TouchIndicator.TouchesEnded | TouchDemo/TouchIndicatorGestureRecognizer.swift:44-49 | removal becomes pending for exactly the tracked touches among those ended; map and state are unchanged |
| TouchIndicator.TouchesCancelled | TouchDemo/TouchIndicatorGestureRecognizer.swift:51-56 | as for ended touches |
| TouchIndicator.Step | TouchDemo/TouchIndicatorGestureRecognizer.swift:23-26 | no event changes whether the recognizer has a view or cancels touches |
| TouchIndicator.StepKeepsInvariant | TouchDemo/TouchIndicatorGestureRecognizer.swift:30-107 | no event leaves the recognizer ended while it still tracks a touch |
| TouchIndicator.RunKeepsInvariant | TouchDemo/TouchIndicatorGestureRecognizer.swift:23-107 | along any run the recognizer is never ended while tracking, and it never starts cancelling touches |
| TouchIndicator.EndsExactlyWhenEmpty | TouchDemo/TouchIndicatorGestureRecognizer.swift:102-106 | a completed removal ends the recognizer exactly when no touch is tracked afterwards |
| TouchIndicator.BeginThenLift | TouchDemo/TouchIndicatorGestureRecognizer.swift:30-101 | a touch that begins and ends is tracked at its location, the state is began, and its removal is pending |
| TouchIndicator.LiftUndoesTouch | TouchDemo/TouchIndicatorGestureRecognizer.swift:30-107 | a touch that begins, ends and has its removal complete leaves the map and pending removals as before; the state is ended exactly when nothing else is tracked |
| TouchIndicator.MoveIdempotent | TouchDemo/TouchIndicatorGestureRecognizer.swift:37-93 | moving the same touches to the same places twice is the same as moving them once |
| TouchIndicator.BeginTwo | TouchDemo/TouchIndicatorGestureRecognizer.swift:30-79 | two distinct touches that begin together are both stored, and the state is began |
| TouchIndicator.TwoFingersFirstLift | TouchDemo/TouchIndicatorGestureRecognizer.swift:30-101 | two fingers down and the first lifted: both are still tracked and only the first removal is pending |
| TouchIndicator.LastFingerLift | TouchDemo/TouchIndicatorGestureRecognizer.swift:44-107 | lifting the only tracked finger and completing its removal ends the recognizer with an empty map |
| TouchIndicator.TwoFingers | TouchDemo/TouchIndicatorGestureRecognizer.swift:30-107 | lifting the first of two fingers hides only its indicator and keeps the recognizer began; lifting the second ends it with an empty map |
| TouchDelay.Init | TouchDemo/TouchDelayGestureRecognizer.swift:20-27 | touches are delayed, the state is possible and no timer exists |
| TouchDelay.TouchesBegan | TouchDemo/TouchDelayGestureRecognizer.swift:31-33 | arms a fresh one-shot 0.15 s timer and stores it, without changing the state; an earlier timer stays scheduled |
| TouchDelay.Fail | TouchDemo/TouchDelayGestureRecognizer.swift:43-45 | the state becomes failed and nothing else changes |
| TouchDelay.TouchesEnded | TouchDemo/TouchDelayGestureRecognizer.swift:35-37 | fails at once and leaves the timers alone |
| TouchDelay.TouchesCancelled | TouchDemo/TouchDelayGestureRecognizer.swift:39-41 | fails at once and leaves the timers alone |
| TouchDelay.TimerFires | TouchDemo/TouchDelayGestureRecognizer.swift:32-45 | a scheduled timer fails the recognizer and stops being scheduled; any other timer changes nothing |
| TouchDelay.Reset | TouchDemo/TouchDelayGestureRecognizer.swift:47-50 | the stored timer is invalidated and cleared, with every other timer left alone, and the state returns to possible |
| TouchDelay.RunNeverRecognises | TouchDemo/TouchDelayGestureRecognizer.swift:31-50 | along any run the state is only ever possible or failed, and touches stay delayed |
| TouchDelay.ResetUndoesBegan | TouchDemo/TouchDelayGestureRecognizer.swift:31-50 | a reset right after a touch began disarms exactly the timer that touch armed |
| TouchDelay.TimerFailsAfterBegan | TouchDemo/TouchDelayGestureRecognizer.swift:31-50 | the armed timer fails the recognizer when it fires, and does nothing once a reset has come first |
| TouchDelay.StaleTimerSurvivesReset | TouchDemo/TouchDelayGestureRecognizer.swift:31-50 | two touches began and then a reset: the first timer is still scheduled and fails the fresh recognizer |
| TouchDelay.TouchesBeganFixed | TouchDemo/TouchDelayGestureRecognizer.swift:31-33 | corrected touch began: the old stored timer is invalidated before a fresh one is armed |
| TouchDelay.StepFixedKeepsOneTimer | TouchDemo/TouchDelayGestureRecognizer.swift:31-50 | with the correction, no event schedules a timer other than the stored one |
| TouchDelay.RunFixedKeepsOneTimer | TouchDemo/TouchDelayGestureRecognizer.swift:31-50 | with the correction, along any run only the stored timer is scheduled, so a reset leaves no timer at all |
| TouchDelay.ResetSilencesTimersFixed | TouchDemo/TouchDelayGestureRecognizer.swift:31-50 | with the correction, after any run and a reset no timer firing changes the recognizer |
| Geometry.InsetBy | TouchDemo/DotView.swift:80 | the rectangle exists exactly when it has non-negative width and height, and then each edge has moved inward by dx or dy |

## Left out

- `TouchDemo/ViewController.swift` and `TouchDemo/OverlayScrollView.swift` are not part of this model. They compose views, set up Auto Layout and dispatch to UIKit calls.
- Animations are left out: durations, springs, transforms, alpha, `zPosition`, `arrangeDotsNeatlyInViewWithNiftyAnimation` and the 20-point white indicator view (`indicator()`). An indicator is only its centre. Adding or removing it as a subview is not modelled.
- `Scanner.scanHexInt32` is modelled as "read the longest prefix of hex digits; fail when there is none". Whitespace skipping, a `0x` prefix and overflow are left out. `HexColor.ScanFitsUInt32` shows that overflow cannot reach a colour.
- UIKit's conversions between RGB, HSB and grayscale are left out. `AEColor.Color` records only what `getHue` and `getWhite` report, and the model of the colour space.
- Every `CGFloat` is an exact real: colour components, and all geometry (the slot side and the cursor with its wrap test, the hit-test rectangle, the random-layout sides). Rounding is not modelled, and `SlotGeometry`'s n·s == width holds only in exact arithmetic.
- `Int` is taken as unbounded. `Int(CGFloat)` is truncation toward zero, and its trap on non-finite or out-of-range values is not modelled.
- `arc4random` and `arc4random_uniform` take their draws as parameters. Uniformity of the distribution is not modelled.
- Run-loop scheduling of `NSTimer` is not modelled. Firing is an event that only a scheduled timer can produce, and the 0.15 s interval is recorded but not timed.
- UIKit's gesture machinery is not modelled. This includes delivery of touches to the view, `delaysTouchesBegan` holding back touches, and the timing of `reset`. The reset cycle is an event that returns the state to possible and runs the class's own `reset`.
- `init(coder:)` is left out. It only calls `fatalError`.
- HexColor.DecodeBytes: the 6 or 8 length test counts `char`s (Unicode scalars), while the source counts Swift `Character`s (grapheme clusters). A body containing a multi-scalar character decodes differently. For example, "12345\r\n" has 6 Characters (CR LF is one), so the source reads it as RRGGBB 01 23 45, but the model counts 7 and gives opaque black. The same happens with a combining mark after a digit.
- HexColor.StripHash: tests for and drops one `char` (Unicode scalar), while `hasPrefix("#")` and `substring(from:)` with an index into `hex.characters` work on Swift `Character`s. A "#" followed by a combining mark, such as U+0301, is one Character: the model strips the "#" and keeps the mark, so the scan fails and the colour is opaque black, whereas the Swift code either does not strip at all or, where `hasPrefix` compares decomposed scalars, strips the whole Character.
- HexColor.Decode: inherits the scalar count of `HexColor.DecodeBytes`, with the same divergence on multi-scalar characters.
- AEColor.Lighter and AEColor.Darker: the diagnostic `print` of an unsupported colour-space model is left out. Only the returned white is modelled.
- DotViews.ArrangeDotsNeatly: for a width below 100 the source divides by a slot count of 0, which gives non-finite centres. The model returns `None` when there is a dot and does not model IEEE infinities or NaN.
- DotViews.Dot: `color` and `radius` are optionals in the source but are always set by both initialisers, so they are plain fields.
- TouchIndicator.TouchesBegan: touches of a callback are assumed distinct (`Set<UITouch>`) in the clauses about their indicators. The set's iteration order is taken as the sequence's order.

## Findings

| source | as written | input that shows it | evidently intended | confidence | as-written member | corrected member |
|---|---|---|---|---|---|---|
| TouchDemo/TouchDelayGestureRecognizer.swift:31-50 | `touchesBegan` overwrites `timer` without invalidating the timer stored before. `reset` then invalidates only the latest one, so the earlier timer survives and calls `fail` during a later touch sequence. | touch began, touch began, reset: the first timer is still scheduled and fails the recognizer after it was reset to possible | every timer armed in a touch sequence is disarmed by `reset` (for example by invalidating `timer` before storing a new one) | low; not executed. Whether UIKit can deliver two `touchesBegan` calls before a reset is not visible here. | TouchDelay.StaleTimerSurvivesReset | TouchDelay.RunFixedKeepsOneTimer |
