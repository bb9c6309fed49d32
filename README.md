# Dynamic 2D fog, HUD counters and item spawning — a Dafny model

This project models three parts of a small Godot game.

- **The `DynamicFog2D` node** (`src/dynamic_fog_2d.cpp`, with field defaults from `src/dynamic_fog_2d.h`). It owns a fog buffer, one pixel per 4×4 block of the display. When the node becomes ready, it has a "Fog" sprite child and it is not running in the editor, the buffer is created fully opaque black and processing is switched on; otherwise processing stays off and no buffer is made. On every processed frame:
  1. It regenerates the buffer: colour channels move toward 0 and alpha toward 1 by `fog_regen_rate * delta`.
  2. Then, when the light group is set, the buffer is not empty and the group has at least one node, it rotates and scales the image of each sprite in the group and blends that image into the buffer at a rounded destination. A node that is not a sprite, a sprite without a texture image of positive size, and a sprite whose rotated image is empty are skipped.
  3. In that same case it publishes the buffer to the "Fog" sprite. Otherwise the regenerated buffer is not republished that frame, and the sprite keeps its last texture.
- **The HUD** (`Scripts/Hud.cs`):
  - an elapsed-seconds score, shown as `m:ss`;
  - a battery level that drains by a step on each timer tick while above its minimum, and is topped up by pickups up to its maximum.
- **The item-spawn area** (`Scripts/ItemSpawnArea.cs`): while an item scene and a circular collision shape are present and the cap is not yet reached, a timer accumulates frame time. At each spawn interval the timer resets and one item is spawned.

Each core file is modelled in the form the source has:

- **State the source updates in place is a `class`.** The fog buffer is `Images.Image`, over an `array2` indexed `[y, x]`. The nodes are `DynamicFog.DynamicFog2D`, `HudCounters.Hud` and `ItemSpawning.ItemSpawnArea`, whose fields are the source's fields.
- **Loops stay loops.** These are the per-pixel regeneration, the light loop, the rotation sampling and the blend.
- **Each method is proved against a value-level function.** The functions are `Regenerated`, `Composite`, `RotateGrid`, `BlendInto`, `Tick`, `Drain`, `Recharge`, `ScoreText` and `BatteryText`. The properties the source promises are then proved about those functions as lemmas.

Inputs and other choices:

- **Engine queries are inputs:**
  - the editor flag;
  - whether a "Fog" `Sprite2D` child exists;
  - the light group's nodes, as `Composition.LightNode` snapshots;
  - whether the spawn area's shape is a circle.
- **Floats are `real`.**
- **A light's rotation comes in as its cosine and sine.**
- **Integer division follows C++ truncation** (`DynamicFog.TruncDiv`).
- **The blend colour rule of `Image::blend_rect` is a parameter** `blend(dst, src)`. Its clipping is modelled exactly.

Modules:

- `Wrappers` holds `Option`.
- `Numbers` holds `Ceil`, `Round` (C `round`), `RoundToEven` (`Mathf.RoundToInt`) and `IsWhole`.
- `Pixels` holds `Color` and rectangular `Grid`s.
- `Regeneration` holds `move_toward` and the regeneration pass.
- `Images` holds the mutable image, with `fill`, `create_empty` and `blend_rect`.
- `LightTransform` holds the rotation/scale inverse map.
- `Composition` holds which lights contribute, where, and the fold over the lights.
- `DynamicFog` holds the node.
- `Decimal` holds the .NET `D1`/`D2`/int texts and their parsers.
- `HudCounters` holds the HUD.
- `ItemSpawning` holds the spawner.

## Model

| member | source | states |
|---|---|---|
| Numbers.Ceil | src/dynamic_fog_2d.cpp:186-187 | the result is the least integer not below its argument |
| Numbers.Round | src/dynamic_fog_2d.cpp:150-151 | the result is within 0.5 of its argument and has that argument's sign |
| Numbers.RoundToEven | Scripts/Hud.cs:57 | the result is within 0.5 of its argument, and even when exactly 0.5 away |
| Pixels.Filled | src/dynamic_fog_2d.cpp:58 | a w-by-h grid every pixel of which is the fill colour |
| Regeneration.MoveToward | src/dynamic_fog_2d.cpp:90-93 | with a non-negative step the value lands on the target when it is within the step, and otherwise moves exactly the step toward it without passing it; a value already at the target stays; a negative step moves away from the target by exactly that step |
| Regeneration.RegenPixel | src/dynamic_fog_2d.cpp:89-94 | with a non-negative amount every channel moves by at most the amount, and never away from its target (0 for colour, 1 for alpha) |
| Regeneration.RegenClosedForm | src/dynamic_fog_2d.cpp:87-96 | for an in-range pixel and a non-negative amount, regeneration is clamped linear subtraction (colour) and addition (alpha) |
| Regeneration.RegenMonotone | src/dynamic_fog_2d.cpp:87-96 | regeneration never raises a colour channel, never lowers alpha, and keeps every channel in [0, 1] |
| Regeneration.RestIsFixedPoint | src/dynamic_fog_2d.cpp:90-93 | opaque black is unchanged by regeneration with any amount |
| Regeneration.RegenStepsClosedForm | src/dynamic_fog_2d.cpp:85-96 | n regenerations by the same amount equal one clamped step by n times that amount |
| Regeneration.RegenConverges | src/dynamic_fog_2d.cpp:85-96 | once n times the amount reaches 1, every in-range pixel is opaque black |
| Regeneration.RegenStaysAtRest | src/dynamic_fog_2d.cpp:85-96 | a pixel at rest stays at rest under any number of passes |
| Regeneration.Regenerated | src/dynamic_fog_2d.cpp:81-96 | the regenerated buffer keeps the buffer's dimensions |
| Regeneration.RestingBufferIsFixed | src/dynamic_fog_2d.cpp:58 | a buffer filled with opaque black is unchanged by a regeneration pass |
| Regeneration.RegenExample | src/dynamic_fog_2d.cpp:90-93 | regenerating (0, 0, 0, 0.5) by 0.2 gives (0, 0, 0, 0.7) |
| Images.BlendInto | src/dynamic_fog_2d.cpp:155 | dimensions are kept |
| Images.TwoByTwoAtOneOne | src/dynamic_fog_2d.cpp:155 | a 2-by-2 light placed at (1, 1) in a 4-by-4 buffer changes exactly the pixels (1..2, 1..2), each to the blend of the old pixel and the light's |
| Images.Image.CreateEmpty | src/dynamic_fog_2d.cpp:57 | a fresh w-by-h image of transparent black, or a 0-by-0 image when a size is not positive |
| Images.Image.Fill | src/dynamic_fog_2d.cpp:58 | every pixel becomes the fill colour |
| Images.Image.BlendRect | src/dynamic_fog_2d.cpp:155 | the image becomes `BlendInto` of its old pixels: each pixel under the source becomes `blend(old, src)`, source pixels outside the image are clipped away, every other pixel is unchanged |
| Images.Image.BlendRow | src/dynamic_fog_2d.cpp:155 | one clipped row of the blend, keeping the invariant that every earlier row is done and every later pixel is untouched |
| LightTransform.NonzeroScale | src/dynamic_fog_2d.cpp:180-181 | a zero scale component becomes 1, and a non-zero one is kept |
| LightTransform.Effective | src/dynamic_fog_2d.cpp:179-181 | both scale components used are non-zero |
| LightTransform.RotatedWidth | src/dynamic_fog_2d.cpp:184-186 | the box width is not negative with non-negative scales, and at least 1 for a non-empty source with positive scales and a true rotation (cos² + sin² = 1) |
| LightTransform.RotatedHeight | src/dynamic_fog_2d.cpp:184-187 | the same bounds as the width, and the height is the width after a further quarter turn |
| LightTransform.SourcePointIsPreimage | src/dynamic_fog_2d.cpp:201-206 | for a true rotation, placing the exact inverse-mapped point again (scale, rotate by the light's angle, re-centre) gives back the destination pixel |
| LightTransform.SourceOf | src/dynamic_fog_2d.cpp:201-209 | the sampled source pixel is the one whose unit square holds the exact inverse-mapped point |
| LightTransform.Sample | src/dynamic_fog_2d.cpp:208-213 | every sampled colour is transparent black or a colour of the source |
| LightTransform.RotateGrid | src/dynamic_fog_2d.cpp:186-192 | the rotated image has the bounding-box size `ceil(w·sx·abs(cos) + h·sy·abs(sin))` by `ceil(w·sx·abs(sin) + h·sy·abs(cos))`, or is empty when either is not positive |
| LightTransform.RotatedPixelOrigin | src/dynamic_fog_2d.cpp:199-213 | each rotated pixel is the source pixel at the floored inverse-mapped coordinate when that lies inside the source, and transparent black otherwise |
| LightTransform.ZeroScaleActsAsOne | src/dynamic_fog_2d.cpp:180-181 | a zero scale component gives the same image as a scale of 1 |
| LightTransform.UprightIsIdentity | src/dynamic_fog_2d.cpp:178-217 | rotation 0 with scale (1, 1) returns the source unchanged, in content and size |
| LightTransform.UprightMapsToItself | src/dynamic_fog_2d.cpp:201-209 | with rotation 0 and scale (1, 1) every destination pixel maps to itself |
| LightTransform.DoubleScaleRepeatsPixels | src/dynamic_fog_2d.cpp:178-217 | rotation 0 with scale (2, 2) doubles both dimensions and repeats each source pixel as a 2-by-2 block |
| LightTransform.DoubledMapsToHalf | src/dynamic_fog_2d.cpp:201-209 | with rotation 0 and scale (2, 2), pixel (x, y) maps to (x div 2, y div 2) |
| LightTransform.MirroredLightIsEmpty | src/dynamic_fog_2d.cpp:186-192 | a negative scale component with rotation 0 gives an empty rotated image |
| LightTransform.RotatedMirroredLightIsNotEmpty | src/dynamic_fog_2d.cpp:184-192 | rotated, a mirrored light can still get an image: a 2-by-4 source at cos 0.6, sin 0.8 and scale (-1, 1) gives a 2-by-1 image |
| Composition.RotatedLightImage | src/dynamic_fog_2d.cpp:163-192 | nothing exactly when the light has no texture image of positive size; otherwise an image of the rotated bounding-box size, empty when that is not positive, and never empty for a true rotation with positive scales |
| Composition.Destination | src/dynamic_fog_2d.cpp:145-152 | the destination is within half a pixel, on each axis, of position / 4 − half size + offset · scale |
| Composition.Contribution | src/dynamic_fog_2d.cpp:115-152 | a light contributes exactly when it is a sprite whose rotated image exists and is not empty; the contribution is that image at its `Destination` |
| Composition.ApplyLight | src/dynamic_fog_2d.cpp:115-155 | the buffer keeps its dimensions; a light that contributes nothing leaves it unchanged; otherwise each pixel under the light becomes `blend(old, light)` and every other pixel is kept |
| Composition.Composite | src/dynamic_fog_2d.cpp:114-156 | compositing keeps the buffer's dimensions |
| Composition.CompositeAppend | src/dynamic_fog_2d.cpp:114-156 | compositing two light lists in turn equals compositing their concatenation, so lights apply strictly in list order |
| Composition.CompositeSnoc | src/dynamic_fog_2d.cpp:114-156 | one more light at the end of the list is one more blend of its contribution |
| Composition.SkippedLightIsInvisible | src/dynamic_fog_2d.cpp:115-143 | a light that is skipped (not a sprite, no texture, no image of positive size, empty rotation) can be removed from the list without changing the result |
| Composition.Placements | src/dynamic_fog_2d.cpp:114-156 | the contributions of the lights that are not skipped, in order; there are at most as many as lights, and exactly as many when no light is skipped; the reference that `CompositeIsBlendOfPlacements` relates to `Composite` |
| Composition.CompositeIsBlendOfPlacements | src/dynamic_fog_2d.cpp:114-156 | compositing equals blending exactly the contributions of the non-skipped lights, in order |
| Composition.CompositeLeavesUncoveredPixels | src/dynamic_fog_2d.cpp:148-155 | a pixel covered by no contributing light keeps its value |
| Composition.DisjointBlendsCommute | src/dynamic_fog_2d.cpp:114-156 | two placed light images that do not overlap give the same buffer in either order |
| DynamicFog.TruncDiv | src/dynamic_fog_2d.cpp:50-51 | quotient of a non-negative dividend is the floor of the division; a negative dividend gives a non-positive quotient rounded toward zero (q·b − b < a ≤ q·b) |
| DynamicFog.FogDimension | src/dynamic_fog_2d.cpp:50-53 | a buffer side is at least 1, is the number of whole 4-pixel blocks of the display side, and is 1 for a side under 4 |
| DynamicFog.DefaultFogSize | src/dynamic_fog_2d.h:19-20 | the default 1152 by 648 display gives a 288 by 162 buffer |
| DynamicFog.DynamicFog2D.constructor | src/dynamic_fog_2d.h:19-27 | the field defaults: 1152, 648, 3.0, an empty light group, no sprite, no buffer, not processing |
| DynamicFog.DynamicFog2D.Ready | src/dynamic_fog_2d.cpp:31-69 | without a "Fog" sprite or in the editor, processing is off and the buffer, publish count and displayed pixels are left as they were; otherwise a fresh buffer of the clamped size, filled opaque black, is published once and processing is on; either way the node is `Valid` (processing implies a fog sprite and a buffer of at least 1 by 1) |
| DynamicFog.DynamicFog2D.Process | src/dynamic_fog_2d.cpp:72-75 | keeps `Valid`; the buffer becomes the composite of the lights over the regenerated old buffer when compositing runs, and the regenerated buffer otherwise; it is published, shown and displayed exactly when compositing runs, which a processing node with a light group and some lights always does |
| DynamicFog.DynamicFog2D.RegenerateFog | src/dynamic_fog_2d.cpp:78-97 | the buffer becomes `Regenerated` of its old value by rate times elapsed time |
| DynamicFog.DynamicFog2D.UpdateFog | src/dynamic_fog_2d.cpp:100-160 | with a light group, a buffer, a fog sprite and at least one light, the buffer becomes the ordered composite of the lights and is published and displayed once; otherwise nothing changes, the displayed pixels included |
| DynamicFog.DynamicFog2D.BlendLights | src/dynamic_fog_2d.cpp:114-156 | the light loop: the buffer becomes `Composite` of its old value over the lights, in list order |
| DynamicFog.DynamicFog2D.BlendLight | src/dynamic_fog_2d.cpp:115-155 | one light's iteration: the buffer becomes `ApplyLight` of its old value |
| DynamicFog.DynamicFog2D.GetRotatedLightImage | src/dynamic_fog_2d.cpp:163-218 | no image exactly when the light has no texture image of positive size; otherwise a fresh image equal to `RotateGrid` of the source |
| DynamicFog.DynamicFog2D.SampleRow | src/dynamic_fog_2d.cpp:200-214 | row y becomes the samples of the inverse map; other rows are unchanged |
| DynamicFog.DynamicFog2D.UpdateFogTexture | src/dynamic_fog_2d.cpp:221-234 | with a fog sprite and a non-empty buffer, the buffer is published and the sprite shown; otherwise nothing changes |
| Decimal.DigitChar | Scripts/Hud.cs:50 | a digit character, and '0' exactly for 0 |
| Decimal.DigitValue | Scripts/Hud.cs:50 | the inverse of `DigitChar` |
| Decimal.NatText | Scripts/Hud.cs:50 | a non-empty digit string, one digit exactly for 0..9, starting with '0' only for 0 |
| Decimal.NatTextRoundTrip | Scripts/Hud.cs:50 | the text of a number parses back as that number |
| Decimal.NatTextOfValue | Scripts/Hud.cs:50 | every canonical digit string is the text of its value |
| Decimal.ParseNatIffNatText | Scripts/Hud.cs:50 | a string parses as n exactly when it is the text of n |
| Decimal.IntText | Scripts/Hud.cs:57 | a non-empty text that starts with '-' exactly for a negative integer, whose digits are canonical, and which is "0" for 0 |
| Decimal.IntTextRoundTrip | Scripts/Hud.cs:57 | the text of an integer, '-' included, parses back as that integer |
| Decimal.ParsedIntIsText | Scripts/Hud.cs:57 | whatever parses as an integer is that integer's text |
| Decimal.ParseIntIffIntText | Scripts/Hud.cs:57 | a string parses as i exactly when it is the text of i |
| Decimal.Zeros | Scripts/Hud.cs:50 | k zero digits |
| Decimal.ValueOfLeadingZeros | Scripts/Hud.cs:50 | leading zeros do not change a digit string's value |
| Decimal.PaddedText | Scripts/Hud.cs:50 | the `Dw` text is at least `width` characters, exactly `width` when the shortest text fits, and the shortest text itself otherwise |
| Decimal.PaddedTextReadsBack | Scripts/Hud.cs:50 | the padded text is all digits and its value is the number |
| Decimal.TwoDigitsAtMost | Scripts/Hud.cs:48-50 | numbers below 100 have at most two digits |
| Decimal.PaddedTwoOfValue | Scripts/Hud.cs:50 | every two-digit string is the `D2` text of its value |
| HudCounters.ScoreText | Scripts/Hud.cs:47-50 | the score text is the minutes' shortest digits, ':', then the seconds' two-character `D2` text |
| HudCounters.ScoreTextRoundTrip | Scripts/Hud.cs:47-50 | the score text of e seconds reads back as e |
| HudCounters.ParsedScoreIsText | Scripts/Hud.cs:47-50 | whatever reads back as a score is that score's text |
| HudCounters.ParseScoreIffScoreText | Scripts/Hud.cs:47-50 | score texts and elapsed times correspond one to one |
| HudCounters.ScoreTextExamples | Scripts/Hud.cs:47-50 | 65 seconds show as "1:05" and 0 as "0:00" |
| HudCounters.BatteryText | Scripts/Hud.cs:55-57 | the battery text ends in '%', and what comes before it reads back as `Mathf.RoundToInt` of level / 100 |
| HudCounters.BatteryTextShowsNearest | Scripts/Hud.cs:55-57 | the battery text reads back as an integer within 0.5 of level / 100 |
| HudCounters.InitialBatteryText | Scripts/Hud.cs:14 | the initial level 10000 shows as "100%" |
| HudCounters.Drain | Scripts/Hud.cs:37-40 | a tick subtracts exactly the step while the level is above the minimum and leaves it alone otherwise; it never raises the level with a non-negative step, and with whole numbers and step 1 never takes it below the minimum |
| HudCounters.Recharge | Scripts/Hud.cs:64-72 | a pickup adds the whole value when that fits and otherwise sets the level to the maximum, so it never exceeds the maximum; it never lowers an in-range level with a non-negative value |
| HudCounters.Battery | Scripts/Hud.cs:35-43 | the level after any ticks and pickups, with a non-negative step, never exceeds the larger of the starting level and the maximum |
| HudCounters.BatteryStaysInRange | Scripts/Hud.cs:14-18 | with whole numbers, step 1 and whole non-negative pickups, any sequence of ticks and pickups keeps the level within [minimum, maximum] |
| HudCounters.Hud.constructor | Scripts/Hud.cs:13-18 | the field defaults 0, 10000, 0, 1, 0, 0 |
| HudCounters.Hud.Ready | Scripts/Hud.cs:20-26 | the maximum becomes the current level, both labels are drawn, one update is signalled, and the battery becomes in range |
| HudCounters.Hud.OnScoreTimerTimeout | Scripts/Hud.cs:28-33 | elapsed seconds rise by exactly one and the score label shows them |
| HudCounters.Hud.OnBatteryTimerTimeout | Scripts/Hud.cs:35-43 | the level becomes `Drain` of the old level, the label shows it, it is signalled, and an in-range battery stays in range |
| HudCounters.Hud.UpdateScoreLabel | Scripts/Hud.cs:45-51 | the score label is `ScoreText` of the elapsed seconds |
| HudCounters.Hud.UpdateBattery | Scripts/Hud.cs:53-60 | the label is `BatteryText` of the level and the level is appended to the signalled values |
| HudCounters.Hud.OnBatteryPickup | Scripts/Hud.cs:62-73 | the level becomes `Recharge` of the old level; an in-range battery stays in range for a whole non-negative pickup; labels are not redrawn |
| HudCounters.ReadiedHud | Scripts/Hud.cs:20-26 | a freshly readied HUD shows "0:00" and "100%" with a full, in-range battery |
| ItemSpawning.Tick | Scripts/ItemSpawnArea.cs:27-42 | a missing dependency or a reached cap changes nothing; the count rises by 0 or 1, and by 1 exactly when the timer plus the frame reaches the interval, which resets the timer to 0; otherwise the timer accumulates |
| ItemSpawning.Run | Scripts/ItemSpawnArea.cs:27-42 | over n frames the count never falls and rises by at most n |
| ItemSpawning.DisarmedRunIsIdle | Scripts/ItemSpawnArea.cs:29-30 | without an item scene or a circle shape, no sequence of frames changes anything |
| ItemSpawning.CountStaysWithinCap | Scripts/ItemSpawnArea.cs:32-33 | a count within [0, max(MaxItems, 0)] stays there over any frames |
| ItemSpawning.LongFramesSpawnEveryFrame | Scripts/ItemSpawnArea.cs:35-41 | when armed with a non-negative timer and frames at least as long as the interval, each frame spawns one item until the cap |
| ItemSpawning.FreshSpawnerWithLongFrames | Scripts/ItemSpawnArea.cs:11-12 | from a fresh spawner, n long frames give min(n, max(MaxItems, 0)) items |
| ItemSpawning.ItemSpawnArea.constructor | Scripts/ItemSpawnArea.cs:5-12 | the defaults: interval 1.5, cap 30, timer 0, count 0, and no circle shape yet |
| ItemSpawning.ItemSpawnArea.Ready | Scripts/ItemSpawnArea.cs:14-25 | the node remembers whether its collision shape is a circle |
| ItemSpawning.ItemSpawnArea.Process | Scripts/ItemSpawnArea.cs:27-42 | the new state is `Tick` of the old state |
| ItemSpawning.ItemSpawnArea.SpawnItemInRadius | Scripts/ItemSpawnArea.cs:60 | the count rises by exactly one |

## Left out

- Property getter and setter bindings (`_bind_methods` and the `set_`/`get_` methods, src/dynamic_fog_2d.cpp:3-25 and 236-248) are not modelled. They only read and write the four configuration fields, which the model's class exposes directly.
- The `get_tree()` null check (src/dynamic_fog_2d.cpp:103-104) is left out. The light group's nodes are an input, so a scene tree always exists in the model.
- `Object::cast_to`, `has_method("get_image")` and `print_line` are left out:
  - the casts become the `LightNode` cases and the "Fog"-child flag;
  - every texture is assumed to offer `get_image`;
  - diagnostics are I/O.
- Floating point is modelled as exact reals. Not modelled: float rounding, the `(float)` casts of `delta`, the 8-bit RGBA quantisation of `set_pixel`/`convert`, and `Image`'s maximum size.
- Sine and cosine are not computed. A light carries the cosine and sine of its global rotation as inputs.
- `Image::blend_rect`'s colour formula (alpha-over, including its shortcut for a fully transparent source pixel) is the `blend` parameter; only its clipping is modelled.
- `ImageTexture::create_from_image` is modelled as always succeeding (src/dynamic_fog_2d.cpp:229). Publishing the texture is modelled as a counter, the sprite's visibility, and a ghost copy of the published pixels.
- The fog sprite's scale and position adjustment in `_ready` (src/dynamic_fog_2d.cpp:61-63) is rendering plumbing and is not modelled.
- 32-bit overflow of `int` fields (`display_width`, `elapsedSeconds`, `_spawnedCount`) is not modelled; integers are unbounded.
- HUD side effects:
  - label text is modelled as string fields;
  - `EmitSignal` is modelled as the list of values sent;
  - the labels' text before `_Ready` is modelled as empty.
- `ItemSpawnArea._Ready`'s random-number seeding and `GD.PushError` are left out.
- `SpawnItemInRadius`'s random placement (radius, angle, `Instantiate`, `AddChild`, `GlobalPosition`) is left out; only the count is modelled.
- HudCounters.BatteryTextShowsNearest: states only that the shown number is within 0.5 of level / 100, because the midpoint rule of `Mathf.RoundToInt` is the engine's and is not shown in the source. `Numbers.RoundToEven` still rounds halves to even.
- Godot's `move_toward` is modelled with the Godot 4 rule: land on the target when within `delta`, otherwise step by `delta` toward it.
- Two behaviours of the code are kept as written rather than excluded:
  - `RegenerateFog` does not guard against a non-positive `fog_regen_rate * delta` (src/dynamic_fog_2d.cpp:85-96). `move_toward` with a negative step moves away from the target, and `Regeneration.MoveToward` states this.
  - A negative scale component is used with its sign in the bounding box (src/dynamic_fog_2d.cpp:186-187) and in the inverse map (src/dynamic_fog_2d.cpp:204-205). At rotation 0 the box is then not positive, so the light gets an empty image and is skipped (`LightTransform.MirroredLightIsEmpty`). A rotated mirrored light can still get a non-empty box and is blended as a mirrored sample (`LightTransform.RotatedMirroredLightIsNotEmpty`).
- The negative sign of the battery text is '-', as the invariant culture writes it. The `{n}` interpolation at Scripts/Hud.cs:57 uses the current culture's negative sign, which this model does not vary.
