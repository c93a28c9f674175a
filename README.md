# FastLED 8-bit arithmetic and colour types (Cortex-M0 target), in Dafny

This project models two headers of the Cortex-M0 port of FastLED:

- `fastled.h` — the "lib8tion" fixed-point primitives LED firmware uses for
  per-pixel brightness math: `scale8` (both the fixed, `+1`-biased variant and
  the plain truncating one), `scale8_video` and its `_LEAVING_R1_DIRTY` twin,
  the saturating byte operations `qadd8` / `qsub8`, and the binary-search
  integer square root `sqrt16`. The fractional typedefs (`fract8`, `sfract7`,
  `fract16`, `sfract15`) are range-restricted integer types.
- `hsv.h` — the three-byte colour value types `hsv_t` and `rgb_t` with their
  union aliasing (several names per channel, plus the `raw[3]` array view),
  and the `HSVHue` enum of eight named hue points.

Files: `fastled.dfy` (module `FastLed`) and `hsv.dfy` (module `Color`).

Integers are Dafny's unbounded `int`; `uint8`/`uint16` are subset types. The
model assumes the Cortex-M0's 32-bit C `int`, in which the widened products
`(int)i * (int)scale` (at most 255 · 256) and `mid * mid` (at most 65025) never
overflow; on a target with a 16-bit `int` these products could overflow, and
that case is not modelled. When a
pure function narrows a wider `int` to `uint8_t`, the model writes `U8`, which
reduces modulo 2^8 as the C conversion does. The contracts of `Scale8Fixed`,
`Scale8Plain`, `Scale8Video` and `QAdd8` / `QSub8` give the result as the
unnarrowed value, so they show that the reduction never changes it. When `sqrt16` assigns to a `uint8_t` or
`uint16_t` local, the Dafny local has the matching subset type, so the verifier
checks that no such assignment wraps.

The primitives are pure functions. `sqrt16` is a method with a loop. Its
postcondition is the floor-square-root property r² ≤ x < (r+1)². The
reference function `FloorSqrt` satisfies the same property, and
`FloorSqrtUnique` shows that only one r does. So `sqrt16(x) == FloorSqrt(x)`
for every 16-bit x.

The C loop is a `do … while (hi >= low)`. The model writes it as
`while hi >= low` and asserts before the loop that `low < hi`. So the first
test, which the C skips, always passes, and the two loops run the same
iterations.

Two points about the header:

- `scale8_video_LEAVING_R1_DIRTY` is modelled. Its C path
  (targets/cortex-m0/fastled.h:149) is the same expression as `scale8_video`
  (targets/cortex-m0/fastled.h:199), and the model proves the two equal.
- The `sqrt16` threshold is 7904 = 247 · 32. Up to there `(x >> 5) + 8` fits
  in a byte: it is 255 at x = 7904 and would first wrap at 7936. And
  `LinearEstimateAboveRoot` shows that `(x >> 5) + 8` is at least ⌊√x⌋ for
  every x, so either branch gives a correct search ceiling.

## Model

| member | source | states |
|---|---|---|
| `FastLed.U8` | targets/cortex-m0/fastled.h:70 | the C conversion to `uint8_t` agrees with the input modulo 256 and is the identity on 0..255 |
| `FastLed.Scale8Fixed` | targets/cortex-m0/fastled.h:69-70 | fixed `scale8` equals the unnarrowed `i*(1+scale)/256`, so the narrowing to a byte never wraps; it never exceeds `i`, is the identity at scale 255 and zero at scale 0 |
| `FastLed.Scale8Plain` | targets/cortex-m0/fastled.h:71-72 | truncating `scale8` equals the unnarrowed `i*scale/256`, so the narrowing never wraps; it is at most `i` and at most `scale`, and zero when either input is zero |
| `FastLed.Scale8Approximates` | targets/cortex-m0/fastled.h:58-72 | both variants compute i·scale/256 to within one step: 256·result lies in (i·scale − 256, i·scale + i] (fixed) and (i·scale − 256, i·scale] (plain) |
| `FastLed.Scale8PlainFullScaleLosesOne` | targets/cortex-m0/fastled.h:69-72 | at scale 255 the truncating variant returns i − 1 for every non-zero i while the fixed one returns i |
| `FastLed.Scale8PlainAtMostFixed` | targets/cortex-m0/fastled.h:69-72 | plain `(i*scale)>>8` ≤ fixed `scale8` ≤ plain + 1, for all byte pairs |
| `FastLed.Scale8FixedMonotoneInScale` | targets/cortex-m0/fastled.h:70 | fixed `scale8` is monotone in `scale` |
| `FastLed.Scale8FixedMonotoneInInput` | targets/cortex-m0/fastled.h:70 | fixed `scale8` is monotone in `i` |
| `FastLed.Scale8PlainMonotone` | targets/cortex-m0/fastled.h:72 | plain `scale8` is monotone in both arguments |
| `FastLed.Scale8Video` | targets/cortex-m0/fastled.h:187-202 | `scale8_video` is zero iff `i == 0` or `scale == 0`, at least 1 otherwise, at most `i`, and equals plain `scale8` plus one exactly when both inputs are non-zero |
| `FastLed.Scale8VideoNoWrap` | targets/cortex-m0/fastled.h:199 | the widened sum `((i*scale)>>8) + (i&&scale)` is at most `i`, so narrowing it to `uint8_t` never wraps (at most 254 + 1) |
| `FastLed.Scale8VideoLeavingR1Dirty` | targets/cortex-m0/fastled.h:146-152 | the C body of the dirty-register variant computes the same value as `scale8_video` for every input |
| `FastLed.Scale8VideoNearFixed` | targets/cortex-m0/fastled.h:196-199 | `scale8_video` lies between fixed `scale8` and fixed `scale8` + 1 |
| `FastLed.QAdd8` | targets/cortex-m0/fastled.h:248-257 | `qadd8(i,j) == min(i+j, 255)`, and the result is at least each operand |
| `FastLed.QSub8` | targets/cortex-m0/fastled.h:315-324 | `qsub8(i,j) == max(i−j, 0)`, and the result is at most `i` |
| `FastLed.QAdd8Commutative` | targets/cortex-m0/fastled.h:252-257 | `qadd8` is commutative |
| `FastLed.QAdd8Identity` | targets/cortex-m0/fastled.h:252-257 | 0 is a two-sided identity of `qadd8` |
| `FastLed.QSub8Identity` | targets/cortex-m0/fastled.h:319-324 | `qsub8(i,0) == i` and `qsub8(i,i) == 0` |
| `FastLed.QSub8UndoesQAdd8` | targets/cortex-m0/fastled.h:248-324 | `qsub8(qadd8(i,j), j) == i` exactly when `i + j` does not saturate |
| `FastLed.QAdd8AfterQSub8` | targets/cortex-m0/fastled.h:248-324 | `qadd8(qsub8(i,j), j) == max(i, j)` |
| `FastLed.FloorSqrt` | targets/cortex-m0/fastled.h:282-285 | the reference square root satisfies r² ≤ x < (r+1)² |
| `FastLed.FloorSqrtUnique` | targets/cortex-m0/fastled.h:282-313 | any r with r² ≤ x < (r+1)² is the floor square root |
| `FastLed.LinearEstimateAboveRoot` | targets/cortex-m0/fastled.h:297 | x < ((x>>5) + 9)² for every x, so `(x>>5)+8` is at least ⌊√x⌋ |
| `FastLed.InitialHi` | targets/cortex-m0/fastled.h:294-298 | the initial `hi` of `sqrt16`: at or below 7904 it is exactly `(x>>5)+8`, so the `uint8_t` assignment does not wrap |
| `FastLed.InitialHiBracketsRoot` | targets/cortex-m0/fastled.h:294-298 | in both branches the initial `hi` fits a byte without wrapping and satisfies x < (hi+1)² |
| `FastLed.InitialHiAtLeastRoot` | targets/cortex-m0/fastled.h:294-298 | the initial `hi` is at least ⌊√x⌋ in both branches |
| `FastLed.SquareVersusRoot` | targets/cortex-m0/fastled.h:302-308 | a standalone fact about the search's test, not used by the proof of `Sqrt16`: it is exact, `mid*mid <= x` iff `mid <= ⌊√x⌋`, so moving `low` above an accepted `mid` or `hi` below a rejected one never skips the root |
| `FastLed.SquareMonotone` | targets/cortex-m0/fastled.h:302-308 | squaring is monotone on naturals, and a smaller square means a smaller root |
| `FastLed.ByteSquareFits` | targets/cortex-m0/fastled.h:302 | `mid*mid` of a byte fits in 16 bits, so the `(uint16_t)` cast is exact |
| `FastLed.Sqrt16` | targets/cortex-m0/fastled.h:285-313 | `sqrt16(x)` returns r with r² ≤ x < (r+1)², hence `FloorSqrt(x)` by `FloorSqrtUnique`, and returns x for x ≤ 1; the loop keeps 1 ≤ low ≤ hi + 1 and (low−1)² ≤ x < (hi+1)², `hi − low` strictly decreases, `mid` stays ≥ 1 so `hi = mid − 1` cannot wrap, and the `mid == 255` return keeps `low = mid + 1` from wrapping |
| `FastLed.FloorSqrtBoundaries` | targets/cortex-m0/fastled.h:287-298 | the square root of 0, 1, 7904, 7905 and 65535 is 0, 1, 88, 88 and 255 |
| `FastLed.FloorSqrtOfUint16IsByte` | targets/cortex-m0/fastled.h:285 | the floor square root of any 16-bit value is at most 255, so the `uint8_t` result type loses nothing |
| `Color.HsvHue.Hue` | targets/cortex-m0/hsv.h:7-16 | the k-th `HSVHue` constant has value 32·k |
| `Color.HueAt` | targets/cortex-m0/hsv.h:7-16 | each of the eight positions names a constant |
| `Color.HueStrictlyIncreasing` | targets/cortex-m0/hsv.h:7-16 | the constants increase strictly in declaration order |
| `Color.HueDistinct` | targets/cortex-m0/hsv.h:7-16 | two constants have the same value iff they are the same constant |
| `Color.HueValuesAreMultiplesOf32` | targets/cortex-m0/hsv.h:7-16 | a byte is the value of some constant iff it is a multiple of 32 |
| `Color.Hsv.Raw` | targets/cortex-m0/hsv.h:48-53 | the `raw[3]` view of an `hsv_t` holds hue, saturation and value at indices 0, 1 and 2 |
| `Color.HsvFromRaw` | targets/cortex-m0/hsv.h:48-53 | reading three bytes as an `hsv_t` and viewing it as `raw` gives back the same bytes |
| `Color.Hsv.WithRaw` | targets/cortex-m0/hsv.h:48-53 | writing `raw[k]` sets the named channel k and leaves the other two unchanged |
| `Color.HsvViewsAgree` | targets/cortex-m0/hsv.h:24-53 | `hue`/`h` are `raw[0]`, `saturation`/`sat`/`s` are `raw[1]`, `value`/`val`/`v` are `raw[2]` |
| `Color.HsvRawRoundTrip` | targets/cortex-m0/hsv.h:23-55 | `hsv_t` is exactly its three bytes: named → raw → named and raw → named → raw are identities |
| `Color.HsvNamedWriteRawRead` | targets/cortex-m0/hsv.h:23-55 | writing a channel by name changes exactly that index of `raw` |
| `Color.HsvRawWriteNamedRead` | targets/cortex-m0/hsv.h:23-55 | writing `raw[k]` reads back through the alias names and equals the named write |
| `Color.Rgb.Raw` | targets/cortex-m0/hsv.h:73-78 | the `raw[3]` view of an `rgb_t` holds red, green and blue at indices 0, 1 and 2 |
| `Color.RgbFromRaw` | targets/cortex-m0/hsv.h:73-78 | reading three bytes as an `rgb_t` and viewing it as `raw` gives back the same bytes |
| `Color.Rgb.WithRaw` | targets/cortex-m0/hsv.h:73-78 | writing `raw[k]` sets the named channel k and leaves the other two unchanged |
| `Color.RgbViewsAgree` | targets/cortex-m0/hsv.h:58-78 | `r`/`red` are `raw[0]`, `g`/`green` are `raw[1]`, `b`/`blue` are `raw[2]` |
| `Color.RgbRawRoundTrip` | targets/cortex-m0/hsv.h:57-80 | `rgb_t` is exactly its three bytes: named → raw → named and raw → named → raw are identities |
| `Color.RgbNamedWriteRawRead` | targets/cortex-m0/hsv.h:57-80 | writing a channel by name changes exactly that index of `raw` |
| `Color.RgbRawWriteNamedRead` | targets/cortex-m0/hsv.h:57-80 | writing `raw[k]` reads back through the alias names and equals the named write |

## Left out

- The inline-assembly branches of `scale8`, `scale8_video`, `scale8_video_LEAVING_R1_DIRTY`, `qadd8` and `qsub8` (AVR `mul`, the ATtiny shift-add loop, ARM `uqadd8`): foreign machine code; only the plain-C branches are modelled, and R1 register clean-up has no value-level meaning.
- `hsv_from_rgb_approximate`, `hsv_to_rgb_approximate`, `hsv_to_rgb_fast`, `hsv_to_rgb_rainbow`: the header declares them but their bodies are not part of this model, so their round-trip vectors (red, green, light green, yellow, cyan, magenta) are not modelled either.
- The unit-test program and its commented-out tests (older API, floating-point interpolation): not logic.
- Memory layout: `sizeof == 3` is modelled as the two views being interchangeable with a three-element byte sequence, not as a byte count of C storage; the `accumXY` typedefs are commented out in the header and are not modelled; `sfract7`, `fract16` and `sfract15` are range types only, since no modelled operation uses them.
- Compile-time selection between the two `scale8` variants (`FASTLED_SCALE8_FIXED`): both variants are separate functions rather than one switched definition.
