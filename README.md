# Bouncing balls: the discrete bookkeeping

Two pygame scripts animate balls inside a circle.

- **alt.py** keeps a list `balls`. Each frame it walks a copy of the list. A ball that touches the image circling the screen is counted in `collision_counter` and removed. If fewer than `MAX_BALLS` (1000) balls remain, two new balls are appended at the centre. Their velocity components are drawn uniformly from `[-7, 7]`.
- **main.py** has a single ball. Each time the ball would leave the boundary circle, the script moves it back to where the frame started, grows its radius by one and reflects its velocity. A halo around the ball cycles its hue up and down between 0 and 360.

This project models those state changes and proves what they keep.

- `wrappers.dfy`: `Option`, used for operations that can fail.
- `vectors.dfy`: two-dimensional vectors on exact reals.
- `pylist.dfy`:
  - Python's `list.remove` as `PyList.Remove`, where `None` is the `ValueError` raised when the element is absent;
  - `PyList.Distinct`, the predicate "no element is listed twice".
- `alt_scene.dfy`: the alt.py frame, over class instances. Python compares objects by identity in `list.remove`, so a ball is a class reference and the list is a `seq<Ball>` field of the `Scene` class.
  - `Scene.Frame` runs the `for ball in balls[:]` loop over a snapshot of the list.
  - `hits[i]` says whether snapshot ball `i` touches the image.
  - If it spawns, `draws[2 * i]` and `draws[2 * i + 1]` are the two velocities drawn for it.
  - The result is stated against `Count`, `Survivors` and `SizeAfterCollisions`, and lemmas about those give:
    - the counter counts collisions exactly;
    - the survivors keep their order;
    - `remove` never raises;
    - the list is never empty and never longer than `MAX_BALLS + 1`;
    - the closed form of the list size.
- `main_scene.dfy`: `Ball.update` of main.py and the hue oscillator.
  - `Ball.Update` is proved against the value-level `UpdateState`.
  - The lemmas show:
    - the radius grows by exactly one per bounce;
    - `prevPos` is the start of the last move;
    - the squared boundary test matches the distance test as long as the radius fits inside the circle.
  - `RunHue` is the hue part of the main loop, proved against `HueAfter`. The lemmas show:
    - the hue keeps a range invariant;
    - it follows a triangle wave of period 720 frames;
    - it turns at exactly 360 and 0.

Two behaviours of the code are easy to misread.

- The hue reaches 360, not just 359. main.py increments `h` first and tests `h >= 360` afterwards, so the next frame gives 360 to the `hsla` setter (`HueExtremes`, `HueTurns`). The starting hue is that of `Color(211, 12, 211)`, which is 300, not 0.
- The squared collision test `d² > (350 − r)²` equals `d + r > 350` only while `r ≤ 350`. For a larger radius a ball near the centre sticks out of the circle yet does not collide (`CollidesIffOutside`, `OversizedBallMissesCollision`).

## Model

| member | source | states |
|---|---|---|
| AltScene.Ball.constructor | alt.py:45-48 | a new ball has the given position and velocity and the default radius `BALL_RADIUS` (15) |
| AltScene.Scene.constructor | alt.py:84-85 | the initial state: one fresh ball at `center`, velocity `(7, -7)`, radius 15, the counter at 0, and the list invariant holds |
| AltScene.Scene.SpawnTwo | alt.py:119-123 | appends exactly two fresh balls at `center`, with the given velocities and radius 15, keeping every ball listed once; the counter is unchanged |
| AltScene.Scene.Collide | alt.py:112-123 | counts one collision; `remove` succeeds and yields the new list; two balls are appended exactly when fewer than `MAX_BALLS` remain, otherwise none; each new ball is fresh, at `center` and has a velocity in range |
| AltScene.Scene.Visit | alt.py:108-123 | one iteration keeps the pass invariant: a colliding ball leaves the list and bumps the counter; a ball that does not collide joins the survivors and changes nothing else |
| AltScene.Scene.Frame | alt.py:108-123 | after a pass over the snapshot the counter has grown by the number of collisions; the list is the non-colliding snapshot balls in their old order, followed by the spawned balls, each fresh and spawned at `center` with a velocity in range; the size is `SizeAfterCollisions` of the old size; the list invariant still holds |
| AltScene.Count | alt.py:112-113 | the number of collisions among the first `n` balls is at most `n` |
| AltScene.Survivors | alt.py:108-115 | the survivors of the first `n` balls number `n` minus the collisions |
| AltScene.SurvivorsMembership | alt.py:108-115 | in a list without repetitions, a snapshot ball survives the pass exactly when it did not collide, and every survivor comes from the snapshot |
| AltScene.SizeAfterCollision | alt.py:115-123 | one collision changes the size by exactly +1 or −1, and by +1 exactly when the size was at most `MAX_BALLS` |
| AltScene.SizeAfterCollisions | alt.py:115-123 | the list is never empty, however many collisions happen |
| AltScene.GrowthBounded | alt.py:84-123 | from any size in `[1, MAX_BALLS + 1]`, the size stays in that range after any number of collisions |
| AltScene.SizeAfterCollisionsClosedForm | alt.py:115-123 | the size after `k` collisions from `n` is `n + k` up to `MAX_BALLS + 1`, and past that alternates between 1001 and 1000 by the parity of the excess |
| AltScene.NextIsPresent | alt.py:108-115 | the snapshot ball being visited is still in the list, so `remove` does not raise and takes out exactly that ball |
| AltScene.AfterCollide | alt.py:112-123 | after a collision the pass invariant holds for the next ball, with one more collision and the new balls appended to the spawned ones |
| AltScene.AfterMiss | alt.py:108-112 | a ball that does not collide joins the survivors and the pass invariant holds for the next ball |
| AltScene.PassDone | alt.py:108-123 | at the end of the pass, the list is the survivors followed by the spawned balls, with at least 1 and at most 1001 elements, each listed once |
| PyList.Remove | alt.py:115 | `remove` fails exactly when the element is absent, and otherwise shortens the list by one |
| PyList.RemoveFirstOccurrence | alt.py:115 | `remove` takes out the first occurrence and keeps everything else in order |
| PyList.RemoveMultiset | alt.py:115 | `remove` takes away exactly one copy of the element |
| PyList.RemoveDistinct | alt.py:115 | in a list without repetitions, removing the element at `i` leaves the rest in order, without repetitions and without that element |
| MainScene.UpdateState | main.py:48-73 | `prevPos` is the position before the move; on a collision the radius grows by exactly 1, the position returns to `prevPos` and the velocity is the reflection of the accelerated velocity; otherwise the ball moves by its velocity, gravity is added to the velocity and the radius is unchanged |
| MainScene.Ball.Update | main.py:48-73 | the new fields are `UpdateState` of the old ones, and `bounced` is exactly the collision test on the moved position |
| MainScene.Ball.constructor | main.py:40-46 | position `(x, y)`, velocity `(-7, -7)`, gravity `(0, 0.32)`, `prevPos` equal to the position |
| MainScene.CreateBall | main.py:84 | the ball starts at the centre with radius 30 |
| MainScene.UpdatesAfter | main.py:45-53 | gravity never changes across updates |
| MainScene.Bounces | main.py:55-58 | at most one bounce per update |
| MainScene.RadiusCountsBounces | main.py:55-58 | after `n` updates the radius is the initial radius plus the number of bounces, so it never decreases and grows by at most `n` |
| MainScene.PrevPosIsLastStart | main.py:49-61 | after an update `prevPos` is where that update started, and the ball is either back there or one velocity step on |
| MainScene.CollidesIffOutside | main.py:78-81 | for a radius of at most 350, `check_collision` holds exactly when the distance from the centre plus the radius exceeds 350 |
| MainScene.OversizedBallMissesCollision | main.py:78-81 | for any radius over 350, every position within `r - 350` of the centre sticks out of the circle, yet the test reports no collision |
| MainScene.HueStepKeepsInv | main.py:121-125 | a frame changes `h` by exactly `color_direction`; the direction becomes −1 at 360 or more, +1 at 0 or less, and otherwise stays; the range invariant is kept |
| MainScene.HueInvAfter | main.py:120-125 | from a state in the invariant, `h` stays in `[0, 360]`, the direction stays ±1, `h = 360` implies direction −1, and `h = 0` implies direction +1 |
| MainScene.Triangle | main.py:120-125 | every phase of the reference triangle wave satisfies the hue invariant |
| MainScene.TriangleStep | main.py:121-125 | one frame advances the triangle wave by one phase, wrapping from 719 to 0 |
| MainScene.HueIsTriangle | main.py:87-89 | from a hue `h0` below 360 going up, the state after `n` frames is the triangle wave at phase `(h0 + n) mod 720` |
| MainScene.HuePeriodic | main.py:120-125 | the hue state repeats every 720 frames |
| MainScene.HueExtremes | main.py:120-125 | `h` is 360 exactly at phase 360 and 0 exactly at phase 0 |
| MainScene.HueTurns | main.py:121-125 | the hue reaches 360 and turns down after `360 - h0` frames, then reaches 0 and turns up after `720 - h0` |
| MainScene.RunHue | main.py:120-125 | frame `k` gives the setter the hue of `HueAfter` at `k`, always within `[0, 360]`; the state left afterwards is `HueAfter` at `frames` |

## Left out

- Window setup, drawing, display flips, fonts, the frame clock and event polling (alt.py:5-35, alt.py:87-105, alt.py:125-133; main.py:14-37, main.py:75-76, main.py:103-117, main.py:127-134). These are library calls with no state the model needs.
- Sound and music (alt.py:28-29, alt.py:114; main.py:19-32, main.py:57, main.py:91-99) are fire-and-forget library calls. The `bounced` result of `MainScene.Ball.Update` marks where main.py plays its sound.
- `Ball.update` of alt.py (alt.py:50-73), `calculate_position_on_circle` and the moving angle are left out. They are floating-point physics with `sqrt`, `sin` and `cos`. The model never moves an alt.py ball: positions and velocities are only stored.
- `get_rect().colliderect(image_rect)` (alt.py:78-79, alt.py:112) is pygame rectangle arithmetic with integer truncation. The model takes its outcome as the input `hits`, one boolean per snapshot ball.
- `random.uniform` (alt.py:121) becomes the input `draws`, constrained to `[-7, 7]` per component. Ball `i` would use `draws[2 * i]` and `draws[2 * i + 1]`. Draws for balls that do not spawn are ignored.
- The reflection in main.py (main.py:63-73: `length`, `atan2`, `cos`, `sin`) is the function parameter `reflect`. It is applied to the restored position and to the velocity after gravity, the same values the code uses. Speed conservation is not modelled.
- `MainScene.UpdateState`: computes on exact reals. `Vector2` arithmetic rounds to floating point, so the model does not capture rounding effects on the collision test.
- `main.py:61` makes `position` and `prevPos` the same `Vector2` object after a bounce. This sharing has no effect, because the next update copies the position before moving it in place. The model uses values.
- `MainScene.RunHue`: `h` is an integer, and the starting hue `h0` is a parameter in `[0, 360)`, the range pygame's `hsla` getter returns; it is 300 for `Color(211, 12, 211)`. pygame keeps the hue as a float, and the saturation, lightness and the resulting RGB colour are not modelled. The main loop runs until the window closes, so the model runs a given number of frames.
- Ball colours are only drawn and are not modelled.
