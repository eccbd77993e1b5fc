# Frame registry

A Dafny model of the `Frames` registry of the `frames` crate. The registry
names rigid 2D coordinate frames and points. It stores each one's placement
relative to a single implicit master frame, in two independent tables: one
for frames and one for points. A point can be registered directly in master
coordinates, or relative to a registered frame. In the second case its local
placement is composed with the frame's placement. A point can be queried
relative to any registered frame. Failures are reported as one of three
error kinds: `AlreadyExists`, `CouldNotFindFrame` and `CouldNotFindPoint`.

Layout:

- `frame.dfy`, module `FrameRegistry`:
  - the error kinds, the `Result` type and the `Frame`/`Point` name types;
  - `Tables<T>`, the value of a registry, whose member functions give each operation's outcome and new tables;
  - `class Frames<T>`, the registry as the program holds it: two `map` fields updated in place by `modifies this` methods, each proved equal to the matching `Tables` function.
- `frame_properties.dfy`, module `FrameProperties`: lemmas that relate several calls.
  - What a duplicate registration leaves behind.
  - The two round trips between registering a point in a frame and querying it in that frame.
  - What any sequence of registrations does to the tables (`Run` over a list of `Call`s).

A placement (a 2D isometry over `f32` in the crate) is a value of the type
parameter `T`. The two operators the registry applies to placements are
parameters: composition `c * placement(f)` is `mul`, and "relative to"
`placement(p) / placement(f)` is `div`. The round-trip lemmas state the
algebraic law they rely on as an explicit hypothesis
(`RelativeUndoesCompose`, `ComposeUndoesRelative`).

Behaviour on a duplicate name follows the code. The crate uses
`HashMap::insert`, which stores the new value and returns the old one. The
old value is then turned into `AlreadyExists`. So a duplicate
registration is reported as an error, but the table already holds the new
placement. A caller reading the error name might expect the first value to
be kept; the code overwrites it, and this model does the same.
`DuplicateFrameOverwrites`, `DuplicatePointOverwrites` and
`FrameIsLastWrite` prove what the code actually does.

## Model

| member | source | states |
|---|---|---|
| `FrameRegistry.Lookup` | crates/frames/src/frame.rs:44-56 | a lookup succeeds exactly when the key is present, yields the stored value, and otherwise yields the given "not found" error |
| `FrameRegistry.Insert` | crates/frames/src/frame.rs:20-22 | an insert reports `Ok` exactly when the key was absent and `AlreadyExists` otherwise; in both cases the key now maps to the new value, the key set gains only that key, and every other entry is kept |
| `FrameRegistry.Tables.Empty` | crates/frames/src/frame.rs:12-17 | a new registry has no frames and no points: every frame lookup fails with `CouldNotFindFrame` and every point lookup with `CouldNotFindPoint` |
| `FrameRegistry.Tables.GetFrame` | crates/frames/src/frame.rs:44-49 | returns the stored placement exactly when the frame is registered, otherwise `CouldNotFindFrame` |
| `FrameRegistry.Tables.GetPoint` | crates/frames/src/frame.rs:51-56 | returns the stored placement exactly when the point is registered, otherwise `CouldNotFindPoint` |
| `FrameRegistry.Tables.AddFrame` | crates/frames/src/frame.rs:19-23 | `Ok` exactly when the frame was not registered, else `AlreadyExists`; afterwards the frame maps to the new placement in every case, every other frame keeps its lookup result, and the point table is unchanged |
| `FrameRegistry.Tables.AddPoint` | crates/frames/src/frame.rs:25-30 | the same for the point table: `Ok` exactly when the point was absent, else `AlreadyExists`; the point maps to the new placement, other points are kept, and the frame table is unchanged |
| `FrameRegistry.Tables.AddPointInContext` | crates/frames/src/frame.rs:32-42 | an unregistered frame gives `CouldNotFindFrame` and leaves both tables unchanged, even when the point exists; otherwise it behaves as `AddPoint` of `local * placement(frame)`; `Ok` exactly when the frame exists and the point does not; the frame table never changes |
| `FrameRegistry.Tables.GetPointInContext` | crates/frames/src/frame.rs:58-65 | the frame is checked first (`CouldNotFindFrame`), then the point (`CouldNotFindPoint`); otherwise the result is `placement(point) / placement(frame)` |
| `FrameRegistry.Frames.constructor` | crates/frames/src/frame.rs:12-17 | a new registry object holds two empty tables |
| `FrameRegistry.Frames.AddFrame` | crates/frames/src/frame.rs:19-23 | updates the frame table in place; the result and the new tables are those of `Tables.AddFrame` on the old tables |
| `FrameRegistry.Frames.AddPoint` | crates/frames/src/frame.rs:25-30 | updates the point table in place; the result and the new tables are those of `Tables.AddPoint` on the old tables |
| `FrameRegistry.Frames.AddPointInContext` | crates/frames/src/frame.rs:32-42 | returns early on a missing frame, before touching the point table; the result and the new tables are those of `Tables.AddPointInContext` |
| `FrameRegistry.Frames.GetFrame` | crates/frames/src/frame.rs:44-49 | modifies nothing and returns what `Tables.GetFrame` gives for the current tables |
| `FrameRegistry.Frames.GetPoint` | crates/frames/src/frame.rs:51-56 | modifies nothing and returns what `Tables.GetPoint` gives for the current tables |
| `FrameRegistry.Frames.GetPointInContext` | crates/frames/src/frame.rs:58-65 | modifies nothing, although the crate takes `&mut self`, and returns what `Tables.GetPointInContext` gives for the current tables |
| `FrameProperties.DuplicateFrameOverwrites` | crates/frames/src/frame.rs:19-23 | registering a frame name twice reports `AlreadyExists` the second time, yet the frame then holds the second placement, so the tables differ from before the failed call |
| `FrameProperties.DuplicatePointOverwrites` | crates/frames/src/frame.rs:25-30 | the same overwrite-then-report behaviour for the point table |
| `FrameProperties.NamespacesIndependent` | crates/frames/src/frame.rs:6-9 | when a name is neither a frame nor a point yet, it can be registered as both, both calls succeed, and each lookup returns its own placement |
| `FrameProperties.ContextRoundTrip` | crates/frames/src/frame.rs:33-65 | if `(a * b) / b == a`, registering a point relative to a registered frame and then querying it relative to that frame returns the local placement |
| `FrameProperties.QueryThenRegisterRoundTrip` | crates/frames/src/frame.rs:33-65 | if `(a / b) * b == a`, registering the answer of a successful in-frame query, relative to the same frame, stores the point's original master placement |
| `FrameProperties.FrameIsLastWrite` | crates/frames/src/frame.rs:19-42 | after any sequence of registrations, a frame holds the placement of its last registration; a frame never registered in the sequence keeps its earlier lookup result, so point registrations never touch frames |
| `FrameProperties.LastFrameWriteExists` | crates/frames/src/frame.rs:19-23 | a frame has a last registration in a call sequence exactly when some call in it registers that frame |
| `FrameProperties.FramesAreTheRegisteredNames` | crates/frames/src/frame.rs:12-23 | starting from a new registry, the registered frames are exactly the names that some call registered |
| `FrameProperties.KeysNeverShrink` | crates/frames/src/frame.rs:19-42 | no sequence of registrations, successful or failed, removes a name from either table |

## Left out

- The isometry arithmetic is left out: construction from a translation and an angle, `*` and `/`. It is floating-point code from an external geometry library. Placements are an opaque type `T`, and `*`/`/` are parameters with no properties except the laws that the round-trip lemmas assume.
- The two round-trip lemmas hold only under an exact algebraic law. With `f32` the crate gets the local placement back only up to rounding.
- The unit test's numeric scenario (frames `field` and `robot`, point `x`) is left out. It depends on `f32` trigonometry and exact float equality.
- Names are plain strings wrapped as `Frame` or `Point`. The borrowed `&str` names and their lifetimes are not modelled.
- `HashMap` hashing is not modelled. Each table is a Dafny `map`.
- The `Debug`/`Default` derives and the error message texts are not modelled. They only affect presentation.
- Concurrency is not modelled: the registry is single-threaded.
