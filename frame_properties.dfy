/**
  Properties of the frame registry that relate several calls: what a
  duplicate registration leaves behind, the round trip between registering a
  point in a frame and querying it in that frame, and what any sequence of
  registrations does to the two tables.
 */
module FrameProperties {
  import opened FrameRegistry

  datatype Option<T> = None | Some(value: T)

  /** `(a * b) / b == a`: the algebraic law of exact rigid transforms behind the round trip. */
  ghost predicate RelativeUndoesCompose<T(!new)>(mul: (T, T) -> T, div: (T, T) -> T) {
    forall a, b :: div(mul(a, b), b) == a
  }

  /** `(a / b) * b == a`: expressing `a` relative to `b` and placing it back in `b` gives `a`. */
  ghost predicate ComposeUndoesRelative<T(!new)>(mul: (T, T) -> T, div: (T, T) -> T) {
    forall a, b :: mul(div(a, b), b) == a
  }

  /**
    A second registration of the same frame name reports `AlreadyExists`,
    yet the frame then has the SECOND placement: the insert has already
    replaced the first one.
   */
  lemma DuplicateFrameOverwrites<T>(t: Tables<T>, f: Frame, a: T, b: T)
    ensures var t1 := t.AddFrame(f, a).1;
      && t1.AddFrame(f, b).0 == Err(AlreadyExists)
      && t1.AddFrame(f, b).1.GetFrame(f) == Ok(b)
      && (a != b ==> t1.AddFrame(f, b).1 != t1)
  {
  }

  /** The point table behaves the same way on a duplicate name. */
  lemma DuplicatePointOverwrites<T>(t: Tables<T>, p: Point, a: T, b: T)
    ensures var t1 := t.AddPoint(p, a).1;
      && t1.AddPoint(p, b).0 == Err(AlreadyExists)
      && t1.AddPoint(p, b).1.GetPoint(p) == Ok(b)
      && (a != b ==> t1.AddPoint(p, b).1 != t1)
  {
  }

  /** A name that is neither a frame nor a point can be registered as both. */
  lemma NamespacesIndependent<T>(t: Tables<T>, name: string, a: T, b: T)
    requires Frame(name) !in t.frames && Point(name) !in t.points
    ensures var (r1, t1) := t.AddFrame(Frame(name), a);
      var (r2, t2) := t1.AddPoint(Point(name), b);
      && r1 == Ok(()) && r2 == Ok(())
      && t2.GetFrame(Frame(name)) == Ok(a) && t2.GetPoint(Point(name)) == Ok(b)
  {
  }

  /**
    Registering a point relative to a frame and querying it relative to the
    same frame gives back the local placement, whether or not the name was
    already a point.
   */
  lemma ContextRoundTrip<T(!new)>(t: Tables<T>, p: Point, c: T, f: Frame, mul: (T, T) -> T, div: (T, T) -> T)
    requires RelativeUndoesCompose(mul, div)
    requires f in t.frames
    ensures t.AddPointInContext(p, c, f, mul).1.GetPointInContext(p, f, div) == Ok(c)
  {
  }

  /**
    Querying a point relative to a frame and registering the answer under any
    point name `q` relative to that frame stores the original master placement
    under `q`, whether or not `q` was already a point.
   */
  lemma QueryThenRegisterRoundTrip<T(!new)>(t: Tables<T>, p: Point, q: Point, f: Frame, mul: (T, T) -> T, div: (T, T) -> T)
    requires ComposeUndoesRelative(mul, div)
    requires t.GetPointInContext(p, f, div).Ok?
    ensures t.AddPointInContext(q, t.GetPointInContext(p, f, div).value, f, mul).1.GetPoint(q) == t.GetPoint(p)
  {
  }

  /** One registration call a client can make; the queries change nothing. */
  datatype Call<T> =
    | RegisterFrame(frame: Frame, placement: T)
    | RegisterPoint(point: Point, placement: T)
    | RegisterPointInContext(point: Point, local: T, context: Frame)

  /** The tables after one call, whatever its outcome. */
  function Step<T>(t: Tables<T>, call: Call<T>, mul: (T, T) -> T): Tables<T> {
    match call
    case RegisterFrame(f, c) => t.AddFrame(f, c).1
    case RegisterPoint(p, c) => t.AddPoint(p, c).1
    case RegisterPointInContext(p, c, f) => t.AddPointInContext(p, c, f, mul).1
  }

  /** The tables after a sequence of calls, made in order. */
  function Run<T>(t: Tables<T>, calls: seq<Call<T>>, mul: (T, T) -> T): Tables<T>
    decreases |calls|
  {
    if calls == [] then t else Run(Step(t, calls[0], mul), calls[1..], mul)
  }

  /** The placement given by the last `RegisterFrame` of `f` in `calls`, if any. */
  function LastFrameWrite<T>(calls: seq<Call<T>>, f: Frame): Option<T>
    decreases |calls|
  {
    if calls == [] then None
    else match LastFrameWrite(calls[1..], f)
      case Some(c) => Some(c)
      case None => if calls[0].RegisterFrame? && calls[0].frame == f then Some(calls[0].placement) else None
  }

  /**
    After any sequence of calls, a frame holds the placement of its LAST
    registration (not its first, as a rejecting registry would keep), and a
    frame that was not registered keeps its earlier state.
   */
  lemma {:induction false} FrameIsLastWrite<T>(t: Tables<T>, calls: seq<Call<T>>, mul: (T, T) -> T, f: Frame)
    ensures Run(t, calls, mul).GetFrame(f) ==
      match LastFrameWrite(calls, f)
      case Some(c) => Ok(c)
      case None => t.GetFrame(f)
    decreases |calls|
  {
    if calls != [] {
      FrameIsLastWrite(Step(t, calls[0], mul), calls[1..], mul, f);
    }
  }

  /** `f` has a last registration in `calls` exactly when some call registers `f`. */
  lemma {:induction false} LastFrameWriteExists<T>(calls: seq<Call<T>>, f: Frame)
    ensures LastFrameWrite(calls, f).Some? <==>
      exists i :: 0 <= i < |calls| && calls[i].RegisterFrame? && calls[i].frame == f
    decreases |calls|
  {
    if calls != [] {
      LastFrameWriteExists(calls[1..], f);
      assert forall i :: 0 < i < |calls| ==> calls[i] == calls[1..][i - 1];
    }
  }

  /** Starting from an empty registry, the frames are exactly the names some call registered. */
  lemma FramesAreTheRegisteredNames<T>(calls: seq<Call<T>>, mul: (T, T) -> T, f: Frame)
    ensures f in Run(Tables<T>.Empty(), calls, mul).frames <==>
      exists i :: 0 <= i < |calls| && calls[i].RegisterFrame? && calls[i].frame == f
  {
    FrameIsLastWrite(Tables<T>.Empty(), calls, mul, f);
    LastFrameWriteExists(calls, f);
  }

  /** Names are never removed from either table, whatever the calls and their outcomes. */
  lemma {:induction false} KeysNeverShrink<T>(t: Tables<T>, calls: seq<Call<T>>, mul: (T, T) -> T)
    ensures t.frames.Keys <= Run(t, calls, mul).frames.Keys
    ensures t.points.Keys <= Run(t, calls, mul).points.Keys
    decreases |calls|
  {
    if calls != [] {
      KeysNeverShrink(Step(t, calls[0], mul), calls[1..], mul);
    }
  }
}
