/**
  A registry of named 2D coordinate frames and points. Every stored placement
  is a rigid transform relative to one implicit master frame. The frame table
  and the point table are separate, so a frame and a point may share a name.

  The rigid-transform arithmetic (a 2D isometry over f32 in the crate) is
  not modelled: a placement is a value of the type parameter `T`, and the two
  operators the registry uses, composition `a * b` and "relative to" `a / b`,
  are passed in as the arrow values `mul` and `div`.
 */
module FrameRegistry {

  /** The three ways a registry call can fail. */
  datatype FrameError = AlreadyExists | CouldNotFindFrame | CouldNotFindPoint

  /** The outcome of a registry call: a value, or the error kind. */
  datatype Result<+R> = Ok(value: R) | Err(error: FrameError)

  /** Frame names and point names live in different namespaces. */
  datatype Frame = Frame(name: string)
  datatype Point = Point(name: string)

  /**
    A map lookup that reports `missing` when the key is absent
    (`HashMap::get` followed by `ok_or`).
   */
  function Lookup<K, V>(m: map<K, V>, k: K, missing: FrameError): (r: Result<V>)
    ensures r.Ok? <==> k in m
    ensures r.Ok? ==> r.value == m[k]
    ensures r.Err? ==> r.error == missing
  {
    if k in m then Ok(m[k]) else Err(missing)
  }

  /**
    `HashMap::insert` followed by `map_or_else`: the new value is stored
    whether or not the key was present, and a previous value turns the
    outcome into `AlreadyExists`.
   */
  function Insert<K, V>(m: map<K, V>, k: K, v: V): (r: (Result<()>, map<K, V>))
    ensures r.0 == Ok(()) <==> k !in m
    ensures r.0.Err? ==> r.0.error == AlreadyExists
    ensures r.1.Keys == m.Keys + {k}
    ensures r.1[k] == v
    ensures forall j :: j in m && j != k ==> r.1[j] == m[j]
  {
    (if k in m then Err(AlreadyExists) else Ok(()), m[k := v])
  }

  /**
    The value of a registry: its frame table and its point table. The member
    functions are the registry's operations on values; `class Frames` below
    performs the same operations in place.
   */
  datatype Tables<T> = Tables(frames: map<Frame, T>, points: map<Point, T>) {

    /** The registry `new` creates. */
    static function Empty(): (t: Tables<T>)
      ensures forall f :: t.GetFrame(f) == Err(CouldNotFindFrame)
      ensures forall p :: t.GetPoint(p) == Err(CouldNotFindPoint)
    {
      Tables(map[], map[])
    }

    /** The master-relative placement of frame `f`. */
    function GetFrame(f: Frame): (r: Result<T>)
      ensures r.Ok? <==> f in frames
      ensures r.Ok? ==> r.value == frames[f]
      ensures r.Err? ==> r.error == CouldNotFindFrame
    {
      Lookup(frames, f, CouldNotFindFrame)
    }

    /** The master-relative placement of point `p`. */
    function GetPoint(p: Point): (r: Result<T>)
      ensures r.Ok? <==> p in points
      ensures r.Ok? ==> r.value == points[p]
      ensures r.Err? ==> r.error == CouldNotFindPoint
    {
      Lookup(points, p, CouldNotFindPoint)
    }

    /**
      Registers frame `f` at master-relative placement `c`. The placement is
      stored even when `f` is already a frame; the outcome then reports
      `AlreadyExists`.
     */
    function AddFrame(f: Frame, c: T): (out: (Result<()>, Tables<T>))
      ensures out.0 == Ok(()) <==> GetFrame(f).Err?
      ensures out.0.Err? ==> out.0.error == AlreadyExists
      ensures out.1.GetFrame(f) == Ok(c)
      ensures forall g :: g != f ==> out.1.GetFrame(g) == GetFrame(g)
      ensures out.1.points == points
    {
      var (r, frames') := Insert(frames, f, c);
      (r, Tables(frames', points))
    }

    /**
      Registers point `p` at master-relative placement `c`, with the same
      overwrite-then-report behaviour as `AddFrame`.
     */
    function AddPoint(p: Point, c: T): (out: (Result<()>, Tables<T>))
      ensures out.0 == Ok(()) <==> GetPoint(p).Err?
      ensures out.0.Err? ==> out.0.error == AlreadyExists
      ensures out.1.GetPoint(p) == Ok(c)
      ensures forall q :: q != p ==> out.1.GetPoint(q) == GetPoint(q)
      ensures out.1.frames == frames
    {
      var (r, points') := Insert(points, p, c);
      (r, Tables(frames, points'))
    }

    /**
      Registers point `p` given by `c` relative to frame `f`; the stored
      placement is `c * placement(f)`. A missing frame is reported before the
      point table is looked at, and then nothing changes.
     */
    function AddPointInContext(p: Point, c: T, f: Frame, mul: (T, T) -> T): (out: (Result<()>, Tables<T>))
      ensures f !in frames ==> out == (Err(CouldNotFindFrame), this)
      ensures f in frames ==> out == AddPoint(p, mul(c, frames[f]))
      ensures out.0 == Ok(()) <==> f in frames && p !in points
      ensures out.0.Err? ==> out.0.error == if f in frames then AlreadyExists else CouldNotFindFrame
      ensures out.1.frames == frames
    {
      match GetFrame(f)
      case Err(e) => (Err(e), this)
      case Ok(placement) =>
        var (r, points') := Insert(points, p, mul(c, placement));
        (r, Tables(frames, points'))
    }

    /**
      The placement of point `p` relative to frame `f`, `placement(p) /
      placement(f)`. The frame is checked first.
     */
    function GetPointInContext(p: Point, f: Frame, div: (T, T) -> T): (r: Result<T>)
      ensures f !in frames ==> r == Err(CouldNotFindFrame)
      ensures f in frames && p !in points ==> r == Err(CouldNotFindPoint)
      ensures f in frames && p in points ==> r == Ok(div(points[p], frames[f]))
    {
      match GetFrame(f)
      case Err(e) => Err(e)
      case Ok(offset) =>
        match GetPoint(p)
        case Err(e) => Err(e)
        case Ok(x) => Ok(div(x, offset))
    }
  }

  /** The registry as the program holds it: two tables updated in place. */
  class Frames<T> {
    var frames: map<Frame, T>
    var points: map<Point, T>

    /** The value of both tables in the current state. */
    ghost function Contents(): Tables<T>
      reads this
    {
      Tables(frames, points)
    }

    constructor ()
      ensures Contents() == Tables.Empty()
    {
      frames := map[];
      points := map[];
    }

    method AddFrame(f: Frame, c: T) returns (r: Result<()>)
      modifies this
      ensures (r, Contents()) == old(Contents()).AddFrame(f, c)
    {
      r := if f in frames then Err(AlreadyExists) else Ok(());
      frames := frames[f := c];
    }

    method AddPoint(p: Point, c: T) returns (r: Result<()>)
      modifies this
      ensures (r, Contents()) == old(Contents()).AddPoint(p, c)
    {
      r := if p in points then Err(AlreadyExists) else Ok(());
      points := points[p := c];
    }

    method AddPointInContext(p: Point, c: T, f: Frame, mul: (T, T) -> T) returns (r: Result<()>)
      modifies this
      ensures (r, Contents()) == old(Contents()).AddPointInContext(p, c, f, mul)
    {
      var placement := GetFrame(f);
      if placement.Err? {
        return Err(placement.error);
      }
      r := if p in points then Err(AlreadyExists) else Ok(());
      points := points[p := mul(c, placement.value)];
    }

    method GetFrame(f: Frame) returns (r: Result<T>)
      ensures r == Contents().GetFrame(f)
    {
      r := Lookup(frames, f, CouldNotFindFrame);
    }

    method GetPoint(p: Point) returns (r: Result<T>)
      ensures r == Contents().GetPoint(p)
    {
      r := Lookup(points, p, CouldNotFindPoint);
    }

    /** Takes no `modifies` clause: the query leaves both tables as they are. */
    method GetPointInContext(p: Point, f: Frame, div: (T, T) -> T) returns (r: Result<T>)
      ensures r == Contents().GetPointInContext(p, f, div)
    {
      var offset := GetFrame(f);
      if offset.Err? {
        return Err(offset.error);
      }
      var x := GetPoint(p);
      r := if x.Ok? then Ok(div(x.value, offset.value)) else Err(x.error);
    }
  }
}
