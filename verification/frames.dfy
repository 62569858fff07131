/**
 * Trajectories. A species' atoms carry one position per atom and per frame;
 * `set_frames` stores frames 1..n-1 as shape keys whose `value` is keyed so
 * that at scene frame `frame_start + i` the key of frame i is fully on. The
 * constructors turn the positions argument into the frame stack and the
 * positions of frame 0.
 */
module Frames {
  import opened Wrappers
  import opened Geometry

  /** One position per atom. */
  type Positions = seq<Vec3>

  /** One keyframe of a shape key's `value`: the scene frame and the weight there. */
  datatype Keypoint = Keypoint(time: int, value: real)

  /** The shape key named after trajectory frame `frame`, its coordinates and its keyframes. */
  datatype ShapeKey = ShapeKey(frame: nat, coords: Positions, points: seq<Keypoint>)

  /** What one `set_frames` call adds to the mesh: possibly the basis key, then the frame keys. */
  datatype Schedule = Schedule(basis: bool, keys: seq<ShapeKey>)

  /**
   * The keyframes of the key of frame i out of nframe: a triangle 0, 1, 0 on
   * the three scene frames around `start + i`, cut to 0, 1 for the last frame.
   */
  function Window(start: int, i: int, nframe: int): (w: seq<Keypoint>)
    ensures |w| == if i == nframe - 1 then 2 else 3
    ensures w[1] == Keypoint(start + i, 1.0)
    ensures w[0] == Keypoint(start + i - 1, 0.0)
    ensures |w| == 3 ==> w[2] == Keypoint(start + i + 1, 0.0)
  {
    if i != nframe - 1 then
      [Keypoint(start + i - 1, 0.0), Keypoint(start + i, 1.0), Keypoint(start + i + 1, 0.0)]
    else
      [Keypoint(start + i - 1, 0.0), Keypoint(start + i, 1.0)]
  }

  /** The weight keyed at scene frame t, taken from the first keyframe there. */
  function ValueAt(points: seq<Keypoint>, t: int): (v: Option<real>)
    ensures v.None? <==> forall k :: 0 <= k < |points| ==> points[k].time != t
    ensures v.Some? ==> exists k :: 0 <= k < |points| && points[k] == Keypoint(t, v.value)
  {
    if |points| == 0 then None
    else if points[0].time == t then Some(points[0].value)
    else
      var rest := ValueAt(points[1..], t);
      assert forall k :: 1 <= k < |points| ==> points[k] == points[1..][k - 1];
      rest
  }

  /**
   * The loop of `set_frames` from frame i on: each frame is reshaped to the
   * vertex count, which fails on the first frame of another length.
   */
  function KeysFrom(frames: seq<Positions>, start: int, nvert: nat, i: nat): (r: Result<seq<ShapeKey>>)
    requires 1 <= i <= |frames|
    ensures r.Err? <==> exists f :: i <= f < |frames| && |frames[f]| != nvert
    ensures r.Err? ==> r.error == LengthMismatch
    ensures r.Ok? ==> |r.value| == |frames| - i
    ensures r.Ok? ==> forall j :: 0 <= j < |r.value| ==>
      && r.value[j].frame == i + j
      && r.value[j].coords == frames[i + j]
      && r.value[j].points == Window(start, i + j, |frames|)
    decreases |frames| - i
  {
    if i == |frames| then Ok([])
    else if |frames[i]| != nvert then Err(LengthMismatch)
    else
      var rest :- KeysFrom(frames, start, nvert, i + 1);
      Ok([ShapeKey(i, frames[i], Window(start, i, |frames|))] + rest)
  }

  /**
   * `set_frames(frames, frame_start, only_basis)` on a mesh of nvert vertices:
   * no frames adds nothing; otherwise the basis key is ensured, and unless
   * only the basis is wanted frames 1..n-1 each get one keyed shape key.
   */
  function SetFrames(frames: seq<Positions>, start: int, onlyBasis: bool, nvert: nat): (r: Result<Schedule>)
    ensures |frames| == 0 ==> r == Ok(Schedule(false, []))
    ensures |frames| > 0 && onlyBasis ==> r == Ok(Schedule(true, []))
    ensures r.Err? <==> |frames| > 0 && !onlyBasis && exists f :: 1 <= f < |frames| && |frames[f]| != nvert
    ensures r.Err? ==> r.error == LengthMismatch
    ensures r.Ok? && |frames| > 0 ==> r.value.basis
    ensures r.Ok? && |frames| > 0 && !onlyBasis ==>
      && |r.value.keys| == |frames| - 1
      && forall j :: 0 <= j < |r.value.keys| ==>
        r.value.keys[j].frame == j + 1 && r.value.keys[j].coords == frames[j + 1]
  {
    if |frames| == 0 then Ok(Schedule(false, []))
    else if onlyBasis then Ok(Schedule(true, []))
    else
      var keys :- KeysFrom(frames, start, nvert, 1);
      Ok(Schedule(true, keys))
  }

  /** Frame 0 lives in the mesh itself and is never keyed; every later frame gets exactly one key. */
  lemma KeyedOnce(frames: seq<Positions>, start: int, nvert: nat, f: nat)
    requires SetFrames(frames, start, false, nvert).Ok? && f < |frames|
    ensures var keys := SetFrames(frames, start, false, nvert).value.keys;
      && (f == 0 ==> forall j :: 0 <= j < |keys| ==> keys[j].frame != 0)
      && (f >= 1 ==> exists j :: 0 <= j < |keys| && keys[j].frame == f)
      && (forall j1, j2 :: 0 <= j1 < j2 < |keys| ==> keys[j1].frame != keys[j2].frame)
  {
    var keys := SetFrames(frames, start, false, nvert).value.keys;
    if f >= 1 {
      assert keys[f - 1].frame == f;
    }
  }

  /**
   * At scene frame `start + i` the key of frame i is at its peak of 1, its
   * two neighbours are keyed at 0 there, and no other key is keyed there at
   * all: the mesh shows frame i and nothing else.
   */
  lemma {:induction false} OnlyFrameAtPeak(frames: seq<Positions>, start: int, nvert: nat, i: int, j: int)
    requires SetFrames(frames, start, false, nvert).Ok?
    requires 1 <= i < |frames|
    requires 0 <= j < |frames| - 1
    ensures var k := SetFrames(frames, start, false, nvert).value.keys[j];
      ValueAt(k.points, start + i) ==
        if k.frame == i then Some(1.0)
        else if k.frame == i - 1 || k.frame == i + 1 then Some(0.0)
        else None
  {
    var k := SetFrames(frames, start, false, nvert).value.keys[j];
    var w := Window(start, k.frame, |frames|);
    assert k.points == w;
    var t := start + i;
    if k.frame == i + 1 {
      assert w[0].time == t;
    } else if k.frame == i {
      assert w[0].time != t && w[1].time == t;
      assert ValueAt(w, t) == ValueAt(w[1..], t);
    } else if k.frame == i - 1 {
      assert |w| == 3;
      assert w[0].time != t && w[1].time != t && w[2].time == t;
      assert ValueAt(w, t) == ValueAt(w[1..], t) == ValueAt(w[2..], t);
    } else {
      assert forall x :: 0 <= x < |w| ==> w[x].time != t;
    }
  }

  /**
   * The positions argument as numpy sees it: a 2-D array (one frame), a 3-D
   * array (a stack of frames), or the 1-D empty array that `[]` becomes.
   */
  datatype PositionArray = Rows(rows: Positions) | Stack(stack: seq<Positions>) | EmptyList

  /** The frame stack and the positions of frame 0 that a constructor builds the mesh from. */
  datatype Trajectory = Trajectory(positions: Positions, frames: seq<Positions>)

  /**
   * `Batom.__init__` shaping: a 2-D array is the single frame, a 3-D array
   * is the stack with frame 0 as positions, and the 1-D `[]` is rejected.
   */
  function BatomTrajectory(p: PositionArray): (r: Result<Trajectory>)
    ensures r.Ok? ==> |r.value.frames| >= 1 && r.value.frames[0] == r.value.positions
    ensures p.Rows? ==> r == Ok(Trajectory(p.rows, [p.rows]))
    ensures p.Stack? && |p.stack| > 0 ==> r.Ok? && r.value.frames == p.stack
    ensures p.Stack? && |p.stack| == 0 ==> r == Err(IndexOutOfRange)
    ensures p.EmptyList? ==> r == Err(WrongShape)
  {
    match p
    case Rows(rows) => Ok(Trajectory(rows, [rows]))
    case Stack(stack) => if |stack| == 0 then Err(IndexOutOfRange) else Ok(Trajectory(stack[0], stack))
    case EmptyList => Err(WrongShape)
  }

  /**
   * `Batoms.__init__` shaping: a 3-D array is the stack with frame 0 as
   * positions; anything else, the default `[]` included, becomes a stack of
   * one frame.
   */
  function BatomsTrajectory(p: PositionArray): (r: Result<Trajectory>)
    ensures r.Ok? ==> |r.value.frames| >= 1 && r.value.frames[0] == r.value.positions
    ensures p.Rows? ==> r == Ok(Trajectory(p.rows, [p.rows]))
    ensures p.Stack? ==> (r.Ok? <==> |p.stack| > 0)
    ensures p.Stack? && r.Ok? ==> r.value.frames == p.stack
    ensures p.EmptyList? ==> r == Ok(Trajectory([], [[]]))
    ensures r.Err? ==> r.error == IndexOutOfRange
  {
    match p
    case Rows(rows) => Ok(Trajectory(rows, [rows]))
    case Stack(stack) => if |stack| == 0 then Err(IndexOutOfRange) else Ok(Trajectory(stack[0], stack))
    case EmptyList => Ok(Trajectory([], [[]]))
  }

  /** Shaping a trajectory the constructor built gives it back unchanged. */
  lemma TrajectoryRoundTrip(t: Trajectory)
    requires |t.frames| >= 1 && t.frames[0] == t.positions
    ensures BatomTrajectory(Stack(t.frames)) == Ok(t)
    ensures BatomsTrajectory(Stack(t.frames)) == Ok(t)
    ensures |t.frames| == 1 ==> BatomTrajectory(Rows(t.positions)) == Ok(t)
  {
    if |t.frames| == 1 {
      assert t.frames == [t.positions];
    }
  }
}
