# Trajectory-to-segments conversion of the Constraints solver

The Constraints project solves small systems of nonlinear equations by
gradient descent. A solve produces a trajectory: an ordered list of points
of the search space, each a map from variable to value (`Values`). For
plotting, `pathToSegments` turns a trajectory into line `Segment`s between
2-D `Point`s, using the variables `x` and `y` of each point.

This project models that conversion and the plain data it builds
(`Vector`/`Point` and `Segment`) in the module `Visuals` (`visuals.dfy`):

- `Vector<T>`, `Point<T>` and `Segment<T>` are datatypes. The coordinate
  type is a type parameter, because the conversion only copies coordinates.
- A point of the search space, `Values<T>`, is a `map<string, T>`. The
  source keys it by variable expressions. The plotting keys `"x"` and `"y"`
  are string literals that become `Variable("x")` and `Variable("y")`,
  and variables compare by name, so keying by name is equivalent.
- `PointOf` builds the plotted position `Point(x: v["x"]!, y: v["y"]!)`
  of a point (Code/Visuals.swift:43-44), used for both ends of every
  segment; its precondition is the force unwrap of both keys.
- `PathToSegments` and its inner walk `Iter` are recursive functions,
  as in the source. The walk carries the previous point and an accumulator
  that grows at its end.
- The source's force unwraps are fatal errors, so they become
  preconditions. The trajectory must be non-empty (`path.first!`). Every
  point must have `x` and `y`. The walk reads the previous point only when
  there is a next point to join it to.

Behaviour pinned down by the proofs: the walk starts at the first point
and visits the whole trajectory, that first point included. So the output
has one segment per point, not one per consecutive pair, and the first
segment is degenerate (from the first point to itself).

## Model

| member | source | states |
|---|---|---|
| `Visuals.PathToSegments` | Code/Visuals.swift:40-51 | Defined only for a non-empty trajectory whose points all have `x` and `y` (the force unwraps). Yields exactly one segment per point of the trajectory. |
| `Visuals.Iter` | Code/Visuals.swift:41-49 | The walk adds one segment per remaining point. It keeps the segments already accumulated, unchanged, as a prefix of its result. |
| `Visuals.IterAt` | Code/Visuals.swift:42-45 | The segment the walk adds for the k-th remaining point joins the previous point (the carried `start` when k = 0) to that point. |
| `Visuals.IterAccumulates` | Code/Visuals.swift:45-47 | Walking from an accumulator gives that accumulator followed by what the walk from an empty accumulator gives. |
| `Visuals.IterSnoc` | Code/Visuals.swift:42-47 | Walking one extra final point appends exactly one segment at the end. That segment joins the previous last point (or `start`) to the new point. |
| `Visuals.SegmentAt` | Code/Visuals.swift:42-50 | Segment 0 goes from `path[0]` to `path[0]`. For k ≥ 1, segment k goes from the x/y of `path[k-1]` to the x/y of `path[k]`. |
| `Visuals.FirstSegmentIsDegenerate` | Code/Visuals.swift:50 | The first segment both starts and ends at the x/y of the first point. |
| `Visuals.SegmentsChain` | Code/Visuals.swift:45 | Each segment ends where the next one starts, because `finish` becomes the next `start`. |
| `Visuals.LastSegmentEndsAtLastPoint` | Code/Visuals.swift:42-47 | The last segment ends at the x/y of the last point of the trajectory. |
| `Visuals.AppendPoint` | Code/Visuals.swift:45 | Segments come out in trajectory order. Extending the trajectory by a plottable point extends the output by exactly the segment from the old last point to that point. |
| `Visuals.MatchesReference` | Code/Visuals.swift:40-51 | The conversion equals an independent definition that pairs each point's position with its predecessor's, the first point being its own predecessor. |
| `Visuals.IgnoresOtherVariables` | Code/Visuals.swift:43-44 | Only `x` and `y` are read. Two trajectories of equal length with the same x/y at every index give the same segments, whatever other variables they hold. |

## Left out

- `Vector` operators `+`, `-` and `*` (Code/Visuals.swift:15-26): componentwise `Double` arithmetic. Floating point is not modelled, and the conversion never uses these operators.
- `gridStep` and `scatterStep` (Code/Visuals.swift:53-84): they sample starting points with floating-point `stride`, or with `drand48` seeded from the wall clock. They also call `partialDerivatives` and `step` from the symbolic solver, which is not part of this model.
- `drawSegments` (Code/Visuals.swift:86-115): AppKit image rendering, affine transforms and Bezier stroking.
- Keys of `Values` other than variables: a point is keyed by variable name here. A constant key can never equal the plotting keys, so it cannot change the result.
- The symbolic expression engine, evaluator, differentiator, cost function and gradient-descent solver that produce trajectories are not part of this model.
