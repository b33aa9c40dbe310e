/** The records of the season snapshot that the dashboard reads. */
module Riders {
  import opened Ordering

  /** One entry of a rider's `pointHistory`: a date string and the
      cumulative points on that date. */
  datatype HistoryPoint = HistoryPoint(date: string, points: real)

  /** An element of the snapshot's `cyclists` array. The role is the
      snapshot's string ('All Rounder', 'Climber', ...); `costPerPoint` is the
      precomputed `cost_per_point`, `Inf` for the string "Infinity". */
  datatype Rider = Rider(
    name: string,
    team: string,
    role: string,
    cost: real,
    points: real,
    costPerPoint: SortKey,
    pointHistory: seq<HistoryPoint>)

  function RoleOf(c: Rider): string { c.role }
  function CostOf(c: Rider): real { c.cost }
  function PointsOf(c: Rider): real { c.points }
  /** Each rider counts once. */
  function One(c: Rider): real { 1.0 }

  /** The key of the cost-efficiency sort, ascending. */
  function CostPerPointKey(c: Rider): SortKey { c.costPerPoint }

  /** The key of a sort by `b.points - a.points`: points, highest first. */
  function PointsDescending(c: Rider): SortKey { Finite(-c.points) }
}
