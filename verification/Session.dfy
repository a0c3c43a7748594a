/**
 * The lifecycle shared by both chart widgets: CLEARED (waiting for data),
 * ACTIVE (frames being drawn) and INACTIVE (paused), the single-tap rule that
 * moves between them, and the throttle that decides when a frame is drawn.
 */
module Session {

  /** The chart's lifecycle state. */
  datatype State = Cleared | Active | Inactive

  /** What a single tap does in a given state. */
  datatype TapAction = TapIgnored | TapPauses | TapClears

  /** `isActive`: CLEARED and ACTIVE both count as active; only INACTIVE does not. */
  predicate IsActive(s: State)
  {
    s != Inactive
  }

  /**
   * `onChartSingleTapped`: nothing to pause while CLEARED, an ACTIVE chart is
   * paused, and a paused one is cleared.
   */
  function OnTap(s: State): (a: TapAction)
    ensures a == TapIgnored <==> s == Cleared
    ensures a == TapPauses <==> s == Active
    ensures a == TapClears <==> s == Inactive
  {
    match s
    case Cleared => TapIgnored
    case Active => TapPauses
    case Inactive => TapClears
  }

  /**
   * The throttle: a frame is drawn at time tick only when more than period
   * milliseconds have passed since the last one (a strict comparison).
   */
  predicate FrameDue(tick: nat, lastUpdate: nat, period: int)
  {
    tick > lastUpdate + period
  }
}
