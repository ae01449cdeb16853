/** Contest time as one number with three special values (internal/managers/contest.go), and when a
    contest or a verdict is frozen (internal/managers/contest_standings.go). */
module ContestTime {
  const NOT_PLANNED := -1
  const NOT_STARTED := -2
  const FINISHED := -3

  datatype Stage = NotPlanned | NotStarted | Started | Finished

  // Where a participant is in the contest: `begin` is 0 if the contest is not planned for them.
  function ContestTimeAt(begin: int, duration: int, now: int): int {
    if begin == 0 then NOT_PLANNED
    else if now >= begin + duration then FINISHED
    else if now >= begin then now - begin
    else NOT_STARTED
  }

  predicate IsContestTime(c: int) {
    c == NOT_PLANNED || c == NOT_STARTED || c == FINISHED || c >= 0
  }

  function StageOf(c: int): Stage
    requires IsContestTime(c)
  {
    if c == NOT_PLANNED then NotPlanned
    else if c == NOT_STARTED then NotStarted
    else if c == FINISHED then Finished
    else Started
  }

  // Whether c lies before a time point inside the contest.
  predicate Before(c: int, time: int)
    requires IsContestTime(c)
  {
    if c == NOT_PLANNED || c == NOT_STARTED then true
    else if c == FINISHED then false
    else c < time
  }

  /** The special values are never taken for times, and a time point inside the contest has been reached
      exactly if the clock has passed it. */
  lemma BeforeMeans(begin: int, duration: int, now: int, time: int)
    requires begin != 0 && 0 <= time < duration
    ensures IsContestTime(ContestTimeAt(begin, duration, now))
    ensures Before(ContestTimeAt(begin, duration, now), time) <==> now < begin + time
    ensures StageOf(ContestTimeAt(begin, duration, now)).Started? <==> begin <= now < begin + duration
  {
  }

  /** The stage by the clock. */
  lemma StageMeans(begin: int, duration: int, now: int)
    requires duration >= 0
    ensures IsContestTime(ContestTimeAt(begin, duration, now))
    ensures StageOf(ContestTimeAt(begin, duration, now)) ==
              if begin == 0 then NotPlanned
              else if now < begin then NotStarted
              else if now < begin + duration then Started
              else Finished
  {
  }

  // isVerdictFrozen; a freeze of 0 means the contest has none.
  predicate VerdictFrozen(freeze: int, time: int) {
    freeze != 0 && time >= freeze
  }

  // isContestFrozen.
  predicate ContestFrozen(freeze: int, freezeEnd: int, c: int, now: int)
    requires IsContestTime(c)
  {
    freeze != 0 &&
    match StageOf(c)
    case Started => c >= freeze
    case Finished => freezeEnd == 0 || now < freezeEnd
    case _ => false
  }

  /** A freeze lasts from its begin, or the end of the contest if that is earlier, to its end if it has
      one. While the contest runs unfrozen, no time point that has been reached is a frozen one. */
  lemma FrozenInterval(begin: int, duration: int, freeze: int, freezeEnd: int, now: int, time: int)
    requires begin != 0 && duration >= 0 && freeze > 0
    ensures var c := ContestTimeAt(begin, duration, now);
            && (ContestFrozen(freeze, freezeEnd, c, now) <==>
                  && (begin + freeze <= now || begin + duration <= now) && begin <= now
                  && (now < begin + duration || freezeEnd == 0 || now < freezeEnd))
            && (StageOf(c).Started? && !ContestFrozen(freeze, freezeEnd, c, now) && VerdictFrozen(freeze, time) ==>
                  Before(c, time))
  {
  }
}
