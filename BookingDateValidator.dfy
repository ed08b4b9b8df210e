/** The `@ValidBookingDate` constraint on a booking request: an ordered chain
    of checks on (start, end) against the current time that reports the first
    violation it meets, or accepts. Absent dates are `None` (Java's null). */
module BookingDateValidator {
  import opened Common

  /** The outcome of the check: accepted, or exactly one constraint violation
      attached to the property node `field` with message `message`. */
  datatype DateCheck = Valid | Violation(field: string, message: string)

  const StartNull := Violation("start", "Start of booking cannot be null")
  const EndNull := Violation("end", "End of booking cannot be null")
  const StartInPast := Violation("start", "Start of booking cannot be in past")
  const EndInPast := Violation("end", "End of booking cannot be in past")
  const EndBeforeStart := Violation("end", "End of booking cannot be earlier than start")
  const EndEqualsStart := Violation("end", "End of booking cannot equals start")

  /** `isValid`: accepts exactly the requests with both dates present and
      now <= start < end. */
  function IsValid(start: Option<int>, end: Option<int>, now: int): (r: DateCheck)
    ensures r.Valid? <==> start.Some? && end.Some? && now <= start.value < end.value
  {
    if start.None? then StartNull
    else if end.None? then EndNull
    else if start.value < now then StartInPast
    else if end.value < now then EndInPast
    else if start.value > end.value then EndBeforeStart
    else if start.value == end.value then EndEqualsStart
    else Valid
  }

  /** A missing start is reported whatever the end is. */
  lemma NullStartReported(end: Option<int>, now: int)
    ensures IsValid(None, end, now) == StartNull
  {
  }

  /** A present start with a missing end is reported as a missing end, even
      when the start is in the past. */
  lemma NullEndReported(start: int, now: int)
    ensures IsValid(Some(start), None, now) == EndNull
  {
  }

  /** A start before now is reported before anything about the end. */
  lemma StartInPastReportedFirst(start: int, end: int, now: int)
    requires start < now
    ensures IsValid(Some(start), Some(end), now) == StartInPast
  {
  }

  /** With an acceptable start, an end before now is reported as in the past,
      even when it is also earlier than the start. */
  lemma EndInPastReported(start: int, end: int, now: int)
    requires now <= start && end < now
    ensures IsValid(Some(start), Some(end), now) == EndInPast
  {
  }

  /** With both dates not in the past, an end before the start and an end equal
      to the start get their own messages. */
  lemma OrderViolationsReported(start: int, end: int, now: int)
    requires now <= start && now <= end
    ensures start > end ==> IsValid(Some(start), Some(end), now) == EndBeforeStart
    ensures start == end ==> IsValid(Some(start), Some(end), now) == EndEqualsStart
  {
  }

  /** The six rules in the order the validator tries them, each as a violation
      and the condition under which it applies, stated independently of the
      others (a rule on a date applies only when that date is present). */
  function Rules(start: Option<int>, end: Option<int>, now: int): seq<(bool, DateCheck)>
  {
    [ (start.None?, StartNull),
      (end.None?, EndNull),
      (start.Some? && start.value < now, StartInPast),
      (end.Some? && end.value < now, EndInPast),
      (start.Some? && end.Some? && start.value > end.value, EndBeforeStart),
      (start.Some? && end.Some? && start.value == end.value, EndEqualsStart) ]
  }

  /** The violation of the first rule that applies, or Valid when none does. */
  function FirstViolation(rules: seq<(bool, DateCheck)>): DateCheck
  {
    if rules == [] then Valid
    else if rules[0].0 then rules[0].1
    else FirstViolation(rules[1..])
  }

  /** The validator reports exactly the first applicable rule: one message per
      rejected request, the earliest in the chain. */
  lemma {:induction false} ReportsFirstApplicableRule(start: Option<int>, end: Option<int>, now: int)
    ensures IsValid(start, end, now) == FirstViolation(Rules(start, end, now))
  {
    var rules := Rules(start, end, now);
    // one unfolding of FirstViolation per rule, from the last rule back
    assert FirstViolation(rules[6..]) == Valid;
    assert rules[5..][1..] == rules[6..];
    assert rules[4..][1..] == rules[5..];
    assert rules[3..][1..] == rules[4..];
    assert rules[2..][1..] == rules[3..];
    assert rules[1..][1..] == rules[2..];
    assert FirstViolation(rules[5..]) == if rules[5].0 then rules[5].1 else Valid;
    assert FirstViolation(rules[4..]) == if rules[4].0 then rules[4].1 else FirstViolation(rules[5..]);
    assert FirstViolation(rules[3..]) == if rules[3].0 then rules[3].1 else FirstViolation(rules[4..]);
    assert FirstViolation(rules[2..]) == if rules[2].0 then rules[2].1 else FirstViolation(rules[3..]);
    assert FirstViolation(rules[1..]) == if rules[1].0 then rules[1].1 else FirstViolation(rules[2..]);
  }

  /** The six messages are pairwise distinct, so the message alone tells which
      check failed. */
  lemma MessagesDistinct()
    ensures var ms := [StartNull.message, EndNull.message, StartInPast.message,
                       EndInPast.message, EndBeforeStart.message, EndEqualsStart.message];
      forall i, j :: 0 <= i < j < |ms| ==> ms[i] != ms[j]
  {
  }
}
