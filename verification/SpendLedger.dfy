/** Spending reservations against daily, weekly and monthly limits. */
module SpendLedger {
  import opened Wrappers

  // ----- time -------------------------------------------------------------------------------

  const DAY := 86400
  const NANOS_PER_SECOND := 1000000000

  /** Seconds since Thursday, 1 January 1970 (UTC), and the nanoseconds within the second. */
  datatype Instant = Instant(second: int, nanos: nat)

  datatype Period = Daily | Weekly | Monthly

  /** The first day of a day's month; all that matters is that it does not come later and that the days in
      between have the same one. */
  datatype Calendar = Calendar(monthStart: int -> int) {
    ghost predicate Valid() {
      && (forall day :: monthStart(day) <= day)
      && (forall day, other :: monthStart(day) <= other <= day ==> monthStart(other) == monthStart(day))
    }

    function StartDay(period: Period, day: int): int {
      match period
      case Daily => day
      case Weekly => day - (day + 3) % 7
      case Monthly => monthStart(day)
    }

    /** The first second of the period that the instant falls into. */
    function Start(period: Period, at: Instant): int {
      StartDay(period, at.second / DAY) * DAY
    }
  }

  /** A day starts at midnight UTC, a week on a Monday (5 January 1970 was one), a month on its first day; the
      period is the one that holds the instant. */
  lemma PeriodsStart(calendar: Calendar, at: Instant)
    ensures var start := calendar.Start(Daily, at); start % 86400 == 0 && start <= at.second < start + 86400
    ensures var start := calendar.Start(Weekly, at);
      (start - 4 * 86400) % (7 * 86400) == 0 && start <= at.second < start + 7 * 86400
    ensures calendar.Start(Monthly, at) == calendar.monthStart(at.second / 86400) * 86400
  {
    var day := at.second / DAY;
    assert day * 86400 <= at.second < (day + 1) * 86400;
    var monday := day - (day + 3) % 7;
    assert (monday - 4) % 7 == 0;
    var weeks := (monday - 4) / 7;
    assert monday * 86400 - 4 * 86400 == weeks * (7 * 86400);
  }

  lemma StartIsNotLater(calendar: Calendar, period: Period, at: Instant)
    requires calendar.Valid()
    ensures calendar.Start(period, at) <= at.second
  {
    assert calendar.StartDay(period, at.second / DAY) <= at.second / DAY;
  }

  // ----- stored time stamps -----------------------------------------------------------------

  /** A stored time stamp: the part up to the seconds sorts like the second, the rest as text. */
  datatype Stamp = Stamp(second: int, rest: string)

  const DIGITS := "0123456789"

  function Digits(value: nat, places: nat): string {
    if places == 0 then ""
      else Digits(value / 10, places - 1) + [DIGITS[value % 10]]
  }

  function WithoutTrailingZeros(digits: string): string {
    if digits != "" && digits[|digits| - 1] == '0' then WithoutTrailingZeros(digits[..|digits| - 1]) else digits
  }

  /** RFC 3339 with fractional digits as far as needed, section 5.6 of RFC 3339. */
  function Format(at: Instant): Stamp {
    Stamp(at.second, if at.nanos == 0 then "Z" else "." + WithoutTrailingZeros(Digits(at.nanos, 9)) + "Z")
  }

  /** The number that decimal digits stand for. */
  function ValueOf(digits: string): nat {
    if digits == "" then 0
    else 10 * ValueOf(digits[..|digits| - 1]) + DigitValue(digits[|digits| - 1])
  }

  function DigitValue(digit: char): nat {
    if '0' <= digit <= '9' then (digit - '0') as nat else 0
  }

  function TenTo(places: nat): nat {
    if places == 0 then 1 else 10 * TenTo(places - 1)
  }

  lemma {:induction false} DigitsSpell(value: nat, places: nat)
    requires value < TenTo(places)
    ensures |Digits(value, places)| == places && ValueOf(Digits(value, places)) == value
  {
    if places > 0 {
      DigitsSpell(value / 10, places - 1);
      LastDigit(value);
      var before, last := Digits(value / 10, places - 1), DIGITS[value % 10];
      hide Digits, ValueOf, DigitValue;
      assert Digits(value, places) == before + [last]
        && ValueOf(before + [last]) == 10 * ValueOf(before) + DigitValue(last)
      by {
        DigitsEnd(value, places);
        ValueEnds(before, last);
      }
    }
  }

  lemma LastDigit(value: nat)
    ensures DigitValue(DIGITS[value % 10]) == value % 10
  {}

  lemma DigitsEnd(value: nat, places: nat)
    requires places > 0
    ensures Digits(value, places) == Digits(value / 10, places - 1) + [DIGITS[value % 10]]
  {}

  lemma ValueEnds(before: string, last: char)
    ensures ValueOf(before + [last]) == 10 * ValueOf(before) + DigitValue(last)
  {
    assert (before + [last])[..|before|] == before;
  }

  lemma {:induction false} OnlyZerosDropped(digits: string)
    ensures var kept := WithoutTrailingZeros(digits);
      && kept <= digits && (kept == "" || kept[|kept| - 1] != '0')
      && forall i :: |kept| <= i < |digits| ==> digits[i] == '0'
  {
    if digits != "" && digits[|digits| - 1] == '0' {
      OnlyZerosDropped(digits[..|digits| - 1]);
    }
  }

  /** A time stamp ends in Z right after the seconds, or after a point and the nanoseconds' nine digits without
      the zeros at their end. */
  lemma FormatSpells(at: Instant) returns (digits: string, kept: string)
    requires at.nanos < NANOS_PER_SECOND
    ensures Format(at).second == at.second
    ensures at.nanos == 0 ==> Format(at).rest == "Z"
    ensures at.nanos > 0 ==> Format(at).rest == "." + kept + "Z"
    ensures |digits| == 9 && ValueOf(digits) == at.nanos
    ensures kept <= digits && (kept == "" || kept[|kept| - 1] != '0')
    ensures forall i :: |kept| <= i < 9 ==> digits[i] == '0'
  {
    assert TenTo(9) == 1000000000;
    digits, kept := Digits(at.nanos, 9), WithoutTrailingZeros(Digits(at.nanos, 9));
    DigitsSpell(at.nanos, 9);
    OnlyZerosDropped(digits);
  }

  predicate TextLess(a: string, b: string) {
    b != "" && (a == "" || a[0] < b[0] || (a[0] == b[0] && TextLess(a[1..], b[1..])))
  }

  predicate LessAt(a: string, b: string, i: nat) {
    i <= |a| && i < |b| && a[..i] == b[..i] && (i == |a| || a[i] < b[i])
  }

  /** Texts are compared at their first difference; a text comes before its continuations. */
  lemma {:induction false} FirstDifference(a: string, b: string)
    ensures TextLess(a, b) <==> exists i: nat :: LessAt(a, b, i)
  {
    if a != "" && b != "" && a[0] == b[0] {
      FirstDifference(a[1..], b[1..]);
      if i: nat :| LessAt(a[1..], b[1..], i) {
        assert a[..i + 1] == [a[0]] + a[1..][..i] && b[..i + 1] == [b[0]] + b[1..][..i];
        assert LessAt(a, b, i + 1);
      }
      if i: nat :| LessAt(a, b, i) {
        assert i > 0;
        assert a[1..][..i - 1] == a[..i][1..] && b[1..][..i - 1] == b[..i][1..];
        assert i < |a| ==> a[1..][i - 1] == a[i] && b[1..][i - 1] == b[i];
        assert LessAt(a[1..], b[1..], i - 1);
      }
    } else if b != "" && (a == "" || a[0] < b[0]) {
      assert LessAt(a, b, 0);
    } else {
      forall i: nat
        ensures !LessAt(a, b, i)
      {
        assert 0 < i <= |a| && i < |b| ==> a[..i][0] == a[0] && b[..i][0] == b[0];
      }
    }
  }

  /** recorded_at >= start, as the database compares the two texts. */
  predicate AtLeast(stamp: Stamp, start: Stamp) {
    stamp.second > start.second || (stamp.second == start.second && !TextLess(stamp.rest, start.rest))
  }

  predicate Counts(at: Instant, start: int) {
    AtLeast(Format(at), Format(Instant(start, 0)))
  }

  /** A fraction in the first second sorts before the whole second, because a point comes before a Z. */
  lemma CountsUnlessInFirstSecond(at: Instant, start: int)
    ensures Counts(at, start) <==> at.second > start || (at.second == start && at.nanos == 0)
  {
    assert !TextLess("Z", "Z") by {
      assert !TextLess("Z"[1..], "Z"[1..]);
    }
  }

  // ----- sums -------------------------------------------------------------------------------

  /** Amounts are exact; the key is a provider and its unit. */
  datatype Key = Key(provider: string, unit: string)

  datatype Record = Record(at: Instant, key: Key, amount: real)

  /** SELECT SUM(amount) ... WHERE recorded_at >= start */
  function Used(records: seq<Record>, key: Key, start: int): real {
    if records == [] then 0.0
    else
      var last := records[|records| - 1];
      Used(records[..|records| - 1], key, start) + if last.key == key && Counts(last.at, start) then last.amount
        else 0.0
  }

  /** A query adds up, over all records in whatever order, the amounts of its key that were recorded in a later
      second than the given one, or at its very beginning. */
  lemma {:induction false} UsedOfBoth(first: seq<Record>, second: seq<Record>, key: Key, start: int)
    ensures Used(first + second, key, start) == Used(first, key, start) + Used(second, key, start)
    ensures Used([], key, start) == 0.0
  {
    hide Counts;
    if second == [] {
      assert first + second == first;
    } else {
      var last := |second| - 1;
      UsedOfBoth(first, second[..last], key, start);
      assert (first + second)[..|first + second| - 1] == first + second[..last];
    }
  }

  lemma UsedOfOne(record: Record, key: Key, start: int)
    ensures Used([record], key, start)
      == if record.key.provider == key.provider && record.key.unit == key.unit
        && (record.at.second > start || (record.at.second == start && record.at.nanos == 0)) then record.amount else 0.0
  {
    CountsUnlessInFirstSecond(record.at, start);
    assert [record][..0] == [];
  }

  predicate In(calendar: Calendar, record: Record, key: Key, period: Period, start: int) {
    record.key == key && calendar.Start(period, record.at) == start
  }

  /** All amounts recorded in one period. */
  function Spent(calendar: Calendar, records: seq<Record>, key: Key, period: Period, start: int): real {
    if records == [] then 0.0
    else
      var last := records[|records| - 1];
      Spent(calendar, records[..|records| - 1], key, period, start) + if In(calendar, last, key, period, start) then
        last.amount else 0.0
  }

  /** Those of them that a query for the period's start finds. */
  function Counted(calendar: Calendar, records: seq<Record>, key: Key, period: Period, start: int): real {
    if records == [] then 0.0
    else
      var last := records[|records| - 1];
      Counted(calendar, records[..|records| - 1], key, period, start)
      + if In(calendar, last, key, period, start) && Counts(last.at, start) then last.amount else 0.0
  }

  ghost predicate NonNegative(records: seq<Record>) {
    forall i :: 0 <= i < |records| ==> records[i].amount >= 0.0
  }

  lemma {:induction false} CountedIsUsed(calendar: Calendar, records: seq<Record>, key: Key, period: Period, start: int)
    requires NonNegative(records)
    ensures Counted(calendar, records, key, period, start) <= Used(records, key, start)
  {
    if records != [] {
      CountedIsUsed(calendar, records[..|records| - 1], key, period, start);
    }
  }

  /** No record of the period lies strictly inside its first second. */
  ghost predicate NoneInFirstSecond(calendar: Calendar, records: seq<Record>, key: Key, period: Period, start: int) {
    forall i ::
      0 <= i < |records| && In(calendar, records[i], key, period, start) ==>
      !(records[i].at.second == start && records[i].at.nanos > 0)
  }

  lemma {:induction false} CountedIsSpent(calendar: Calendar, records: seq<Record>, key: Key, period: Period,
          start: int)
    requires calendar.Valid() && NoneInFirstSecond(calendar, records, key, period, start)
    ensures Counted(calendar, records, key, period, start) == Spent(calendar, records, key, period, start)
  {
    if records != [] {
      var last := records[|records| - 1];
      assert NoneInFirstSecond(calendar, records[..|records| - 1], key, period, start);
      CountedIsSpent(calendar, records[..|records| - 1], key, period, start);
      StartIsNotLater(calendar, period, last.at);
      CountsUnlessInFirstSecond(last.at, start);
    }
  }

  /** Lowering one record's amount lowers every sum by at most as much. */
  lemma {:induction false} SettleSums(calendar: Calendar, records: seq<Record>, index: nat, exact: real, key: Key,
          period: Period, start: int)
    requires index < |records| && exact <= records[index].amount
    ensures var settled := records[index := records[index].(amount := exact)];
      && Counted(calendar, settled, key, period, start) <= Counted(calendar, records, key, period, start)
      && Spent(calendar, settled, key, period, start) <= Spent(calendar, records, key, period, start)
      && Used(settled, key, start) <= Used(records, key, start)
  {
    hide Counts, Calendar.Start;
    var last := |records| - 1;
    var settled := records[index := records[index].(amount := exact)];
    if index == last {
      assert settled[..last] == records[..last];
    } else {
      SettleSums(calendar, records[..last], index, exact, key, period, start);
      assert settled[..last] == records[..last][index := records[index].(amount := exact)];
      assert settled[last] == records[last];
    }
  }

  // ----- the ledger -------------------------------------------------------------------------

  /** A limit of zero is disabled. */
  datatype Limits = Limits(daily: real, weekly: real, monthly: real) {
    function Of(period: Period): real {
      match period
      case Daily => daily
      case Weekly => weekly
      case Monthly => monthly
    }

    predicate Disabled() {
      daily == 0.0 && weekly == 0.0 && monthly == 0.0
    }
  }

  /** A maximum of zero asks for as much as the limits leave. */
  datatype Request = Request(key: Key, maximum: real, minimum: real, limits: Limits) {
    predicate Invalid() {
      || key.provider == "" || key.unit == "" || maximum < 0.0 || minimum < 0.0
      || (maximum > 0.0 && minimum > maximum)
      || limits.daily < 0.0 || limits.weekly < 0.0 || limits.monthly < 0.0
    }
  }

  datatype SpendError = InvalidRequest | SpendLimitExceeded | Unavailable

  datatype Reservation = Reservation(id: nat, amount: real)

  /** What an enabled limit leaves in the period of the given time. */
  function Left(calendar: Calendar, records: seq<Record>, now: Instant, request: Request, period: Period): real {
    request.limits.Of(period) - Used(records, request.key, calendar.Start(period, now))
  }

  /** The amount is one that the request or an enabled limit names. */
  ghost predicate Attained(calendar: Calendar, records: seq<Record>, now: Instant, request: Request, amount: real) {
    || (request.maximum > 0.0 && amount == request.maximum)
    || (exists period: Period ::
      request.limits.Of(period) != 0.0 && amount == Left(calendar, records, now, request, period))
  }

  /** The least of what the request asks for and what each enabled limit leaves. */
  ghost predicate Grants(calendar: Calendar, records: seq<Record>, now: Instant, request: Request, amount: real) {
    && (request.maximum > 0.0 ==> amount <= request.maximum)
    && (forall period: Period ::
      request.limits.Of(period) != 0.0 ==> amount <= Left(calendar, records, now, request, period))
    && Attained(calendar, records, now, request, amount)
  }

  /** What a grant means, limit by limit. */
  ghost predicate LeastOfAll(calendar: Calendar, records: seq<Record>, now: Instant, request: Request, amount: real) {
    var day := request.limits.daily - Used(records, request.key, calendar.Start(Daily, now));
    var week := request.limits.weekly - Used(records, request.key, calendar.Start(Weekly, now));
    var month := request.limits.monthly - Used(records, request.key, calendar.Start(Monthly, now));
    && (request.maximum > 0.0 ==> amount <= request.maximum)
    && (request.limits.daily != 0.0 ==> amount <= day)
    && (request.limits.weekly != 0.0 ==> amount <= week)
    && (request.limits.monthly != 0.0 ==> amount <= month)
    && (|| (request.maximum > 0.0 && amount == request.maximum)
        || (request.limits.daily != 0.0 && amount == day)
        || (request.limits.weekly != 0.0 && amount == week)
        || (request.limits.monthly != 0.0 && amount == month))
  }

  lemma GrantsLeast(calendar: Calendar, records: seq<Record>, now: Instant, request: Request, amount: real)
    ensures Grants(calendar, records, now, request, amount) <==> LeastOfAll(calendar, records, now, request, amount)
  {
    hide Used, Calendar.Start;
    var limits := request.limits;
    assert limits.Of(Daily) == limits.daily && limits.Of(Weekly) == limits.weekly
      && limits.Of(Monthly) == limits.monthly;
  }

  function Least(amount: Option<real>, other: real): real {
    if amount.Some? && amount.value <= other then amount.value else other
  }

  class Ledger {
    const calendar: Calendar
    /** spending_reservations, by reservation identifier less one */
    var records: seq<Record>

    ghost predicate Valid()
      reads this
    {
      calendar.Valid() && NonNegative(records)
    }

    constructor (calendar: Calendar)
      requires calendar.Valid()
      ensures Valid() && records == [] && this.calendar == calendar
    {
      this.calendar := calendar;
      records := [];
    }

    /** ReserveSpend at the given time. */
    method ReserveSpend(now: Instant, request: Request, reliable: bool)
      returns (result: Result<Reservation, SpendError>)
      requires Valid()
      modifies this
      ensures Valid()
      ensures request.Invalid() <==> result == Err(InvalidRequest)
      ensures result == Err(InvalidRequest) <==>
        || request.key.provider == "" || request.key.unit == "" || request.maximum < 0.0 || request.minimum < 0.0
        || (request.maximum > 0.0 && request.minimum > request.maximum)
        || request.limits.daily < 0.0 || request.limits.weekly < 0.0 || request.limits.monthly < 0.0
      ensures result.Err? ==> records == old(records)
      ensures !request.Invalid() && request.limits.daily == request.limits.weekly == request.limits.monthly == 0.0 ==>
        result == Ok(Reservation(0, request.maximum)) && records == old(records)
      ensures result.Ok? && !(request.limits.daily == request.limits.weekly == request.limits.monthly == 0.0) ==>
        && result.value.id == |records|
        && result.value.amount > 0.0 && result.value.amount >= request.minimum
        && Grants(calendar, old(records), now, request, result.value.amount)
        && LeastOfAll(calendar, old(records), now, request, result.value.amount)
        && records == old(records) + [Record(now, request.key, result.value.amount)]
      ensures reliable && result.Err? ==> result.error != Unavailable
      ensures result == Err(SpendLimitExceeded) ==>
        exists amount :: Grants(calendar, records, now, request, amount) && (amount < request.minimum || amount <= 0.0)
    {
      if request.Invalid() {
        return Err(InvalidRequest);
      }
      if request.limits.Disabled() {
        return Ok(Reservation(0, request.maximum));
      }
      var busy: bool := *;
      if busy && !reliable {
        return Err(Unavailable);
      }
      var amount := if request.maximum == 0.0 then None else Some(request.maximum);
      var periods := [Daily, Weekly, Monthly];
      for i := 0 to 3
        invariant forall j :: 0 <= j < i && request.limits.Of(periods[j]) != 0.0 ==>
          amount.Some? && amount.value <= Left(calendar, records, now, request, periods[j])
        invariant request.maximum > 0.0 ==> amount.Some? && amount.value <= request.maximum
        invariant amount.Some? ==> Attained(calendar, records, now, request, amount.value)
      {
        var limit := request.limits.Of(periods[i]);
        if limit != 0.0 {
          var used := Used(records, request.key, calendar.Start(periods[i], now));
          amount := Some(Least(amount, limit - used));
        }
      }
      assert amount.Some? && Grants(calendar, records, now, request, amount.value) by {
        assert periods[0] == Daily && periods[1] == Weekly && periods[2] == Monthly;
      }
      if amount.value < request.minimum || amount.value <= 0.0 {
        return Err(SpendLimitExceeded);
      }
      GrantsLeast(calendar, records, now, request, amount.value);
      records := records + [Record(now, request.key, amount.value)];
      return Ok(Reservation(|records|, amount.value));
    }

    /** SettleSpend: the exact amount replaces the reserved one unless it is larger. */
    method SettleSpend(id: int, exact: real, reliable: bool) returns (outcome: Outcome<SpendError>)
      requires Valid()
      modifies this
      ensures Valid()
      ensures outcome.Fail? ==> records == old(records)
      ensures (id <= 0 || exact < 0.0 || id > |old(records)| || exact > old(records)[id - 1].amount) ==> outcome.Fail?
      ensures reliable && 0 < id <= |old(records)| && 0.0 <= exact <= old(records)[id - 1].amount ==> outcome.Pass?
      ensures outcome.Pass? ==> records == old(records)[id - 1 := old(records)[id - 1].(amount := exact)]
    {
      if id <= 0 || exact < 0.0 {
        return Fail(InvalidRequest);
      }
      var busy: bool := *;
      if busy && !reliable {
        return Fail(Unavailable);
      }
      if id > |records| || exact > records[id - 1].amount {
        return Fail(InvalidRequest);
      }
      records := records[id - 1 := records[id - 1].(amount := exact)];
      return Pass;
    }
  }

  // ----- runs -------------------------------------------------------------------------------

  /** A reservation that was granted, or a settlement that was accepted; nothing else changes the ledger. */
  datatype Operation = Reserved(now: Instant, request: Request, amount: real) | Settled(index: nat, exact: real)

  ghost predicate Step(calendar: Calendar, before: seq<Record>, operation: Operation, after: seq<Record>) {
    match operation
    case Reserved(now, request, amount) =>
      amount > 0.0 && Grants(calendar, before, now, request, amount)
        && after == before + [Record(now, request.key, amount)]
    case Settled(index, exact) =>
      index < |before| && 0.0 <= exact <= before[index].amount
        && after == before[index := before[index].(amount := exact)]
  }

  ghost predicate Run(calendar: Calendar, states: seq<seq<Record>>, operations: seq<Operation>) {
    && |states| == |operations| + 1 && states[0] == []
    && forall i :: 0 <= i < |operations| ==> Step(calendar, states[i], operations[i], states[i + 1])
  }

  ghost predicate WithinLimit(calendar: Calendar, records: seq<Record>, key: Key, period: Period, limit: real) {
    NonNegative(records) && forall start {:trigger Counted(calendar, records, key, period, start)} ::
      Counted(calendar, records, key, period, start) <= limit
  }

  lemma StepKeepsLimit(calendar: Calendar, before: seq<Record>, operation: Operation, after: seq<Record>, key: Key,
          period: Period, limit: real)
    requires WithinLimit(calendar, before, key, period, limit) && Step(calendar, before, operation, after)
    requires operation.Reserved? && operation.request.key == key ==> operation.request.limits.Of(period) == limit != 0.0
    ensures WithinLimit(calendar, after, key, period, limit)
  {
    forall start
      ensures Counted(calendar, after, key, period, start) <= limit
    {
      match operation
      case Reserved(now, request, amount) =>
        assert after[..|before|] == before;
        if request.key == key {
          CountedIsUsed(calendar, before, key, period, start);
          assert amount <= Left(calendar, before, now, request, period);
        }
      case Settled(index, exact) =>
        SettleSums(calendar, before, index, exact, key, period, start);
    }
  }

  /** With a fixed limit, however the clock moves: the counted amounts of no period ever exceed it, and
      neither does all that was recorded, unless something was recorded in the period's first second. */
  lemma {:induction false} RunKeepsLimit(calendar: Calendar, states: seq<seq<Record>>, operations: seq<Operation>,
          key: Key, period: Period, limit: real, start: int)
    requires calendar.Valid() && limit > 0.0 && Run(calendar, states, operations)
    requires forall i ::
      0 <= i < |operations| && operations[i].Reserved? && operations[i].request.key == key ==>
      operations[i].request.limits.Of(period) == limit
    ensures Counted(calendar, states[|operations|], key, period, start) <= limit
    ensures NoneInFirstSecond(calendar, states[|operations|], key, period, start) ==>
      Spent(calendar, states[|operations|], key, period, start) <= limit
  {
    RunStaysWithin(calendar, states, operations, key, period, limit);
    if NoneInFirstSecond(calendar, states[|operations|], key, period, start) {
      CountedIsSpent(calendar, states[|operations|], key, period, start);
    }
  }

  lemma {:induction false} RunStaysWithin(calendar: Calendar, states: seq<seq<Record>>, operations: seq<Operation>,
          key: Key, period: Period, limit: real)
    requires limit > 0.0 && Run(calendar, states, operations)
    requires forall i ::
      0 <= i < |operations| && operations[i].Reserved? && operations[i].request.key == key ==>
      operations[i].request.limits.Of(period) == limit
    ensures WithinLimit(calendar, states[|operations|], key, period, limit)
  {
    if operations != [] {
      var last := |operations| - 1;
      RunStaysWithin(calendar, states[..|operations|], operations[..last], key, period, limit);
      StepKeepsLimit(calendar, states[last], operations[last], states[|operations|], key, period, limit);
    }
  }

  /** A reservation in the first second of a day is not seen by the next one, so the day can cost twice its
      limit. */
  lemma FirstSecondIsForgotten(calendar: Calendar, key: Key, limit: real, nanos: nat)
    requires limit > 0.0 && 0 < nanos < NANOS_PER_SECOND
    ensures var request := DailyRequest(key, limit);
      var first, second := Record(Instant(0, nanos), key, limit), Record(Instant(1, 0), key, limit);
      && Run(calendar, [[], [first], [first, second]],
        [Reserved(first.at, request, limit), Reserved(second.at, request, limit)])
      && Spent(calendar, [first, second], key, Daily, 0) == 2.0 * limit
  {
    hide Counts, Calendar.Start, Step;
    var request := DailyRequest(key, limit);
    var first, second := Record(Instant(0, nanos), key, limit), Record(Instant(1, 0), key, limit);
    DayZero(calendar, first.at);
    DayZero(calendar, second.at);
    UsedOfOne(first, key, 0);
    UsedOfBoth([], [], key, 0);
    GrantAll(calendar, [], first.at, key, limit);
    GrantAll(calendar, [first], second.at, key, limit);
    assert [] + [first] == [first] && [first] + [second] == [first, second];
    hide Used;
    assert [first][..0] == [] && [first, second][..1] == [first];
    assert Spent(calendar, [], key, Daily, 0) == 0.0 && Spent(calendar, [first], key, Daily, 0) == limit;
  }

  function DailyRequest(key: Key, limit: real): Request {
    Request(key, limit, 0.0, Limits(limit, 0.0, 0.0))
  }

  /** With nothing used, a request for the whole daily limit is granted. */
  lemma GrantAll(calendar: Calendar, records: seq<Record>, at: Instant, key: Key, limit: real)
    requires limit > 0.0 && Used(records, key, calendar.Start(Daily, at)) == 0.0
    ensures Step(calendar, records, Reserved(at, DailyRequest(key, limit), limit), records + [Record(at, key, limit)])
  {
    hide Used, Calendar.Start;
    assert forall period: Period :: DailyRequest(key, limit).limits.Of(period) != 0.0 ==> period == Daily;
  }

  lemma DayZero(calendar: Calendar, at: Instant)
    requires 0 <= at.second < DAY
    ensures calendar.Start(Daily, at) == 0
  {}

  // ----- exactly when a period is overspent -------------------------------------------------

  predicate NotAfter(a: Instant, b: Instant) {
    a.second < b.second || (a.second == b.second && a.nanos <= b.nanos)
  }

  /** A positive amount of the period lies strictly inside its first second. */
  ghost predicate Hidden(calendar: Calendar, records: seq<Record>, key: Key, period: Period, start: int) {
    exists i :: 0 <= i < |records| && In(calendar, records[i], key, period, start)
      && records[i].at.second == start && records[i].at.nanos > 0 && records[i].amount > 0.0
  }

  ghost predicate LimitedTo(operations: seq<Operation>, key: Key, period: Period, limit: real) {
    forall i :: 0 <= i < |operations| && operations[i].Reserved? && operations[i].request.key == key ==>
      operations[i].request.limits.Of(period) == limit
  }

  /** The clock does not go back, and has reached the given time by now. */
  ghost predicate Forward(operations: seq<Operation>, now: Instant) {
    && (forall i :: 0 <= i < |operations| && operations[i].Reserved? ==> NotAfter(operations[i].now, now))
    && (forall i, j :: 0 <= i < j < |operations| && operations[i].Reserved? && operations[j].Reserved? ==>
      NotAfter(operations[i].now, operations[j].now))
  }

  /** Further steps from the given time on, with the same limit. */
  ghost predicate Continues(calendar: Calendar, states: seq<seq<Record>>, operations: seq<Operation>, now: Instant,
          key: Key, period: Period, limit: real) {
    && |states| == |operations| + 1
    && (forall i :: 0 <= i < |operations| ==> Step(calendar, states[i], operations[i], states[i + 1]))
    && (forall i :: 0 <= i < |operations| && operations[i].Reserved? ==> NotAfter(now, operations[i].now))
    && (forall i, j :: 0 <= i < j < |operations| && operations[i].Reserved? && operations[j].Reserved? ==>
      NotAfter(operations[i].now, operations[j].now))
    && LimitedTo(operations, key, period, limit)
  }

  /** Some continuation records more than the limit in the period of the given time. */
  ghost predicate CanOverspend(calendar: Calendar, records: seq<Record>, now: Instant, key: Key, period: Period,
          limit: real) {
    exists later, more ::
      && Continues(calendar, later, more, now, key, period, limit) && later[0] == records
      && Spent(calendar, later[|more|], key, period, calendar.Start(period, now)) > limit
  }

  /** What was spent is what is counted unless a positive amount is hidden. */
  lemma {:induction false} SpentUnlessHidden(calendar: Calendar, records: seq<Record>, key: Key, period: Period,
          start: int)
    requires calendar.Valid() && NonNegative(records)
    ensures Spent(calendar, records, key, period, start) >= Counted(calendar, records, key, period, start)
    ensures Spent(calendar, records, key, period, start) > Counted(calendar, records, key, period, start)
       <==> Hidden(calendar, records, key, period, start)
  {
    hide Calendar.Start, Counts;
    if records != [] {
      var before, last := records[..|records| - 1], records[|records| - 1];
      SpentUnlessHidden(calendar, before, key, period, start);
      StartIsNotLater(calendar, period, last.at);
      CountsUnlessInFirstSecond(last.at, start);
      HiddenLast(calendar, records, key, period, start);
    }
  }

  lemma HiddenLast(calendar: Calendar, records: seq<Record>, key: Key, period: Period, start: int)
    requires records != []
    ensures var last := records[|records| - 1];
      Hidden(calendar, records, key, period, start) <==>
        || Hidden(calendar, records[..|records| - 1], key, period, start)
        || (In(calendar, last, key, period, start) && last.at.second == start && last.at.nanos > 0 && last.amount > 0.0)
  {
    hide In;
    var before := records[..|records| - 1];
    if Hidden(calendar, before, key, period, start) {
      var i :| 0 <= i < |before| && In(calendar, before[i], key, period, start)
        && before[i].at.second == start && before[i].at.nanos > 0 && before[i].amount > 0.0;
      assert records[i] == before[i];
    }
    if Hidden(calendar, records, key, period, start) {
      var i :| 0 <= i < |records| && In(calendar, records[i], key, period, start)
        && records[i].at.second == start && records[i].at.nanos > 0 && records[i].amount > 0.0;
      assert i < |before| ==> before[i] == records[i];
    }
  }

  /** Between its start and any of its instants a period is one. */
  lemma SamePeriod(calendar: Calendar, period: Period, at: Instant, now: Instant)
    requires calendar.Valid() && calendar.Start(period, now) <= at.second <= now.second
    ensures calendar.Start(period, at) == calendar.Start(period, now)
  {
    var day, today := at.second / DAY, now.second / DAY;
    assert calendar.StartDay(period, today) <= day <= today;
  }

  /** When the clock has not gone back, a query finds nothing of a later period. */
  lemma {:induction false} UsedIsCounted(calendar: Calendar, records: seq<Record>, key: Key, period: Period,
          now: Instant)
    requires calendar.Valid() && forall i :: 0 <= i < |records| ==> NotAfter(records[i].at, now)
    ensures Used(records, key, calendar.Start(period, now))
      == Counted(calendar, records, key, period, calendar.Start(period, now))
  {
    hide Counts, Calendar.Start;
    if records != [] {
      var last, start := records[|records| - 1], calendar.Start(period, now);
      UsedIsCounted(calendar, records[..|records| - 1], key, period, now);
      CountsUnlessInFirstSecond(last.at, start);
      if last.at.second >= start {
        SamePeriod(calendar, period, last.at, now);
      }
    }
  }

  lemma {:induction false} RecordedByNow(calendar: Calendar, states: seq<seq<Record>>, operations: seq<Operation>,
          now: Instant)
    requires Run(calendar, states, operations) && Forward(operations, now)
    ensures forall i :: 0 <= i < |states[|operations|]| ==> NotAfter(states[|operations|][i].at, now)
  {
    if operations != [] {
      var last := |operations| - 1;
      RecordedByNow(calendar, states[..|operations|], operations[..last], now);
      hide Grants;
      assert Step(calendar, states[last], operations[last], states[|operations|]);
    }
  }

  /** Once the first second is over, nothing more is hidden. */
  lemma StepHidesNothing(calendar: Calendar, before: seq<Record>, operation: Operation, after: seq<Record>, key: Key,
          period: Period, start: int)
    requires Step(calendar, before, operation, after) && !Hidden(calendar, before, key, period, start)
    requires operation.Reserved? ==> operation.now.second > start
    ensures !Hidden(calendar, after, key, period, start)
  {
    hide Grants, Calendar.Start;
    forall i | 0 <= i < |after| && In(calendar, after[i], key, period, start) && after[i].at.second == start
      && after[i].at.nanos > 0
      ensures after[i].amount <= 0.0
    {
      if i < |before| {
        assert after[i].at == before[i].at && after[i].key == before[i].key && after[i].amount <= before[i].amount;
      }
    }
  }

  lemma {:induction false} ContinuationStays(calendar: Calendar, states: seq<seq<Record>>, operations: seq<Operation>,
          now: Instant, key: Key, period: Period, limit: real, start: int)
    requires limit > 0.0 && now.second > start && Continues(calendar, states, operations, now, key, period, limit)
    requires WithinLimit(calendar, states[0], key, period, limit) && !Hidden(calendar, states[0], key, period, start)
    ensures WithinLimit(calendar, states[|operations|], key, period, limit)
    ensures !Hidden(calendar, states[|operations|], key, period, start)
  {
    if operations != [] {
      var last := |operations| - 1;
      assert Continues(calendar, states[..|operations|], operations[..last], now, key, period, limit);
      ContinuationStays(calendar, states[..|operations|], operations[..last], now, key, period, limit, start);
      hide Hidden, WithinLimit;
      StepKeepsLimit(calendar, states[last], operations[last], states[|operations|], key, period, limit);
      StepHidesNothing(calendar, states[last], operations[last], states[|operations|], key, period, start);
    }
  }

  function OnlyLimit(period: Period, limit: real): Limits {
    match period
    case Daily => Limits(limit, 0.0, 0.0)
    case Weekly => Limits(0.0, limit, 0.0)
    case Monthly => Limits(0.0, 0.0, limit)
  }

  /** All that the limit leaves, reserved now. */
  lemma ReserveTheRest(calendar: Calendar, records: seq<Record>, now: Instant, key: Key, period: Period, limit: real)
    returns (operation: Operation, after: seq<Record>)
    requires limit > 0.0 && Used(records, key, calendar.Start(period, now)) < limit
    ensures operation.Reserved? && operation.now == now && operation.request.key == key
    ensures operation.request.limits.Of(period) == limit && Step(calendar, records, operation, after)
    ensures after == records + [Record(now, key, limit - Used(records, key, calendar.Start(period, now)))]
  {
    var request := Request(key, 0.0, 0.0, OnlyLimit(period, limit));
    var amount := limit - Used(records, key, calendar.Start(period, now));
    hide Used, Calendar.Start;
    assert forall other: Period :: request.limits.Of(other) != 0.0 ==> other == period;
    assert amount == Left(calendar, records, now, request, period);
    operation, after := Reserved(now, request, amount), records + [Record(now, key, amount)];
  }

  /** From a hidden amount one more reservation at most leads past the limit. */
  lemma OverspendNow(calendar: Calendar, records: seq<Record>, now: Instant, key: Key, period: Period, limit: real)
    returns (states: seq<seq<Record>>, operations: seq<Operation>)
    requires calendar.Valid() && limit > 0.0 && NonNegative(records)
    requires forall i :: 0 <= i < |records| ==> NotAfter(records[i].at, now)
    requires Hidden(calendar, records, key, period, calendar.Start(period, now))
      && now.second > calendar.Start(period, now)
    ensures Continues(calendar, states, operations, now, key, period, limit) && states[0] == records
    ensures Spent(calendar, states[|operations|], key, period, calendar.Start(period, now)) > limit
  {
    var start := calendar.Start(period, now);
    SpentUnlessHidden(calendar, records, key, period, start);
    UsedIsCounted(calendar, records, key, period, now);
    if Used(records, key, start) >= limit {
      states, operations := [records], [];
    } else {
      var operation, after := ReserveTheRest(calendar, records, now, key, period, limit);
      states, operations := [records, after], [operation];
      assert after[..|records|] == records;
      hide Step, Hidden, Calendar.Start, Used, Counted;
    }
  }

  // ----- while the first second lasts -------------------------------------------------------

  /** The first amounts settled to nothing, one after the other. */
  lemma {:induction false} SettleFirst(calendar: Calendar, records: seq<Record>, count: nat, now: Instant, key: Key,
          period: Period, limit: real)
    returns (states: seq<seq<Record>>, operations: seq<Operation>)
    requires NonNegative(records) && count <= |records|
    ensures Continues(calendar, states, operations, now, key, period, limit) && states[0] == records
    ensures forall i :: 0 <= i < |operations| ==> operations[i].Settled?
    ensures var after := states[|operations|];
      && |after| == |records| && NonNegative(after)
      && forall i :: 0 <= i < count ==> after[i].amount == 0.0
  {
    if count == 0 {
      states, operations := [records], [];
    } else {
      states, operations := SettleFirst(calendar, records, count - 1, now, key, period, limit);
      var before := states[|operations|];
      var after := before[count - 1 := before[count - 1].(amount := 0.0)];
      states, operations :=
        ContinueOnce(calendar, states, operations, Settled(count - 1, 0.0), after, now, key, period, limit);
    }
  }

  /** One more step at the end of a continuation. */
  lemma ContinueOnce(calendar: Calendar, states: seq<seq<Record>>, operations: seq<Operation>, operation: Operation,
          after: seq<Record>, now: Instant, key: Key, period: Period, limit: real)
    returns (more: seq<seq<Record>>, longer: seq<Operation>)
    requires Continues(calendar, states, operations, now, key, period, limit)
    requires Step(calendar, states[|operations|], operation, after) && LimitedTo([operation], key, period, limit)
    requires operation.Reserved? ==> NotAfter(now, operation.now)
    requires operation.Reserved? ==> forall i :: 0 <= i < |operations| && operations[i].Reserved? ==>
      NotAfter(operations[i].now, operation.now)
    ensures more == states + [after] && longer == operations + [operation]
    ensures Continues(calendar, more, longer, now, key, period, limit) && more[0] == states[0]
  {
    more, longer := states + [after], operations + [operation];
    hide Step;
    assert LimitedTo(longer, key, period, limit) by {
      assert [operation][0] == operation;
    }
  }

  lemma {:induction false} NothingUsed(calendar: Calendar, records: seq<Record>, key: Key, period: Period, start: int)
    requires forall i :: 0 <= i < |records| ==> records[i].amount == 0.0
    ensures Used(records, key, start) == 0.0 && Spent(calendar, records, key, period, start) == 0.0
  {
    if records != [] {
      NothingUsed(calendar, records[..|records| - 1], key, period, start);
    }
  }

  /** The second after a period's start belongs to the period as well. */
  lemma NextSecond(calendar: Calendar, period: Period, now: Instant, nanos: nat)
    requires calendar.Start(period, now) == now.second
    ensures calendar.Start(period, Instant(now.second + 1, nanos)) == now.second
  {
    assert (now.second + 1) / DAY == now.second / DAY;
  }

  /** A reservation strictly inside the first second is not seen as used. */
  lemma ReserveUnseen(calendar: Calendar, records: seq<Record>, now: Instant, key: Key, period: Period, limit: real)
    returns (operation: Operation, after: seq<Record>)
    requires limit > 0.0 && calendar.Start(period, now) == now.second && now.nanos > 0
    requires Used(records, key, now.second) == 0.0
    ensures operation.Reserved? && operation.now == now && LimitedTo([operation], key, period, limit)
    ensures Step(calendar, records, operation, after) && Used(after, key, now.second) == 0.0
    ensures Spent(calendar, after, key, period, now.second) == Spent(calendar, records, key, period, now.second) + limit
  {
    operation, after := ReserveTheRest(calendar, records, now, key, period, limit);
    assert after[..|records|] == records;
    CountsUnlessInFirstSecond(now, now.second);
    hide Step, Counts;
  }

  lemma ReserveSeen(calendar: Calendar, records: seq<Record>, now: Instant, key: Key, period: Period, limit: real,
          start: int)
    returns (operation: Operation, after: seq<Record>)
    requires limit > 0.0 && calendar.Start(period, now) == start && Used(records, key, start) == 0.0
    ensures operation.Reserved? && operation.now == now && LimitedTo([operation], key, period, limit)
    ensures Step(calendar, records, operation, after)
    ensures Spent(calendar, after, key, period, start) == Spent(calendar, records, key, period, start) + limit
  {
    operation, after := ReserveTheRest(calendar, records, now, key, period, limit);
    assert after[..|records|] == records;
    hide Step;
  }

  /** In the first second: settle everything, reserve the limit unseen, and reserve it again. */
  lemma OverspendEarly(calendar: Calendar, records: seq<Record>, now: Instant, key: Key, period: Period, limit: real)
    returns (states: seq<seq<Record>>, operations: seq<Operation>)
    requires limit > 0.0 && NonNegative(records) && calendar.Start(period, now) == now.second
    ensures Continues(calendar, states, operations, now, key, period, limit) && states[0] == records
    ensures Spent(calendar, states[|operations|], key, period, now.second) > limit
  {
    var unseen, seen := Instant(now.second, if now.nanos == 0 then 1 else now.nanos), Instant(now.second + 1, 0);
    assert calendar.Start(period, unseen) == unseen.second;
    NextSecond(calendar, period, now, 0);
    states, operations := SettleFirst(calendar, records, |records|, now, key, period, limit);
    NothingUsed(calendar, states[|operations|], key, period, now.second);
    hide Step, Used, Spent, Continues, Calendar.Start, LimitedTo, NonNegative;
    var first, once := ReserveUnseen(calendar, states[|operations|], unseen, key, period, limit);
    states, operations := ContinueOnce(calendar, states, operations, first, once, now, key, period, limit);
    var second, twice := ReserveSeen(calendar, once, seen, key, period, limit, now.second);
    states, operations := ContinueOnce(calendar, states, operations, second, twice, now, key, period, limit);
  }

  // ----- the two together -------------------------------------------------------------------

  /** While a period lasts, a run whose clock did not go back can still overspend it if and only if its
      first second is not over yet or a positive amount lies strictly inside that second. */
  lemma OverspentExactly(calendar: Calendar, states: seq<seq<Record>>, operations: seq<Operation>, now: Instant,
          key: Key,
          period: Period, limit: real, start: int)
    requires calendar.Valid() && limit > 0.0 && Run(calendar, states, operations)
    requires Forward(operations, now) && LimitedTo(operations, key, period, limit)
    requires calendar.Start(period, now) == start
    ensures CanOverspend(calendar, states[|operations|], now, key, period, limit)
      <==> now.second == start || Hidden(calendar, states[|operations|], key, period, start)
  {
    var records := states[|operations|];
    RunStaysWithin(calendar, states, operations, key, period, limit);
    RecordedByNow(calendar, states, operations, now);
    StartIsNotLater(calendar, period, now);
    if now.second == start {
      var later, more := OverspendEarly(calendar, records, now, key, period, limit);
    } else if Hidden(calendar, records, key, period, start) {
      var later, more := OverspendNow(calendar, records, now, key, period, limit);
    } else {
      forall later, more | Continues(calendar, later, more, now, key, period, limit) && later[0] == records
        ensures Spent(calendar, later[|more|], key, period, start) <= limit
      {
        ContinuationStays(calendar, later, more, now, key, period, limit, start);
        SpentUnlessHidden(calendar, later[|more|], key, period, start);
        assert Counted(calendar, later[|more|], key, period, start) <= limit;
      }
    }
  }
}
