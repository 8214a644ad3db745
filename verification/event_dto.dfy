/**
 * The event record and the Bean Validation constraints declared on its
 * three fields, written out as explicit checks in declaration order.
 */
module EventDto {
  import opened Numbers

  /** One event: milliseconds since the epoch, a decimal `x` and an integer `y`. */
  datatype Event = Event(timestamp: int, x: Decimal, y: int)

  const TIMESTAMP_MIN: int := 0
  const X_MIN: int := 0
  const X_MAX: int := 1
  const X_INTEGER_DIGITS: int := 1
  const X_FRACTION_DIGITS: int := 10
  const Y_MIN: int := 1073741823
  const Y_MAX: int := 2147483647

  const TIMESTAMP_MESSAGE: string := "Timestamp must be a positive integer."
  const X_RANGE_MESSAGE: string := "x must be between 0 and 1."
  const X_DIGITS_MESSAGE: string := "x must have up to 10 decimal places."
  const Y_MIN_MESSAGE: string := "y must be greater than or equal to 1073741823."
  const Y_MAX_MESSAGE: string := "y must be less than or equal to 2147483647."

  /** The record's three properties. */
  datatype Field = Timestamp | X | Y

  /** The property path a violation of `f` carries. */
  function PathOf(f: Field): (path: string)
    ensures |path| >= 1
  {
    match f
    case Timestamp => "timestamp"
    case X => "x"
    case Y => "y"
  }

  /** Different properties have different paths, so keying by property is keying by path. */
  lemma PathsDistinct(f: Field, g: Field)
    ensures PathOf(f) == PathOf(g) <==> f == g
  {
    if f != g {
      assert PathOf(f)[0] != PathOf(g)[0];
    }
  }

  /** One broken constraint: the property, the rejected value as text, and the constraint's message. */
  datatype Violation = Violation(field: Field, invalidValue: string, message: string)

  /** `@Min(0)` on `timestamp`. */
  predicate TimestampOk(e: Event) {
    e.timestamp >= TIMESTAMP_MIN
  }

  /** `@Min(0)` on `x`. */
  predicate XAtLeastMin(x: Decimal) {
    Value(x) >= X_MIN as real
  }

  /** `@Max(1)` on `x`. */
  predicate XAtMostMax(x: Decimal) {
    Value(x) <= X_MAX as real
  }

  /** `@Digits(integer = 1, fraction = 10)` on `x`. */
  predicate XDigitsOk(x: Decimal) {
    IntegerLength(x) <= X_INTEGER_DIGITS && FractionLength(x) <= X_FRACTION_DIGITS
  }

  /** `@Min(1073741823)` on `y`. */
  predicate YAtLeastMin(e: Event) {
    e.y >= Y_MIN
  }

  /** `@Max(2147483647)` on `y`. */
  predicate YAtMostMax(e: Event) {
    e.y <= Y_MAX
  }

  /** An event that satisfies every constraint of the record. */
  predicate ValidEvent(e: Event) {
    && e.timestamp >= 0
    && 0.0 <= Value(e.x) <= 1.0
    && IntegerLength(e.x) <= 1 && FractionLength(e.x) <= 10
    && 1073741823 <= e.y <= 2147483647
  }

  /** How the validator prints the rejected `x`: as `Double.toString` does, with at least one fraction digit. */
  function XText(x: Decimal): string {
    var s := Strip(x);
    FormatDecimal(if s.scale == 0 then Decimal(s.unscaled * 10, 1) else s)
  }

  /** Whether some violation in `vs` is about `field`. */
  predicate Reports(vs: seq<Violation>, field: Field) {
    exists i :: 0 <= i < |vs| && vs[i].field == field
  }

  /** The number of violations in `vs` about `field`. */
  function CountFor(vs: seq<Violation>, field: Field): nat {
    if vs == [] then 0
    else (if vs[0].field == field then 1 else 0) + CountFor(vs[1..], field)
  }

  /** The violations of the constraints on `timestamp`. */
  function TimestampViolations(e: Event): seq<Violation> {
    if TimestampOk(e) then [] else [Violation(Timestamp, IntToString(e.timestamp), TIMESTAMP_MESSAGE)]
  }

  /** The violations of the constraints on `x`, one per failing check. */
  function XViolations(e: Event): seq<Violation> {
    var xText := XText(e.x);
    (if XAtLeastMin(e.x) then [] else [Violation(X, xText, X_RANGE_MESSAGE)])
    + (if XAtMostMax(e.x) then [] else [Violation(X, xText, X_RANGE_MESSAGE)])
    + (if XDigitsOk(e.x) then [] else [Violation(X, xText, X_DIGITS_MESSAGE)])
  }

  /** The violations of the constraints on `y`. */
  function YViolations(e: Event): seq<Violation> {
    (if YAtLeastMin(e) then [] else [Violation(Y, IntToString(e.y), Y_MIN_MESSAGE)])
    + (if YAtMostMax(e) then [] else [Violation(Y, IntToString(e.y), Y_MAX_MESSAGE)])
  }

  /**
   * Every constraint the event breaks, in declaration order: a field is
   * reported whenever one of its checks fails, the field `x` once for each
   * of its failing checks.
   */
  function Violations(e: Event): seq<Violation> {
    TimestampViolations(e) + XViolations(e) + YViolations(e)
  }

  /**
   * Each field's list is about that field alone and is empty exactly when
   * the field's constraints hold; only `x` can break two constraints, and
   * does so exactly when it lies outside `[0, 1]` and also fails `@Digits`.
   */
  lemma FieldViolations(e: Event)
    ensures var t := TimestampViolations(e);
      && (forall i :: 0 <= i < |t| ==> t[i].field == Timestamp)
      && (t == [] <==> e.timestamp >= 0) && |t| <= 1
    ensures var x := XViolations(e);
      && (forall i :: 0 <= i < |x| ==> x[i].field == X)
      && (x == [] <==> 0.0 <= Value(e.x) <= 1.0 && IntegerLength(e.x) <= 1 && FractionLength(e.x) <= 10)
      && (|x| >= 2 <==> !(0.0 <= Value(e.x) <= 1.0) && (IntegerLength(e.x) > 1 || FractionLength(e.x) > 10))
    ensures var y := YViolations(e);
      && (forall i :: 0 <= i < |y| ==> y[i].field == Y)
      && (y == [] <==> 1073741823 <= e.y <= 2147483647) && |y| <= 1
  {
  }

  /** Violations grouped by property path, each group in declaration order. */
  datatype Grouped = Grouped(timestamp: seq<Violation>, x: seq<Violation>, y: seq<Violation>) {
    /** The group of one field. */
    function Of(field: Field): seq<Violation> {
      match field
      case Timestamp => timestamp
      case X => x
      case Y => y
    }
  }

  /** The violations of `e`, grouped by the field they are about. */
  function GroupViolations(e: Event): Grouped {
    Grouped(TimestampViolations(e), XViolations(e), YViolations(e))
  }

  /** Each group holds only violations about its own field, and a field is reported exactly when its group is not empty. */
  lemma GroupViolationsByField(e: Event, field: Field)
    ensures Reports(Violations(e), field) <==> GroupViolations(e).Of(field) != []
    ensures forall i :: 0 <= i < |GroupViolations(e).Of(field)| ==> GroupViolations(e).Of(field)[i].field == field
  {
    ViolationsByField(e);
    FieldViolations(e);
  }

  /** The validator reports nothing exactly for an event that meets every constraint. */
  lemma ViolationsEmptyIffValid(e: Event)
    ensures Violations(e) == [] <==> ValidEvent(e)
  {
    FieldViolations(e);
  }

  /** Each field is reported exactly when one of its own constraints fails. */
  lemma ViolationsByField(e: Event)
    ensures Reports(Violations(e), Timestamp) <==> e.timestamp < 0
    ensures Reports(Violations(e), X)
      <==> !(0.0 <= Value(e.x) <= 1.0) || IntegerLength(e.x) > 1 || FractionLength(e.x) > 10
    ensures Reports(Violations(e), Y) <==> e.y < 1073741823 || e.y > 2147483647
  {
    var t, x, y := TimestampViolations(e), XViolations(e), YViolations(e);
    FieldViolations(e);
    ReportsConcat(t, x, y, Timestamp);
    ReportsConcat(t, x, y, X);
    ReportsConcat(t, x, y, Y);
    ReportsOnly(t, Timestamp);
    ReportsOnly(x, X);
    ReportsOnly(y, Y);
  }

  lemma ReportsOnly(vs: seq<Violation>, field: Field)
    requires forall i :: 0 <= i < |vs| ==> vs[i].field == field
    ensures forall g :: Reports(vs, g) <==> vs != [] && g == field
  {
    if vs != [] {
      assert vs[0].field == field;
    }
  }

  lemma ReportsConcat(t: seq<Violation>, x: seq<Violation>, y: seq<Violation>, field: Field)
    ensures Reports(t + x + y, field) <==> Reports(t, field) || Reports(x, field) || Reports(y, field)
  {
    var all := t + x + y;
    if Reports(all, field) {
      var i :| 0 <= i < |all| && all[i].field == field;
      if i < |t| {
        assert t[i] == all[i];
      } else if i < |t| + |x| {
        assert x[i - |t|] == all[i];
      } else {
        assert y[i - |t| - |x|] == all[i];
      }
    }
    if Reports(t, field) {
      var i :| 0 <= i < |t| && t[i].field == field;
      assert all[i] == t[i];
    }
    if Reports(x, field) {
      var i :| 0 <= i < |x| && x[i].field == field;
      assert all[|t| + i] == x[i];
    }
    if Reports(y, field) {
      var i :| 0 <= i < |y| && y[i].field == field;
      assert all[|t| + |x| + i] == y[i];
    }
  }

  /** The range checks on `x` hold exactly when the integer form `unscaled` lies in `[0, 10^scale]`. */
  lemma XRangeExact(x: Decimal)
    ensures 0.0 <= Value(x) <= 1.0 <==> 0 <= x.unscaled <= Pow10(x.scale)
  {
    DivAtLeast(x.unscaled, Pow10(x.scale), 0);
    DivAtMost(x.unscaled, Pow10(x.scale), 1);
  }

  /** Within `[0, 1]` an `x` always has one integer digit, so `@Digits` can then only fail on the fraction. */
  lemma XInRangeHasOneIntegerDigit(x: Decimal)
    requires 0.0 <= Value(x) <= 1.0
    ensures IntegerLength(x) <= 1
    ensures XDigitsOk(x) <==> FractionLength(x) <= 10
  {
    IntegerLengthMeaning(x);
  }

  /** The number of violations in `vs` all about `field`. */
  lemma {:induction false} CountForSame(vs: seq<Violation>, field: Field)
    requires forall i :: 0 <= i < |vs| ==> vs[i].field == field
    ensures CountFor(vs, field) == |vs|
  {
    if vs != [] {
      CountForSame(vs[1..], field);
    }
  }

  /** The number of violations in `vs` none about `field`. */
  lemma {:induction false} CountForOther(vs: seq<Violation>, field: Field)
    requires forall i :: 0 <= i < |vs| ==> vs[i].field != field
    ensures CountFor(vs, field) == 0
  {
    if vs != [] {
      CountForOther(vs[1..], field);
    }
  }

  /**
   * `x` is the only field that can break two constraints at once: exactly
   * when it lies outside `[0, 1]` and also fails `@Digits`.
   */
  lemma TwoViolationsOnX(e: Event)
    ensures CountFor(Violations(e), Timestamp) <= 1
    ensures CountFor(Violations(e), Y) <= 1
    ensures CountFor(Violations(e), X) >= 2
      <==> !(0.0 <= Value(e.x) <= 1.0) && (IntegerLength(e.x) > 1 || FractionLength(e.x) > 10)
  {
    var t, x, y := TimestampViolations(e), XViolations(e), YViolations(e);
    FieldViolations(e);
    forall f: Field
      ensures CountFor(Violations(e), f) == CountFor(t, f) + CountFor(x, f) + CountFor(y, f)
    {
      CountForAppend(t, x, f);
      CountForAppend(t + x, y, f);
    }
    CountForSame(t, Timestamp);
    CountForOther(x, Timestamp);
    CountForOther(y, Timestamp);
    CountForOther(t, X);
    CountForSame(x, X);
    CountForOther(y, X);
    CountForOther(t, Y);
    CountForOther(x, Y);
    CountForSame(y, Y);
  }

  lemma {:induction false} CountForAppend(a: seq<Violation>, b: seq<Violation>, field: Field)
    ensures CountFor(a + b, field) == CountFor(a, field) + CountFor(b, field)
  {
    if a != [] {
      assert (a + b)[1..] == a[1..] + b;
      CountForAppend(a[1..], b, field);
    } else {
      assert a + b == b;
    }
  }
}
