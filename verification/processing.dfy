/**
 * The per-line decision of the event service: parse a line into an
 * event, reject it as stale, check its constraints, and render the
 * outcome; plus the batch view of a whole payload.
 */
module Processing {
  import opened Wrappers
  import opened JavaText
  import opened Numbers
  import opened EventDto
  import opened Window

  const SUCCESS_MESSAGE: string := "Successfully processed"
  const INVALID_FORMAT_MESSAGE: string := "Invalid event data format."
  const TOO_OLD_MESSAGE: string := "Event timestamp is too old and cannot be processed."
  const MINUTE_IN_MILLIS: int := 60 * 1000

  /**
   * `parseEvent`: the trimmed line split on `,` must give exactly three
   * fields, read as a `long`, a `double` and an `int`.
   */
  function ParseEvent(line: string): (r: Option<Event>)
    ensures r.Some? ==> LONG_MIN <= r.value.timestamp <= LONG_MAX && INT_MIN <= r.value.y <= INT_MAX
    ensures |JavaSplit(Trim(line), ',')| != 3 ==> r.None?
  {
    var parts := JavaSplit(Trim(line), ',');
    if |parts| != 3 then None
    else
      match (ParseInteger(parts[0], LONG_MIN, LONG_MAX), ParseDecimal(parts[1]), ParseInteger(parts[2], INT_MIN, INT_MAX))
      case (Some(t), Some(x), Some(y)) => Some(Event(t, x, y))
      case _ => None
  }

  /** The line `timestamp,x,y` that describes an event. */
  function FormatLine(e: Event): string {
    IntToString(e.timestamp) + "," + FormatDecimal(e.x) + "," + IntToString(e.y)
  }

  lemma IntToStringShape(n: int)
    ensures ',' !in IntToString(n) && ';' !in IntToString(n)
    ensures !IsTrimmable(IntToString(n)[0]) && !IsTrimmable(IntToString(n)[|IntToString(n)| - 1])
  {
    var s := NatToString(if n < 0 then -n else n);
    NatToStringDigits(if n < 0 then -n else n);
    assert IsDigit(s[|s| - 1]);
    assert forall i :: 0 <= i < |s| ==> IsDigit(s[i]);
    if n < 0 {
      assert IntToString(n) == "-" + s;
    }
  }

  lemma FormatDecimalPlain(d: Decimal)
    ensures ',' !in FormatDecimal(d) && ';' !in FormatDecimal(d)
  {
    var whole, frac := FormatDecimalParts(d);
    assert forall i :: 0 <= i < |whole| ==> IsDigit(whole[i]);
    assert forall i :: 0 <= i < |frac| ==> IsDigit(frac[i]);
  }

  /** Every event whose timestamp fits a `long` and whose `y` fits an `int` is read back from its line. */
  lemma ParseEventRoundTrip(e: Event)
    requires LONG_MIN <= e.timestamp <= LONG_MAX && INT_MIN <= e.y <= INT_MAX
    ensures ParseEvent(FormatLine(e)) == Some(e)
  {
    FormatLineFields(e);
    IntegerRoundTrip(e.timestamp, LONG_MIN, LONG_MAX);
    IntegerRoundTrip(e.y, INT_MIN, INT_MAX);
    DecimalRoundTrip(e.x);
  }

  /** The line of an event has no surrounding blanks and splits on `,` into the texts of its three fields. */
  lemma FormatLineFields(e: Event)
    ensures JavaSplit(Trim(FormatLine(e)), ',') == [IntToString(e.timestamp), FormatDecimal(e.x), IntToString(e.y)]
  {
    var a, b, c := IntToString(e.timestamp), FormatDecimal(e.x), IntToString(e.y);
    IntToStringShape(e.timestamp);
    IntToStringShape(e.y);
    FormatDecimalPlain(e.x);
    var line := FormatLine(e);
    assert line == a + "," + b + "," + c;
    assert Trim(line) == line by {
      assert line[0] == a[0];
      assert line[|line| - 1] == c[|c| - 1];
    }
    assert Join([a, b, c], [',']) == line by {
      assert Join([b, c], [',']) == b + [','] + c;
    }
    JavaSplitJoin([a, b, c], ',');
  }

  /** One entry of the map `validateEvent` builds: a property path and the text of its violation. */
  datatype FieldError = FieldError(field: Field, detail: string)

  /** The order in which a `HashMap` holding the keys `x`, `y` and `timestamp` lists them. */
  const FIELD_ORDER: seq<Field> := [X, Y, Timestamp]

  /** The text stored for one violation: its rejected value and its message. */
  function Detail(v: Violation): string {
    "Value " + v.invalidValue + " is invalid: " + v.message
  }

  /** Whether some entry of `errs` is about `field`. */
  predicate Names(errs: seq<FieldError>, field: Field) {
    exists i :: 0 <= i < |errs| && errs[i].field == field
  }

  /** The entry for `field`: the first violation of its group, or nothing when the group is empty. */
  function EntryFor(g: Grouped, field: Field): seq<FieldError> {
    var vs := g.Of(field);
    if vs == [] then [] else [FieldError(field, Detail(vs[0]))]
  }

  /** One entry per field of `fields` whose group is not empty, in the order of `fields`. */
  function CollectErrors(g: Grouped, fields: seq<Field>): seq<FieldError> {
    if fields == [] then [] else EntryFor(g, fields[0]) + CollectErrors(g, fields[1..])
  }

  /** `CollectErrors` has at most one entry per field of `fields`, each about one of them. */
  lemma {:induction false} CollectErrorsFields(g: Grouped, fields: seq<Field>)
    ensures |CollectErrors(g, fields)| <= |fields|
    ensures forall i :: 0 <= i < |CollectErrors(g, fields)| ==> CollectErrors(g, fields)[i].field in fields
  {
    if fields != [] {
      var head := EntryFor(g, fields[0]);
      var rest := CollectErrors(g, fields[1..]);
      CollectErrorsFields(g, fields[1..]);
      var errs := head + rest;
      forall i | 0 <= i < |errs|
        ensures errs[i].field in fields
      {
        if i >= |head| {
          assert errs[i] == rest[i - |head|];
        }
      }
    }
  }

  /** `CollectErrors` names a field exactly when it is one of `fields` and its group is not empty. */
  lemma {:induction false} CollectErrorsNames(g: Grouped, fields: seq<Field>)
    ensures forall f :: Names(CollectErrors(g, fields), f) <==> f in fields && g.Of(f) != []
  {
    if fields != [] {
      var head := EntryFor(g, fields[0]);
      var rest := CollectErrors(g, fields[1..]);
      CollectErrorsNames(g, fields[1..]);
      var errs := CollectErrors(g, fields);
      assert errs == head + rest;
      forall f
        ensures Names(errs, f) <==> f in fields && g.Of(f) != []
      {
        if Names(errs, f) {
          var i :| 0 <= i < |errs| && errs[i].field == f;
          if i >= |head| {
            assert rest[i - |head|] == errs[i];
            assert Names(rest, f);
          }
        }
        if f in fields && g.Of(f) != [] {
          if f == fields[0] {
            assert errs[0].field == f;
          } else {
            assert f in fields[1..];
            var i :| 0 <= i < |rest| && rest[i].field == f;
            assert errs[|head| + i] == rest[i];
          }
        }
      }
    }
  }

  /** No two entries of `errs` name the same field. */
  predicate DistinctFields(errs: seq<FieldError>)
  {
    forall i, j :: 0 <= i < j < |errs| ==> errs[i].field != errs[j].field
  }

  /** `CollectErrors` names each field at most once when `fields` has no repeats. */
  lemma {:induction false} CollectErrorsDistinct(g: Grouped, fields: seq<Field>)
    requires forall i, j :: 0 <= i < j < |fields| ==> fields[i] != fields[j]
    ensures DistinctFields(CollectErrors(g, fields))
  {
    if fields != [] {
      var head := EntryFor(g, fields[0]);
      var rest := CollectErrors(g, fields[1..]);
      CollectErrorsDistinct(g, fields[1..]);
      CollectErrorsFields(g, fields[1..]);
      assert forall k :: 0 <= k < |rest| ==> rest[k].field != fields[0] by {
        forall k | 0 <= k < |rest|
          ensures rest[k].field != fields[0]
        {
          var m :| 0 <= m < |fields[1..]| && fields[1..][m] == rest[k].field;
          assert fields[m + 1] == fields[1..][m];
        }
      }
      DistinctFieldsCons(head, rest, fields[0]);
    }
  }

  /** At most one entry about `f`, followed by distinct entries none of which is about `f`, are distinct. */
  lemma DistinctFieldsCons(head: seq<FieldError>, rest: seq<FieldError>, f: Field)
    requires |head| <= 1 && forall k :: 0 <= k < |head| ==> head[k].field == f
    requires DistinctFields(rest) && forall k :: 0 <= k < |rest| ==> rest[k].field != f
    ensures DistinctFields(head + rest)
  {
    var errs := head + rest;
    forall i, j | 0 <= i < j < |errs|
      ensures errs[i].field != errs[j].field
    {
      if i >= |head| {
        assert errs[i] == rest[i - |head|] && errs[j] == rest[j - |head|];
      } else {
        assert errs[i] == head[0] && errs[j] == rest[j - 1];
      }
    }
  }

  /** The first field of `fields` that `vs` reports more than once, if any. */
  function DuplicateField(vs: seq<Violation>, fields: seq<Field>): (r: Option<Field>)
    ensures r.Some? ==> r.value in fields && CountFor(vs, r.value) >= 2
    ensures r.None? ==> forall f :: f in fields ==> CountFor(vs, f) <= 1
  {
    if fields == [] then None
    else if CountFor(vs, fields[0]) >= 2 then Some(fields[0])
    else DuplicateField(vs, fields[1..])
  }

  lemma FieldOrderDistinct()
    ensures forall i, j :: 0 <= i < j < |FIELD_ORDER| ==> FIELD_ORDER[i] != FIELD_ORDER[j]
    ensures forall f: Field :: f in FIELD_ORDER
  {
    forall f: Field
      ensures f in FIELD_ORDER
    {
      assert f == FIELD_ORDER[0] || f == FIELD_ORDER[1] || f == FIELD_ORDER[2];
    }
  }

  /**
   * `validateEvent` with one entry per violated field: no result for a
   * valid event, otherwise each violated field once, in `HashMap` order,
   * with the first of its violations in declaration order.
   */
  function ValidateEvent(e: Event): Option<seq<FieldError>> {
    var vs := Violations(e);
    if vs == [] then None else Some(CollectErrors(GroupViolations(e), FIELD_ORDER))
  }

  /** `ValidateEvent` has nothing to report exactly for an event that meets every constraint. */
  lemma ValidateEventNoneIffValid(e: Event)
    ensures ValidateEvent(e).None? <==> ValidEvent(e)
  {
    ViolationsEmptyIffValid(e);
  }

  /**
   * The fields `ValidateEvent` names are exactly the violated ones, each
   * once, and an invalid event names at least one.
   */
  lemma ValidateEventOnePerField(e: Event)
    requires !ValidEvent(e)
    ensures ValidateEvent(e).Some?
    ensures var errs := ValidateEvent(e).value;
      && |errs| >= 1
      && DistinctFields(errs)
      && (forall f :: Names(errs, f) <==> f in FIELD_ORDER && Reports(Violations(e), f))
  {
    var vs := Violations(e);
    ViolationsEmptyIffValid(e);
    var g := GroupViolations(e);
    CollectErrorsNames(g, FIELD_ORDER);
    FieldOrderDistinct();
    CollectErrorsDistinct(g, FIELD_ORDER);
    forall f
      ensures Reports(vs, f) <==> g.Of(f) != []
    {
      GroupViolationsByField(e, f);
    }
    assert Reports(vs, vs[0].field);
    assert Names(CollectErrors(g, FIELD_ORDER), vs[0].field);
  }

  /** The failure `Collectors.toMap` raises when two values arrive for one key. */
  datatype Crash = DuplicateKey(field: Field)

  /**
   * `validateEvent` as written: collecting the violations with
   * `Collectors.toMap` and no merge function fails on the first property
   * path that carries two violations.
   */
  function ValidateEventAsWritten(e: Event): (r: Result<Option<seq<FieldError>>, Crash>)
  {
    var vs := Violations(e);
    if vs == [] then Success(None)
    else
      match DuplicateField(vs, FIELD_ORDER)
      case Some(f) => Failure(DuplicateKey(f))
      case None => Success(Some(CollectErrors(GroupViolations(e), FIELD_ORDER)))
  }

  /**
   * The code as written fails exactly for an `x` outside `[0, 1]` that also
   * breaks `@Digits`, and agrees with `ValidateEvent` everywhere else.
   */
  lemma AsWrittenFailsOnlyOnDoubleX(e: Event)
    ensures ValidateEventAsWritten(e).Failure?
      <==> !(0.0 <= Value(e.x) <= 1.0) && (IntegerLength(e.x) > 1 || FractionLength(e.x) > 10)
    ensures ValidateEventAsWritten(e).Success? ==> ValidateEventAsWritten(e).value == ValidateEvent(e)
  {
    TwoViolationsOnX(e);
    var vs := Violations(e);
    if CountFor(vs, X) >= 2 {
      assert vs != [];
    }
  }

  /**
   * The line `1000,12.5,50` (in the window for a clock reading of 1000):
   * `x = 12.5` breaks both `@Max(1)` and `@Digits(integer = 1)`, so the
   * code as written fails instead of reporting the line, while the
   * corrected validation reports `x` once and `y` once.
   */
  lemma DuplicateKeyCounterexample()
    ensures ParseEvent("1000,12.5,50") == Some(Event(1000, Decimal(125, 1), 50))
    ensures ValidateEventAsWritten(Event(1000, Decimal(125, 1), 50)) == Failure(DuplicateKey(X))
    ensures ValidateEvent(Event(1000, Decimal(125, 1), 50)).Some?
    ensures var errs := ValidateEvent(Event(1000, Decimal(125, 1), 50)).value;
      |errs| == 2 && errs[0].field == X && errs[1].field == Y
  {
    var e := Event(1000, Decimal(125, 1), 50);
    CounterexampleLine(e);
    CounterexampleBreaksTwice(e);
    CounterexampleCorrected(e);
  }

  lemma CounterexampleLine(e: Event)
    requires e == Event(1000, Decimal(125, 1), 50)
    ensures ParseEvent("1000,12.5,50") == Some(e)
  {
    TimestampText();
    YText();
    XLineText();
    var line := FormatLine(e);
    assert line == "1000" + "," + "12.5" + "," + "50";
    assert line == "1000,12.5,50";
    ParseEventRoundTrip(e);
  }

  lemma TimestampText()
    ensures IntToString(1000) == "1000"
  {
    assert NatToString(1) == "1";
    assert NatToString(10) == "10";
    assert NatToString(100) == "100";
    assert NatToString(1000) == "1000";
  }

  lemma YText()
    ensures IntToString(50) == "50"
  {
    assert NatToString(5) == "5";
    assert NatToString(50) == "50";
  }

  lemma XLineText()
    ensures FormatDecimal(Decimal(125, 1)) == "12.5"
  {
    assert NatToString(1) == "1";
    assert NatToString(12) == "12";
    assert NatToString(125) == "125";
    var digits := PadZeros(NatToString(125), 2);
    assert digits == "125";
    assert digits[..2] == "12" && digits[2..] == "5";
  }

  /** `12.5` lies above 1 and has two integer digits. */
  lemma CounterexampleX(e: Event)
    requires e == Event(1000, Decimal(125, 1), 50)
    ensures Value(e.x) > 1.0 && IntegerLength(e.x) == 2 && FractionLength(e.x) == 1
  {
    XRangeExact(e.x);
    assert Strip(e.x) == e.x;
    assert DigitCount(125) == 3;
  }

  lemma CounterexampleBreaksTwice(e: Event)
    requires e == Event(1000, Decimal(125, 1), 50)
    ensures ValidateEventAsWritten(e) == Failure(DuplicateKey(X))
  {
    CounterexampleX(e);
    TwoViolationsOnX(e);
    var vs := Violations(e);
    assert vs != [];
    assert DuplicateField(vs, FIELD_ORDER) == Some(X);
  }

  lemma CounterexampleCorrected(e: Event)
    requires e == Event(1000, Decimal(125, 1), 50)
    ensures ValidateEvent(e).Some?
    ensures var errs := ValidateEvent(e).value;
      |errs| == 2 && errs[0].field == X && errs[1].field == Y
  {
    var vs := Violations(e);
    assert Reports(vs, X) && Reports(vs, Y) && !Reports(vs, Timestamp) by {
      CounterexampleX(e);
      ViolationsByField(e);
    }
    ValidateEventXAndY(e);
  }

  /** An event that breaks the rules for `x` and `y` but not for `timestamp` gets the entry for `x`, then the one for `y`. */
  lemma ValidateEventXAndY(e: Event)
    requires Reports(Violations(e), X) && Reports(Violations(e), Y) && !Reports(Violations(e), Timestamp)
    ensures ValidateEvent(e).Some?
    ensures var errs := ValidateEvent(e).value;
      |errs| == 2 && errs[0].field == X && errs[1].field == Y
  {
    var vs := Violations(e);
    assert vs != [];
    var g := GroupViolations(e);
    CollectErrorsInFieldOrder(g);
    GroupViolationsByField(e, X);
    GroupViolationsByField(e, Y);
    GroupViolationsByField(e, Timestamp);
  }

  /** `CollectErrors` over `FIELD_ORDER`: the entry for `x`, then for `y`, then for `timestamp`. */
  lemma CollectErrorsInFieldOrder(g: Grouped)
    ensures CollectErrors(g, FIELD_ORDER) == EntryFor(g, X) + EntryFor(g, Y) + EntryFor(g, Timestamp)
  {
    assert FIELD_ORDER[1..] == [Y, Timestamp];
    assert FIELD_ORDER[1..][1..] == [Timestamp];
    assert [Timestamp][1..] == [];
    var t := EntryFor(g, Timestamp);
    assert CollectErrors(g, [Timestamp]) == t + [] == t;
  }

  /** One entry of the joined text: the property path, a colon and a blank, then the detail. */
  function EntryText(fe: FieldError): string {
    PathOf(fe.field) + ": " + fe.detail
  }

  /** `formatValidationErrors`: each entry as `field: detail`, joined by `"; "`. */
  function FormatValidationErrors(errs: seq<FieldError>): string {
    Join(seq(|errs|, i requires 0 <= i < |errs| => PathOf(errs[i].field) + ": " + errs[i].detail), "; ")
  }

  /** The joined text opens with the first entry's field name and a colon. */
  lemma FormatValidationErrorsStart(errs: seq<FieldError>)
    requires |errs| >= 1
    ensures var text := FormatValidationErrors(errs);
      |text| > |PathOf(errs[0].field)| && text[..|PathOf(errs[0].field)| + 1] == PathOf(errs[0].field) + ":"
  {
    var pieces := seq(|errs|, i requires 0 <= i < |errs| => PathOf(errs[i].field) + ": " + errs[i].detail);
    var text := FormatValidationErrors(errs);
    assert text[..|pieces[0]|] == pieces[0];
  }

  /**
   * Cutting the joined text at every `;` gives back the entries in order,
   * each after the first behind the blank of its separator, as long as no
   * detail holds a `;`.
   */
  lemma FormatValidationErrorsSplit(errs: seq<FieldError>)
    requires |errs| >= 1
    requires forall i :: 0 <= i < |errs| ==> ';' !in errs[i].detail
    ensures var pieces := SplitAll(FormatValidationErrors(errs), ';');
      && |pieces| == |errs|
      && pieces[0] == EntryText(errs[0])
      && forall i :: 1 <= i < |errs| ==> pieces[i] == " " + EntryText(errs[i])
  {
    var texts := seq(|errs|, i requires 0 <= i < |errs| => PathOf(errs[i].field) + ": " + errs[i].detail);
    assert "; " == [';', ' '];
    JoinSecondChar(texts, ';', ' ');
    var cut := [texts[0]] + Prefixed(texts[1..], ' ');
    forall i | 0 <= i < |errs|
      ensures ';' !in EntryText(errs[i])
    {
      assert ';' !in PathOf(errs[i].field) by {
        match errs[i].field
        case Timestamp =>
        case X =>
        case Y =>
      }
    }
    forall i | 0 <= i < |cut|
      ensures ';' !in cut[i]
    {
      if i > 0 {
        assert cut[i] == " " + texts[1..][i - 1];
      }
    }
    SplitAllJoin(cut, ';');
  }

  /** No constraint message holds a `;`. */
  lemma MessagesPlain()
    ensures ';' !in TIMESTAMP_MESSAGE && ';' !in X_RANGE_MESSAGE && ';' !in X_DIGITS_MESSAGE
    ensures ';' !in Y_MIN_MESSAGE && ';' !in Y_MAX_MESSAGE
  {
    TimestampMessagePlain();
    XRangeMessagePlain();
    XDigitsMessagePlain();
    YMinMessagePlain();
    YMaxMessagePlain();
  }

  // One message per lemma keeps each proof small; `Y_MIN_MESSAGE` is cut in two first.

  lemma TimestampMessagePlain()
    ensures ';' !in TIMESTAMP_MESSAGE
  {
  }

  lemma XRangeMessagePlain()
    ensures ';' !in X_RANGE_MESSAGE
  {
  }

  lemma XDigitsMessagePlain()
    ensures ';' !in X_DIGITS_MESSAGE
  {
  }

  lemma YMaxMessagePlain()
    ensures ';' !in Y_MAX_MESSAGE
  {
  }

  lemma YMinMessagePlain()
    ensures ';' !in Y_MIN_MESSAGE
  {
    assert Y_MIN_MESSAGE == "y must be greater than or equal to " + "1073741823.";
  }

  /** The text stored for a violation holds no `;`: rejected values are digits, signs and points, and no message has one. */
  lemma DetailPlain(e: Event, f: Field, k: nat)
    requires k < |GroupViolations(e).Of(f)|
    ensures ';' !in Detail(GroupViolations(e).Of(f)[k])
  {
    var v := GroupViolations(e).Of(f)[k];
    MessagesPlain();
    assert ';' !in v.invalidValue && ';' !in v.message by {
      match f
      case Timestamp =>
        IntToStringShape(e.timestamp);
        assert v == Violation(Timestamp, IntToString(e.timestamp), TIMESTAMP_MESSAGE);
      case X =>
        var s := Strip(e.x);
        FormatDecimalPlain(if s.scale == 0 then Decimal(s.unscaled * 10, 1) else s);
        assert v.invalidValue == XText(e.x);
        assert v.message == X_RANGE_MESSAGE || v.message == X_DIGITS_MESSAGE;
      case Y =>
        IntToStringShape(e.y);
        assert v.invalidValue == IntToString(e.y);
        assert v.message == Y_MIN_MESSAGE || v.message == Y_MAX_MESSAGE;
    }
    assert Detail(v) == "Value " + v.invalidValue + " is invalid: " + v.message;
  }

  /** Entries collected from groups whose texts hold no `;` hold none either. */
  lemma {:induction false} CollectErrorsPlain(g: Grouped, fields: seq<Field>)
    requires forall f: Field, k :: 0 <= k < |g.Of(f)| ==> ';' !in Detail(g.Of(f)[k])
    ensures forall i :: 0 <= i < |CollectErrors(g, fields)| ==> ';' !in CollectErrors(g, fields)[i].detail
  {
    if fields != [] {
      CollectErrorsPlain(g, fields[1..]);
      var head := EntryFor(g, fields[0]);
      var rest := CollectErrors(g, fields[1..]);
      var errs := CollectErrors(g, fields);
      assert errs == head + rest;
      forall i | 0 <= i < |errs|
        ensures ';' !in errs[i].detail
      {
        if i >= |head| {
          assert errs[i] == rest[i - |head|];
        }
      }
    }
  }

  /**
   * The message for an invalid event, cut at every `;`, gives back its
   * entries in order, one per violated field.
   */
  lemma RejectionMessagePieces(e: Event)
    requires !ValidEvent(e)
    ensures ValidateEvent(e).Some?
    ensures var errs := ValidateEvent(e).value;
      var pieces := SplitAll(FormatValidationErrors(errs), ';');
      && |pieces| == |errs| >= 1
      && pieces[0] == EntryText(errs[0])
      && forall i :: 1 <= i < |errs| ==> pieces[i] == " " + EntryText(errs[i])
  {
    ValidateEventOnePerField(e);
    var g := GroupViolations(e);
    forall f: Field, k | 0 <= k < |g.Of(f)|
      ensures ';' !in Detail(g.Of(f)[k])
    {
      DetailPlain(e, f, k);
    }
    CollectErrorsPlain(g, FIELD_ORDER);
    FormatValidationErrorsSplit(ValidateEvent(e).value);
  }

  /** What `processLine` decides for one line. */
  datatype LineOutcome = Accepted(event: Event) | Malformed | TooOld | Rejected(errors: seq<FieldError>)

  /**
   * `processLine` without its call to `addEvent`: a line that does not
   * parse is malformed; a parsed event older than the window is too old,
   * whatever its fields; otherwise it is rejected with its violations or accepted.
   */
  function Judge(line: string, now: int): LineOutcome {
    match ParseEvent(line)
    case None => Malformed
    case Some(e) =>
      if e.timestamp < now - MINUTE_IN_MILLIS then TooOld
      else match ValidateEvent(e)
        case Some(errs) => Rejected(errs)
        case None => Accepted(e)
  }

  /** A rejected line carries at least one error. */
  lemma RejectionHasErrors(line: string, now: int)
    ensures Judge(line, now).Rejected? ==> |Judge(line, now).errors| >= 1
  {
    if ParseEvent(line).Some? && !ValidEvent(ParseEvent(line).value) {
      ValidateEventOnePerField(ParseEvent(line).value);
    }
  }

  /**
   * The four outcomes of a line: malformed exactly when it does not parse,
   * too old exactly when it parses to an event before the window, accepted
   * exactly when it parses to an event inside the window that meets every
   * constraint, and otherwise rejected with at least one error.
   */
  lemma JudgeCases(line: string, now: int)
    ensures var o := Judge(line, now);
      && (o.Malformed? <==> ParseEvent(line).None?)
      && (o.TooOld? <==> ParseEvent(line).Some? && ParseEvent(line).value.timestamp < now - MINUTE_IN_MILLIS)
      && (o.Accepted? <==> (ParseEvent(line).Some? && ParseEvent(line).value.timestamp >= now - MINUTE_IN_MILLIS
                            && ValidEvent(ParseEvent(line).value)))
      && (o.Accepted? ==> o.event == ParseEvent(line).value)
      && (o.Rejected? ==> |o.errors| >= 1 && o.errors == ValidateEvent(ParseEvent(line).value).value)
  {
    if ParseEvent(line).Some? {
      ViolationsEmptyIffValid(ParseEvent(line).value);
      if !ValidEvent(ParseEvent(line).value) {
        ValidateEventOnePerField(ParseEvent(line).value);
      }
    }
  }

  /** The string `processLine` returns for an outcome. */
  function OutcomeMessage(o: LineOutcome): string {
    match o
    case Accepted(_) => SUCCESS_MESSAGE
    case Malformed => INVALID_FORMAT_MESSAGE
    case TooOld => TOO_OLD_MESSAGE
    case Rejected(errs) => FormatValidationErrors(errs)
  }

  /** A rejection message opens with a field name, so it is never the success message. */
  lemma RejectionNotSuccess(errs: seq<FieldError>)
    requires |errs| >= 1
    ensures FormatValidationErrors(errs) != SUCCESS_MESSAGE
  {
    FormatValidationErrorsStart(errs);
    var f := PathOf(errs[0].field);
    var text := FormatValidationErrors(errs);
    assert text[0] == (f + ":")[0] == f[0];
    assert f[0] != 'S';
  }

  /** The message of an outcome is the success message exactly when the outcome is an acceptance. */
  lemma OutcomeMessageSuccess(o: LineOutcome)
    requires o.Rejected? ==> |o.errors| >= 1
    ensures OutcomeMessage(o) == SUCCESS_MESSAGE <==> o.Accepted?
  {
    match o
    case Accepted(_) =>
    case Malformed =>
      assert |INVALID_FORMAT_MESSAGE| != |SUCCESS_MESSAGE|;
    case TooOld =>
      assert |TOO_OLD_MESSAGE| != |SUCCESS_MESSAGE|;
    case Rejected(errs) =>
      RejectionNotSuccess(errs);
  }

  /** A line's message is the success message exactly when the line was accepted. */
  lemma SuccessMessageIffAccepted(line: string, now: int)
    ensures OutcomeMessage(Judge(line, now)) == SUCCESS_MESSAGE <==> Judge(line, now).Accepted?
  {
    JudgeCases(line, now);
    OutcomeMessageSuccess(Judge(line, now));
  }

  /** The outcome of every line of a batch, line `i` (counting from 0) judged at `clock(i + 1)`. */
  function Outcomes(lines: seq<string>, clock: int -> int): (r: seq<LineOutcome>)
    ensures |r| == |lines|
  {
    OutcomesUpTo(lines, clock, |lines|)
  }

  /** The outcomes of the first `n` lines. */
  function OutcomesUpTo(lines: seq<string>, clock: int -> int, n: nat): (r: seq<LineOutcome>)
    requires n <= |lines|
    ensures |r| == n
  {
    if n == 0 then [] else OutcomesUpTo(lines, clock, n - 1) + [Judge(lines[n - 1], clock(n))]
  }

  /** Line `i` among the first `n` keeps its own outcome, whatever lines follow it. */
  lemma {:induction false} OutcomesUpToAt(lines: seq<string>, clock: int -> int, n: nat, i: nat)
    requires i < n <= |lines|
    ensures OutcomesUpTo(lines, clock, n)[i] == Judge(lines[i], clock(i + 1))
  {
    var prefix := OutcomesUpTo(lines, clock, n - 1);
    assert OutcomesUpTo(lines, clock, n) == prefix + [Judge(lines[n - 1], clock(n))];
    if i < n - 1 {
      OutcomesUpToAt(lines, clock, n - 1, i);
      assert OutcomesUpTo(lines, clock, n)[i] == prefix[i];
    }
  }

  /** The outcome of line `i` is that line judged on its own, at the clock reading for its number. */
  lemma OutcomesAt(lines: seq<string>, clock: int -> int, i: nat)
    requires i < |lines|
    ensures Outcomes(lines, clock)[i] == Judge(lines[i], clock(i + 1))
  {
    OutcomesUpToAt(lines, clock, |lines|, i);
  }

  /** Every rejection among the outcomes of a batch carries at least one error. */
  lemma OutcomesRejectWithErrors(lines: seq<string>, clock: int -> int)
    ensures forall i :: 0 <= i < |lines| && Outcomes(lines, clock)[i].Rejected? ==> |Outcomes(lines, clock)[i].errors| >= 1
  {
    forall i | 0 <= i < |lines|
      ensures Outcomes(lines, clock)[i].Rejected? ==> |Outcomes(lines, clock)[i].errors| >= 1
    {
      RejectionHasErrors(lines[i], clock(i + 1));
      OutcomesAt(lines, clock, i);
    }
  }

  /** The map `validateAndProcessEvents` returns: line number to message, reading the clock per line. */
  function ResultMap(lines: seq<string>, clock: int -> int): map<int, string> {
    ResultsUpTo(Outcomes(lines, clock), |lines|)
  }

  /** The messages of the first `n` outcomes keyed by line number, counting from 1. */
  function ResultsUpTo(outcomes: seq<LineOutcome>, n: nat): map<int, string>
    requires n <= |outcomes|
  {
    if n == 0 then map[]
    else ResultsUpTo(outcomes, n - 1)[n := OutcomeMessage(outcomes[n - 1])]
  }

  /** The line numbers `1..n`. */
  function LineNumbers(n: nat): (r: set<int>)
    ensures forall i :: i in r <==> 1 <= i <= n
    ensures |r| == n
  {
    if n == 0 then {} else LineNumbers(n - 1) + {n}
  }

  /** Each of the first `n` lines adds its own key, so the keys are exactly `1..n`. */
  lemma {:induction false} ResultsUpToKeys(outcomes: seq<LineOutcome>, n: nat)
    requires n <= |outcomes|
    ensures forall k :: k in ResultsUpTo(outcomes, n) <==> 1 <= k <= n
    ensures ResultsUpTo(outcomes, n).Keys == LineNumbers(n)
    ensures |ResultsUpTo(outcomes, n)| == n
  {
    if n > 0 {
      ResultsUpToKeys(outcomes, n - 1);
    }
    assert ResultsUpTo(outcomes, n).Keys == LineNumbers(n);
  }

  /** Line `k` keeps the message of its own outcome, whatever lines follow it. */
  lemma {:induction false} ResultsUpToValue(outcomes: seq<LineOutcome>, n: nat, k: int)
    requires 1 <= k <= n <= |outcomes|
    ensures k in ResultsUpTo(outcomes, n) && ResultsUpTo(outcomes, n)[k] == OutcomeMessage(outcomes[k - 1])
  {
    if k < n {
      ResultsUpToValue(outcomes, n - 1, k);
    }
  }

  /** The events of the accepted outcomes among the first `n`, in line order. */
  function AcceptedEvents(outcomes: seq<LineOutcome>, n: nat): seq<Event>
    requires n <= |outcomes|
  {
    if n == 0 then []
    else AcceptedEvents(outcomes, n - 1) + (if outcomes[n - 1].Accepted? then [outcomes[n - 1].event] else [])
  }

  /** The deque after a line with outcome `o`: its event inserted when it was accepted, otherwise as it was. */
  function AfterLine(s: seq<Event>, o: LineOutcome): seq<Event> {
    if o.Accepted? then Insert(s, o.event) else s
  }

  /** Processing line `n + 1` inserts its event exactly when the line is accepted. */
  lemma AcceptedEventsStep(s: seq<Event>, outcomes: seq<LineOutcome>, n: nat)
    requires n < |outcomes|
    ensures InsertAll(s, AcceptedEvents(outcomes, n + 1)) == AfterLine(InsertAll(s, AcceptedEvents(outcomes, n)), outcomes[n])
  {
    var o := outcomes[n];
    var es := AcceptedEvents(outcomes, n);
    if o.Accepted? {
      var added := es + [o.event];
      assert added[..|added| - 1] == es;
    } else {
      assert es + [] == es;
    }
  }

  /** The messages of the first `n` outcomes depend on nothing after them. */
  lemma {:induction false} ResultsUpToPrefix(a: seq<LineOutcome>, b: seq<LineOutcome>, n: nat)
    requires n <= |a| && n <= |b| && a[..n] == b[..n]
    ensures ResultsUpTo(a, n) == ResultsUpTo(b, n)
  {
    if n > 0 {
      assert a[..n - 1] == a[..n][..n - 1] && b[..n - 1] == b[..n][..n - 1];
      assert a[n - 1] == a[..n][n - 1] && b[n - 1] == b[..n][n - 1];
      ResultsUpToPrefix(a, b, n - 1);
    }
  }

  /** The accepted events among the first `n` outcomes depend on nothing after them. */
  lemma {:induction false} AcceptedEventsPrefix(a: seq<LineOutcome>, b: seq<LineOutcome>, n: nat)
    requires n <= |a| && n <= |b| && a[..n] == b[..n]
    ensures AcceptedEvents(a, n) == AcceptedEvents(b, n)
  {
    if n > 0 {
      assert a[..n - 1] == a[..n][..n - 1] && b[..n - 1] == b[..n][..n - 1];
      assert a[n - 1] == a[..n][n - 1] && b[n - 1] == b[..n][n - 1];
      AcceptedEventsPrefix(a, b, n - 1);
    }
  }

  /**
   * One more judged line: its message is recorded under the next line
   * number, and the deque changes as that single outcome says.
   */
  lemma BatchStep(s: seq<Event>, seen: seq<LineOutcome>, o: LineOutcome)
    ensures ResultsUpTo(seen + [o], |seen| + 1) == ResultsUpTo(seen, |seen|)[|seen| + 1 := OutcomeMessage(o)]
    ensures InsertAll(s, AcceptedEvents(seen + [o], |seen| + 1)) == AfterLine(InsertAll(s, AcceptedEvents(seen, |seen|)), o)
  {
    var next, n := seen + [o], |seen|;
    assert next[..n] == seen[..n];
    assert next[n] == o;
    ResultsUpToPrefix(next, seen, n);
    assert ResultsUpTo(next, n + 1) == ResultsUpTo(next, n)[n + 1 := OutcomeMessage(o)];
    AcceptedEventsPrefix(next, seen, n);
    AcceptedEventsStep(s, next, n);
  }

  /**
   * Line `i + 1` of a batch, judged at its clock reading: the outcomes
   * grow by its outcome, its message goes under its number, and the deque
   * takes that single outcome's step.
   */
  lemma BatchLineStep(lines: seq<string>, clock: int -> int, i: nat, s: seq<Event>, seen: seq<LineOutcome>, o: LineOutcome)
    requires i < |lines| && seen == OutcomesUpTo(lines, clock, i) && o == Judge(lines[i], clock(i + 1))
    ensures seen + [o] == OutcomesUpTo(lines, clock, i + 1)
    ensures ResultsUpTo(seen + [o], i + 1) == ResultsUpTo(seen, i)[i + 1 := OutcomeMessage(o)]
    ensures InsertAll(s, AcceptedEvents(seen + [o], i + 1)) == AfterLine(InsertAll(s, AcceptedEvents(seen, i)), o)
  {
    BatchStep(s, seen, o);
  }

  /** The deque after inserting `es` one after another. */
  function InsertAll(s: seq<Event>, es: seq<Event>): seq<Event> {
    if es == [] then s else Insert(InsertAll(s, es[..|es| - 1]), es[|es| - 1])
  }

  /** A batch keeps the deque sorted and adds exactly the accepted events to it. */
  lemma {:induction false} InsertAllKeeps(s: seq<Event>, es: seq<Event>)
    requires Sorted(s)
    ensures Sorted(InsertAll(s, es))
    ensures multiset(InsertAll(s, es)) == multiset(s) + multiset(es)
  {
    if es != [] {
      var init, last := es[..|es| - 1], es[|es| - 1];
      InsertAllKeeps(s, init);
      var mid := InsertAll(s, init);
      InsertSorted(mid, last);
      InsertContents(mid, last);
      assert es == init + [last];
    }
  }

  /** A batch adds exactly the accepted events to the totals. */
  lemma {:induction false} InsertAllTotals(s: seq<Event>, es: seq<Event>)
    ensures SumX(InsertAll(s, es)) == SumX(s) + SumX(es)
    ensures SumY(InsertAll(s, es)) == SumY(s) + SumY(es)
    ensures |InsertAll(s, es)| == |s| + |es|
  {
    if es != [] {
      var init, last := es[..|es| - 1], es[|es| - 1];
      InsertAllTotals(s, init);
      var mid := InsertAll(s, init);
      InsertTotals(mid, last);
      InsertContents(mid, last);
      assert es == init + [last];
      SumsAppend(init, [last]);
      assert SumX([last]) == Value(last.x) + SumX([]);
      assert SumY([last]) == last.y + SumY([]);
    }
  }

  /**
   * `processLine` as written: the same decision as `Judge`, except that
   * validation as written can fail, and the failure leaves the line with
   * no outcome at all.
   */
  function JudgeAsWritten(line: string, now: int): Result<LineOutcome, Crash> {
    match ParseEvent(line)
    case None => Success(Malformed)
    case Some(e) =>
      if e.timestamp < now - MINUTE_IN_MILLIS then Success(TooOld)
      else match ValidateEventAsWritten(e)
        case Failure(c) => Failure(c)
        case Success(Some(errs)) => Success(Rejected(errs))
        case Success(None) => Success(Accepted(e))
  }

  /**
   * A line fails as written exactly when it parses to an event inside the
   * window whose `x` is outside `[0, 1]` and also breaks `@Digits`; every
   * other line gets the outcome `Judge` gives it.
   */
  lemma JudgeAsWrittenCases(line: string, now: int)
    ensures JudgeAsWritten(line, now).Failure? <==>
      (ParseEvent(line).Some? && ParseEvent(line).value.timestamp >= now - MINUTE_IN_MILLIS
       && !(0.0 <= Value(ParseEvent(line).value.x) <= 1.0)
       && (IntegerLength(ParseEvent(line).value.x) > 1 || FractionLength(ParseEvent(line).value.x) > 10))
    ensures JudgeAsWritten(line, now).Success? ==> JudgeAsWritten(line, now).value == Judge(line, now)
  {
    if ParseEvent(line).Some? {
      var e := ParseEvent(line).value;
      AsWrittenFailsOnlyOnDoubleX(e);
    }
  }

  /** Where the batch loop as written ends: with its map, or thrown out of by the failure at line `line`. */
  datatype BatchRun =
    | Finished(results: map<int, string>, deque: seq<Event>)
    | Aborted(crash: Crash, line: nat, deque: seq<Event>)

  /** The first `n` lines judged as written, line `i` (counting from 0) at `clock(i + 1)`. */
  function JudgedAsWritten(lines: seq<string>, clock: int -> int, n: nat): (r: seq<Result<LineOutcome, Crash>>)
    requires n <= |lines|
    ensures |r| == n
  {
    if n == 0 then [] else JudgedAsWritten(lines, clock, n - 1) + [JudgeAsWritten(lines[n - 1], clock(n))]
  }

  /** Line `i` among the first `n` is judged as written on its own, whatever lines follow it. */
  lemma {:induction false} JudgedAsWrittenAt(lines: seq<string>, clock: int -> int, n: nat, i: nat)
    requires i < n <= |lines|
    ensures JudgedAsWritten(lines, clock, n)[i] == JudgeAsWritten(lines[i], clock(i + 1))
  {
    var prefix := JudgedAsWritten(lines, clock, n - 1);
    assert JudgedAsWritten(lines, clock, n) == prefix + [JudgeAsWritten(lines[n - 1], clock(n))];
    if i < n - 1 {
      JudgedAsWrittenAt(lines, clock, n - 1, i);
      assert JudgedAsWritten(lines, clock, n)[i] == prefix[i];
    }
  }

  /**
   * The loop as written over the first `n` judged lines, from the deque
   * `s`: each line's message goes into the map and each accepted event
   * into the deque, until a line fails; the failure ends the loop with no
   * map, and the events added before it stay in the deque.
   */
  function RunAsWritten(s: seq<Event>, judged: seq<Result<LineOutcome, Crash>>, n: nat): BatchRun
    requires n <= |judged|
  {
    if n == 0 then Finished(map[], s)
    else match RunAsWritten(s, judged, n - 1)
      case Aborted(c, k, d) => Aborted(c, k, d)
      case Finished(m, d) =>
        match judged[n - 1]
        case Failure(c) => Aborted(c, n, d)
        case Success(o) => Finished(m[n := OutcomeMessage(o)], AfterLine(d, o))
  }

  /**
   * When every line that does not fail has the outcome `outcomes` gives
   * it, the loop as written finishes exactly when no line fails, and then
   * with the corrected map and deque; otherwise it stops at the first
   * failing line, holding the accepted events of the lines before it.
   */
  lemma {:induction false} RunAsWrittenStops(s: seq<Event>, judged: seq<Result<LineOutcome, Crash>>, outcomes: seq<LineOutcome>, n: nat)
    requires n <= |judged| && n <= |outcomes|
    requires forall i :: 0 <= i < n && judged[i].Success? ==> judged[i].value == outcomes[i]
    ensures RunAsWritten(s, judged, n).Finished? <==> forall i :: 0 <= i < n ==> judged[i].Success?
    ensures RunAsWritten(s, judged, n).Finished? ==>
      RunAsWritten(s, judged, n) == Finished(ResultsUpTo(outcomes, n), InsertAll(s, AcceptedEvents(outcomes, n)))
    ensures RunAsWritten(s, judged, n).Aborted? ==>
      var run := RunAsWritten(s, judged, n);
      && 1 <= run.line <= n
      && judged[run.line - 1] == Failure(run.crash)
      && (forall i :: 0 <= i < run.line - 1 ==> judged[i].Success?)
      && run.deque == InsertAll(s, AcceptedEvents(outcomes, run.line - 1))
  {
    if n > 0 {
      RunAsWrittenStops(s, judged, outcomes, n - 1);
      var before := RunAsWritten(s, judged, n - 1);
      var run := RunAsWritten(s, judged, n);
      if before.Aborted? {
        assert run == before;
        assert !judged[before.line - 1].Success?;
      } else if judged[n - 1].Failure? {
        assert run == Aborted(judged[n - 1].error, n, before.deque);
      } else {
        var o := judged[n - 1].value;
        assert o == outcomes[n - 1];
        AcceptedEventsStep(s, outcomes, n - 1);
        assert run == Finished(before.results[n := OutcomeMessage(o)], AfterLine(before.deque, o));
        assert ResultsUpTo(outcomes, n) == ResultsUpTo(outcomes, n - 1)[n := OutcomeMessage(outcomes[n - 1])];
      }
    }
  }

  /** `validateAndProcessEvents` as written, on the lines of a payload. */
  function BatchAsWritten(s: seq<Event>, lines: seq<string>, clock: int -> int): BatchRun {
    RunAsWritten(s, JudgedAsWritten(lines, clock, |lines|), |lines|)
  }

  /**
   * Whether line `i` (counting from 0) fails as written in the batch; by
   * `JudgedAsWrittenAt` that is the line judged on its own at its clock reading.
   */
  predicate FailsAsWritten(lines: seq<string>, clock: int -> int, i: nat)
    requires i < |lines|
  {
    JudgedAsWritten(lines, clock, |lines|)[i].Failure?
  }

  /**
   * The batch as written returns the corrected model's map, with the
   * corrected deque, exactly when none of its lines fails; otherwise it
   * returns nothing and stops at the first line that fails, after the
   * accepted events of the lines before it have gone into the deque.
   */
  lemma BatchAsWrittenStops(s: seq<Event>, lines: seq<string>, clock: int -> int)
    ensures BatchAsWritten(s, lines, clock).Finished? <==> forall i :: 0 <= i < |lines| ==> !FailsAsWritten(lines, clock, i)
    ensures BatchAsWritten(s, lines, clock).Finished? ==>
      BatchAsWritten(s, lines, clock)
        == Finished(ResultMap(lines, clock), InsertAll(s, AcceptedEvents(Outcomes(lines, clock), |lines|)))
    ensures BatchAsWritten(s, lines, clock).Aborted? ==>
      var run := BatchAsWritten(s, lines, clock);
      && 1 <= run.line <= |lines|
      && FailsAsWritten(lines, clock, run.line - 1)
      && (forall i :: 0 <= i < run.line - 1 ==> !FailsAsWritten(lines, clock, i))
      && run.deque == InsertAll(s, AcceptedEvents(Outcomes(lines, clock), run.line - 1))
  {
    var judged := JudgedAsWritten(lines, clock, |lines|);
    var outcomes := Outcomes(lines, clock);
    forall i | 0 <= i < |lines| && judged[i].Success?
      ensures judged[i].value == outcomes[i]
    {
      JudgedAsWrittenAgrees(lines, clock, i);
    }
    RunAsWrittenStops(s, judged, outcomes, |lines|);
    forall i | 0 <= i < |lines|
      ensures FailsAsWritten(lines, clock, i) <==> !judged[i].Success?
    {
    }
  }

  /** A line that does not fail as written has the outcome the corrected judgement gives it. */
  lemma JudgedAsWrittenAgrees(lines: seq<string>, clock: int -> int, i: nat)
    requires i < |lines|
    ensures var judged := JudgedAsWritten(lines, clock, |lines|);
      judged[i].Success? ==> judged[i].value == Outcomes(lines, clock)[i]
  {
    JudgedAsWrittenAt(lines, clock, |lines|, i);
    OutcomesAt(lines, clock, i);
    JudgeAsWrittenCases(lines[i], clock(i + 1));
  }

  /** The line `1000,12.5,50`, read up to a minute after its timestamp, fails as written on the key `x`. */
  lemma CounterexampleFails(now: int)
    requires now <= 1000 + MINUTE_IN_MILLIS
    ensures JudgeAsWritten("1000,12.5,50", now) == Failure(DuplicateKey(X))
  {
    DuplicateKeyCounterexample();
    JudgeAsWrittenFailure("1000,12.5,50", now, Event(1000, Decimal(125, 1), 50));
  }

  /** A line that parses to an event inside the window whose validation as written fails, fails with that failure. */
  lemma JudgeAsWrittenFailure(line: string, now: int, e: Event)
    requires ParseEvent(line) == Some(e) && e.timestamp >= now - MINUTE_IN_MILLIS
    requires ValidateEventAsWritten(e).Failure?
    ensures JudgeAsWritten(line, now) == Failure(ValidateEventAsWritten(e).error)
  {
  }

  /**
   * A payload whose only line is `1000,12.5,50`, read at most a minute
   * after that timestamp, ends the batch as written at line 1 with the
   * deque unchanged and no map.
   */
  lemma BatchCounterexample(s: seq<Event>, clock: int -> int)
    requires clock(1) <= 1000 + MINUTE_IN_MILLIS
    ensures BatchAsWritten(s, ["1000,12.5,50"], clock) == Aborted(DuplicateKey(X), 1, s)
  {
    var lines := ["1000,12.5,50"];
    CounterexampleFails(clock(1));
    JudgedAsWrittenAt(lines, clock, 1, 0);
    var judged := JudgedAsWritten(lines, clock, 1);
    assert judged[0] == Failure(DuplicateKey(X));
    assert RunAsWritten(s, judged, 0) == Finished(map[], s);
  }
}
