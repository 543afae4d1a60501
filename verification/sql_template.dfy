/** `fill_sql` of the aggregation job (src/fetch_account_data.py and
    run/src/fetch_account_data.py): the configured SQL text is a `str.format`
    template whose named fields are filled with dates derived from today. */
module SqlTemplate {
  import opened Wrappers
  import Text
  import Dates
  import opened Variants

  /** A parsed format template: literal text and `{name}` replacement fields. */
  datatype Piece = Literal(text: string) | Field(name: string)

  type Template = seq<Piece>

  predicate BraceFree(s: string) {
    '{' !in s && '}' !in s
  }

  /** Literal text without braces and non-empty field names without braces: the
      templates whose stored text parses back into the same pieces. */
  predicate WellFormed(t: Template) {
    forall i :: 0 <= i < |t| ==>
      match t[i]
      case Literal(s) => BraceFree(s)
      case Field(n) => |n| > 0 && BraceFree(n)
  }

  function PieceRaw(p: Piece): string {
    match p
    case Literal(s) => s
    case Field(n) => "{" + n + "}"
  }

  /** The template text as stored in the configuration file. */
  function Raw(t: Template): string
    decreases |t|
  {
    if |t| == 0 then "" else Raw(t[..|t| - 1]) + PieceRaw(t[|t| - 1])
  }

  /** Every replacement field of `t` has a value. */
  predicate Binds(values: map<string, string>, t: Template) {
    forall i :: 0 <= i < |t| && t[i].Field? ==> t[i].name in values
  }

  datatype FormatError = KeyError(name: string)

  /** `template.format(**values)`: fields are replaced left to right, and the
      first field without a value raises `KeyError`. Unused values are ignored. */
  function Format(t: Template, values: map<string, string>): (r: Result<string, FormatError>)
    ensures r.Success? <==> Binds(values, t)
    ensures r.Failure? ==> exists i :: 0 <= i < |t| && t[i] == Field(r.error.name) &&
                                      r.error.name !in values && Binds(values, t[..i])
    decreases |t|
  {
    if |t| == 0 then Success("")
    else
      var init := t[..|t| - 1];
      assert forall i :: 0 <= i < |init| ==> init[i] == t[i];
      assert forall i :: 0 <= i <= |init| ==> init[..i] == t[..i];
      match Format(init, values)
      case Failure(e) => Failure(e)
      case Success(s) =>
        match t[|t| - 1]
        case Literal(text) => Success(s + text)
        case Field(n) => if n in values then Success(s + values[n]) else Failure(KeyError(n))
  }

  /** Formatting a concatenation formats the first part, then the second. */
  lemma {:induction false} FormatAppend(a: Template, b: Template, values: map<string, string>)
    ensures Format(a + b, values) ==
            match Format(a, values)
            case Failure(e) => Failure(e)
            case Success(x) =>
              match Format(b, values)
              case Failure(e) => Failure(e)
              case Success(y) => Success(x + y)
    decreases |b|
  {
    if |b| == 0 {
      assert a + b == a;
      if Format(a, values).Success? {
        assert Format(a, values).value + "" == Format(a, values).value;
      }
    } else {
      var initB := b[..|b| - 1];
      assert (a + b)[..|a + b| - 1] == a + initB;
      assert (a + b)[|a + b| - 1] == b[|b| - 1];
      FormatAppend(a, initB, values);
      match Format(a, values)
      case Failure(e) =>
      case Success(x) =>
        match Format(initB, values)
        case Failure(e) =>
        case Success(y) =>
          match b[|b| - 1]
          case Literal(text) => assert x + y + text == x + (y + text);
          case Field(n) =>
            if n in values {
              assert x + y + values[n] == x + (y + values[n]);
            }
    }
  }

  /** A template without fields formats to its own text, whatever the values. */
  lemma {:induction false} FormatWithoutFields(t: Template, values: map<string, string>)
    requires forall i :: 0 <= i < |t| ==> t[i].Literal?
    ensures Format(t, values) == Success(Raw(t))
    decreases |t|
  {
    if |t| > 0 {
      var init := t[..|t| - 1];
      assert forall i :: 0 <= i < |init| ==> init[i] == t[i];
      FormatWithoutFields(init, values);
    }
  }

  /** A well-formed template filled with brace-free values leaves no brace. */
  lemma {:induction false} FormatBraceFree(t: Template, values: map<string, string>)
    requires WellFormed(t)
    requires forall n :: n in values ==> BraceFree(values[n])
    requires Format(t, values).Success?
    ensures BraceFree(Format(t, values).value)
    decreases |t|
  {
    if |t| > 0 {
      var init := t[..|t| - 1];
      assert forall i :: 0 <= i < |init| ==> init[i] == t[i];
      FormatBraceFree(init, values);
    }
  }

  /** The stored text of a template with a field still contains an opening brace. */
  lemma {:induction false} RawShowsFields(t: Template, i: int)
    requires 0 <= i < |t| && t[i].Field?
    ensures '{' in Raw(t)
    decreases |t|
  {
    var init := t[..|t| - 1];
    if i < |t| - 1 {
      assert init[i] == t[i];
      RawShowsFields(init, i);
    } else {
      assert PieceRaw(t[i])[0] == '{';
    }
  }

  /** The names `fill_sql` passes to `format`. */
  function PlaceholderNames(variant: Variant): set<string> {
    var common := {"previous", "previous_month", "last_year", "last_year_month"};
    match variant
    case Run => common
    case Src => common + {"last_year_date", "previous_year_date", "work_day"}
  }

  /** The month before today's, as (year, month): December of the previous year
      in January. */
  function PreviousMonth(today: Dates.Date): (int, int) {
    if today.month == 1 then (today.year - 1, 12) else (today.year, today.month - 1)
  }

  /** The values `fill_sql` computes. The same day last year is computed first and
      raises `ValueError` on 29 February and in year 1; the last day of the
      previous month can then no longer fail. */
  function Placeholders(variant: Variant, today: Dates.Date): (r: Result<map<string, string>, Dates.DateError>)
    requires Dates.ValidDate(today)
    ensures r.Failure? <==> today.year == Dates.MinYear || (today.month == 2 && today.day == 29)
    ensures r.Success? ==> r.value.Keys == PlaceholderNames(variant)
  {
    match Dates.SameDayLastYear(today)
    case Failure(e) => Failure(e)
    case Success(lastYear) =>
    var previous := Dates.LastDayOfPreviousMonth(today).value;
    var common := map[
      "previous" := Text.NatToString(previous.year),
      "previous_month" := Dates.FormatYearMonth(previous.year, previous.month),
      "last_year" := Text.NatToString(lastYear.year),
      "last_year_month" := Dates.FormatYearMonth(lastYear.year, lastYear.month)
    ];
    match variant
    case Run => Success(common)
    case Src =>
      Success(common["last_year_date" := Dates.IsoFormat(lastYear)]
                    ["previous_year_date" := Dates.IsoFormat(previous)]
                    ["work_day" := Text.NatToString(today.day)])
  }

  /** Which date each placeholder is computed from. */
  lemma PlaceholderSources(variant: Variant, today: Dates.Date)
    requires Dates.ValidDate(today)
    requires Placeholders(variant, today).Success?
    ensures var values := Placeholders(variant, today).value;
            var previous := Dates.LastDayOfPreviousMonth(today).value;
            && (previous.year, previous.month) == PreviousMonth(today)
            && values["previous"] == Text.NatToString(previous.year)
            && values["previous_month"] == Dates.FormatYearMonth(previous.year, previous.month)
            && values["last_year"] == Text.NatToString(today.year - 1)
            && values["last_year_month"] == Dates.FormatYearMonth(today.year - 1, today.month)
            && (variant == Src ==> values["work_day"] == Text.NatToString(today.day))
  {
  }

  /** The placeholder values read back as the intended dates: the previous month
      (December of the year before in January) with its year, the same month a
      year earlier with its year, and, in the src copy, today's day of month. */
  lemma PlaceholderValues(variant: Variant, today: Dates.Date)
    requires Dates.ValidDate(today)
    requires Placeholders(variant, today).Success?
    ensures var values := Placeholders(variant, today).value;
            && Dates.ParseYearMonth(values["previous_month"]) == Some(PreviousMonth(today))
            && Text.DigitsValue(values["previous"]) == PreviousMonth(today).0
            && Dates.ParseYearMonth(values["last_year_month"]) == Some((today.year - 1, today.month))
            && Text.DigitsValue(values["last_year"]) == today.year - 1
            && (variant == Src ==> Text.DigitsValue(values["work_day"]) == today.day)
  {
    PlaceholderSources(variant, today);
    var previous := Dates.LastDayOfPreviousMonth(today).value;
    Dates.FormatYearMonthRoundTrip(previous.year, previous.month);
    Dates.FormatYearMonthRoundTrip(today.year - 1, today.month);
    Text.NatToStringValue(previous.year);
    Text.NatToStringValue(today.year - 1);
    Text.NatToStringValue(today.day);
  }

  /** Text made of digits and dashes only, as every rendered date is. */
  predicate DigitsAndDashes(s: string) {
    forall i :: 0 <= i < |s| ==> Text.IsDigit(s[i]) || s[i] == '-'
  }

  lemma NumberDigits(n: nat)
    ensures DigitsAndDashes(Text.NatToString(n))
  {
    Text.NatToStringShape(n);
  }

  lemma YearMonthDigits(year: nat, month: nat)
    ensures DigitsAndDashes(Dates.FormatYearMonth(year, month))
  {
    var y := Text.ZeroPad(year, 4);
    var m := Text.ZeroPad(month, 2);
    assert Dates.FormatYearMonth(year, month) == y + "-" + m;
  }

  lemma IsoDigits(d: Dates.Date)
    requires Dates.ValidDate(d)
    ensures DigitsAndDashes(Dates.IsoFormat(d))
  {
    YearMonthDigits(d.year, d.month);
    var ym := Dates.FormatYearMonth(d.year, d.month);
    var dd := Text.ZeroPad(d.day, 2);
    assert Dates.IsoFormat(d) == ym + "-" + dd;
  }

  predicate ValuesBraceFree(values: map<string, string>) {
    forall n :: n in values ==> BraceFree(values[n])
  }

  lemma AddBraceFree(values: map<string, string>, name: string, value: string)
    requires ValuesBraceFree(values)
    requires DigitsAndDashes(value)
    ensures ValuesBraceFree(values[name := value])
  {
    assert BraceFree(value) by {
      assert forall i :: 0 <= i < |value| ==> value[i] != '{' && value[i] != '}';
    }
  }

  /** Placeholder values are digits and dashes only. */
  lemma PlaceholdersBraceFree(variant: Variant, today: Dates.Date)
    requires Dates.ValidDate(today)
    requires Placeholders(variant, today).Success?
    ensures ValuesBraceFree(Placeholders(variant, today).value)
  {
    var lastYear := Dates.SameDayLastYear(today).value;
    var previous := Dates.LastDayOfPreviousMonth(today).value;
    var v1, v2 := Text.NatToString(previous.year), Dates.FormatYearMonth(previous.year, previous.month);
    var v3, v4 := Text.NatToString(lastYear.year), Dates.FormatYearMonth(lastYear.year, lastYear.month);
    NumberDigits(previous.year);
    YearMonthDigits(previous.year, previous.month);
    NumberDigits(lastYear.year);
    YearMonthDigits(lastYear.year, lastYear.month);
    var m0: map<string, string> := map[];
    AddBraceFree(m0, "previous", v1);
    var m1 := m0["previous" := v1];
    AddBraceFree(m1, "previous_month", v2);
    var m2 := m1["previous_month" := v2];
    AddBraceFree(m2, "last_year", v3);
    var m3 := m2["last_year" := v3];
    AddBraceFree(m3, "last_year_month", v4);
    var m4 := m3["last_year_month" := v4];
    if variant == Src {
      var v5, v6, v7 := Dates.IsoFormat(lastYear), Dates.IsoFormat(previous), Text.NatToString(today.day);
      IsoDigits(lastYear);
      IsoDigits(previous);
      NumberDigits(today.day);
      AddBraceFree(m4, "last_year_date", v5);
      var m5 := m4["last_year_date" := v5];
      AddBraceFree(m5, "previous_year_date", v6);
      var m6 := m5["previous_year_date" := v6];
      AddBraceFree(m6, "work_day", v7);
    }
  }


  datatype FillError = DateFailure(dateError: Dates.DateError) | MissingPlaceholder(name: string)

  /** `fill_sql`: compute the placeholder values, then format the template. */
  function FillSql(variant: Variant, template: Template, today: Dates.Date): (r: Result<string, FillError>)
    requires Dates.ValidDate(today)
    ensures r.Failure? && r.error.DateFailure? <==> Placeholders(variant, today).Failure?
    ensures Placeholders(variant, today).Success? ==>
              (r.Success? <==> forall i :: 0 <= i < |template| && template[i].Field? ==> template[i].name in PlaceholderNames(variant))
  {
    match Placeholders(variant, today)
    case Failure(e) => Failure(DateFailure(e))
    case Success(values) =>
      match Format(template, values)
      case Failure(KeyError(n)) => Failure(MissingPlaceholder(n))
      case Success(sql) => Success(sql)
  }

  /** A well-formed template filled successfully no longer carries a brace, so the
      filled text differs from the stored text whenever the template has a field. */
  lemma FilledDiffersFromRaw(variant: Variant, template: Template, today: Dates.Date, i: int)
    requires Dates.ValidDate(today) && WellFormed(template)
    requires 0 <= i < |template| && template[i].Field?
    requires FillSql(variant, template, today).Success?
    ensures BraceFree(FillSql(variant, template, today).value)
    ensures FillSql(variant, template, today).value != Raw(template)
  {
    PlaceholdersBraceFree(variant, today);
    FormatBraceFree(template, Placeholders(variant, today).value);
    RawShowsFields(template, i);
  }
}
