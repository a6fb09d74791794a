/**
  The calendar's event specs: for each of the widget's ten callbacks, the
  front-end expression that turns the native payload into the values handed to
  the application's event handler. The argument is the JavaScript text naming
  the callback's payload; every spec returns a list of expressions.
*/
module EventSpecs {
  import opened Wrappers

  /** A front-end value: JavaScript source text, or the framework's conditional over three values. */
  datatype Expr =
    | Var(code: string)
    | Cond(test: Expr, whenTrue: Expr, whenFalse: Expr)

  /** The callbacks of the wrapped widget that the component exposes. */
  datatype Event =
    | ActiveStartDateChange
    | Change
    | ClickDay
    | ClickMonth
    | ClickWeekNumber
    | ClickYear
    | ClickDecade
    | DrillDown
    | DrillUp
    | ViewChange

  /** Keeps the payload's fields and replaces its start date by its date string. */
  function OnActiveStartDateChange(e0: string): seq<Expr> {
    [Var("{..." + e0 + ", activeStartDate: " + e0 + ".activeStartDate.toDateString()}")]
  }

  /** A range (an array of dates) becomes an array of date strings, a single date one date string. */
  function OnChange(date: string): seq<Expr> {
    [Cond(Var("Array.isArray(" + date + ")"),
          Var(date + ".map(d => d.toDateString())"),
          Var(date + ".toDateString()"))]
  }

  function OnClickDay(date: string): seq<Expr> {
    [Var(date + ".getDate()")]
  }

  function OnClickMonth(date: string): seq<Expr> {
    [Var(date + ".getMonth()+1")]
  }

  /** The day of the week of the clicked date, as the source has it. */
  function OnClickWeekNumber(date: string): seq<Expr> {
    [Var(date + ".getDay()")]
  }

  function OnClickYear(date: string): seq<Expr> {
    [Var(date + ".getFullYear()")]
  }

  function OnClickDecade(date: string): seq<Expr> {
    [Var(date + ".getFullYear()")]
  }

  function OnDrillDown(e0: string): seq<Expr> {
    [Var(e0 + ".view")]
  }

  function OnDrillUp(e0: string): seq<Expr> {
    [Var(e0 + ".view")]
  }

  function OnViewChange(e0: string): seq<Expr> {
    [Var(e0)]
  }

  /** The spec registered for each event; every one hands the handler exactly one value. */
  function Spec(event: Event, arg: string): (r: seq<Expr>)
    ensures |r| == 1
  {
    match event
    case ActiveStartDateChange => OnActiveStartDateChange(arg)
    case Change => OnChange(arg)
    case ClickDay => OnClickDay(arg)
    case ClickMonth => OnClickMonth(arg)
    case ClickWeekNumber => OnClickWeekNumber(arg)
    case ClickYear => OnClickYear(arg)
    case ClickDecade => OnClickDecade(arg)
    case DrillDown => OnDrillDown(arg)
    case DrillUp => OnDrillUp(arg)
    case ViewChange => OnViewChange(arg)
  }

  // ------------------------------------------------------------------ recovery

  const StartDateKey := ", activeStartDate: "

  /** The text between a known prefix and a known suffix. */
  function Between(code: string, prefix: string, suffix: string): (r: Option<string>)
    ensures r.Some? ==> code == prefix + r.value + suffix
  {
    if |prefix| + |suffix| <= |code| && code[..|prefix|] == prefix && code[|code| - |suffix|..] == suffix then
      var mid := code[|prefix|..|code| - |suffix|];
      assert code == code[..|prefix|] + mid + code[|code| - |suffix|..];
      Some(mid)
    else
      None
  }

  /**
    Reads the payload's name back out of the expression a spec emitted: an
    independent decoder that inverts `Spec`.
  */
  function ArgumentOf(event: Event, out: seq<Expr>): Option<string> {
    if |out| != 1 then None else
    match (event, out[0])
    case (ActiveStartDateChange, Var(code)) =>
      (match Between(code, "{...", ".activeStartDate.toDateString()}")
       case None => None
       case Some(mid) =>
         if |mid| < |StartDateKey| || (|mid| - |StartDateKey|) % 2 != 0 then None
         else Some(mid[..(|mid| - |StartDateKey|) / 2]))
    case (Change, Cond(Var(test), _, _)) => Between(test, "Array.isArray(", ")")
    case (ClickDay, Var(code)) => Between(code, "", ".getDate()")
    case (ClickMonth, Var(code)) => Between(code, "", ".getMonth()+1")
    case (ClickWeekNumber, Var(code)) => Between(code, "", ".getDay()")
    case (ClickYear, Var(code)) => Between(code, "", ".getFullYear()")
    case (ClickDecade, Var(code)) => Between(code, "", ".getFullYear()")
    case (DrillDown, Var(code)) => Between(code, "", ".view")
    case (DrillUp, Var(code)) => Between(code, "", ".view")
    case (ViewChange, Var(code)) => Some(code)
    case _ => None
  }

  lemma BetweenOf(prefix: string, arg: string, suffix: string)
    ensures Between(prefix + arg + suffix, prefix, suffix) == Some(arg)
  {
    var code := prefix + arg + suffix;
    assert code[..|prefix|] == prefix;
    assert code[|code| - |suffix|..] == suffix;
    assert code[|prefix|..|code| - |suffix|] == arg;
  }

  /** Every spec keeps its argument recoverable: `ArgumentOf` undoes `Spec`. */
  lemma SpecRoundTrip(event: Event, arg: string)
    ensures ArgumentOf(event, Spec(event, arg)) == Some(arg)
  {
    match event
    case ActiveStartDateChange => StartDateRoundTrip(arg);
    case Change => BetweenOf("Array.isArray(", arg, ")");
    case ClickDay => BetweenOf("", arg, ".getDate()");
    case ClickMonth => BetweenOf("", arg, ".getMonth()+1");
    case ClickWeekNumber => BetweenOf("", arg, ".getDay()");
    case ClickYear => BetweenOf("", arg, ".getFullYear()");
    case ClickDecade => BetweenOf("", arg, ".getFullYear()");
    case DrillDown => BetweenOf("", arg, ".view");
    case DrillUp => BetweenOf("", arg, ".view");
    case ViewChange =>
  }

  /** The payload's name appears twice around the start-date key, and is read back from the first half. */
  lemma StartDateRoundTrip(arg: string)
    ensures ArgumentOf(ActiveStartDateChange, OnActiveStartDateChange(arg)) == Some(arg)
  {
    var mid := arg + StartDateKey + arg;
    assert "{..." + arg + StartDateKey + arg + ".activeStartDate.toDateString()}"
        == "{..." + mid + ".activeStartDate.toDateString()}";
    BetweenOf("{...", mid, ".activeStartDate.toDateString()}");
    assert mid[..|arg|] == arg;
  }

  /** Distinct payload names give distinct expressions, for every event. */
  lemma SpecInjective(event: Event, a: string, b: string)
    requires Spec(event, a) == Spec(event, b)
    ensures a == b
  {
    SpecRoundTrip(event, a);
    SpecRoundTrip(event, b);
  }

  // -------------------------------------------------------- pairs of events

  /** The clicked month is JavaScript's zero-based month plus one. */
  lemma ClickMonthOneBased(date: string)
    ensures Spec(ClickMonth, date) == [Var((date + ".getMonth()") + "+1")]
  {
    assert ".getMonth()" + "+1" == ".getMonth()+1";
    assert (date + ".getMonth()") + "+1" == date + (".getMonth()" + "+1");
  }

  /** Clicking a year and clicking a decade both report the full year. */
  lemma YearAndDecadeAgree(date: string)
    ensures Spec(ClickYear, date) == Spec(ClickDecade, date) == [Var(date + ".getFullYear()")]
  {
  }

  /** Drilling down and drilling up both report the new view. */
  lemma DrillsAgree(e0: string)
    ensures Spec(DrillDown, e0) == Spec(DrillUp, e0) == [Var(e0 + ".view")]
  {
  }

  /** The view change is passed on untouched. */
  lemma ViewChangeIsIdentity(e0: string)
    ensures Spec(ViewChange, e0) == [Var(e0)]
  {
  }
}
