/**
  The demo application's state: the selected date and an event log that keeps
  the 20 newest entries. Every event handler writes one line to the log
  through `AddLog`; the change handler also records the selected date.
*/
module CalendarDemo {

  /** The log never holds more entries than this. */
  const MaxLogs := 20

  /**
    What a handler receives when it indexes its payload: a record of fields
    (already in their string form), or a single value, which cannot be indexed.
  */
  datatype Payload = Scalar(text: string) | Record(fields: map<string, string>)

  /** The exceptions a handler raises while reading its payload. */
  datatype HandlerError =
    | KeyError(key: string)  // the record has no such field
    | TypeError              // the payload is not a record

  /** What a handler that reads its payload did. */
  datatype Outcome = Logged | Ignored | Raised(error: HandlerError)

  // ----------------------------------------------------------- the log policy

  /** The log after appending `entry`: the oldest entry goes once there are more than 20. */
  function LogAppended(logs: seq<string>, entry: string): (r: seq<string>)
    ensures |r| >= 1 && r[|r| - 1] == entry
    ensures |logs| <= MaxLogs ==> |r| <= MaxLogs
    ensures |logs| < MaxLogs ==> |r| == |logs| + 1 && r[..|logs|] == logs
    ensures |logs| == MaxLogs ==> |r| == MaxLogs && r[..MaxLogs - 1] == logs[1..]
  {
    var grown := logs + [entry];
    if |grown| > MaxLogs then grown[1..] else grown
  }

  /** The last `n` elements of `s` (all of them if there are fewer). */
  function Newest(s: seq<string>, n: nat): (r: seq<string>)
    ensures |r| <= n && |r| <= |s|
  {
    if |s| <= n then s else s[|s| - n..]
  }

  /** The log after appending the entries one by one. */
  function Replay(logs: seq<string>, entries: seq<string>): seq<string>
    decreases |entries|
  {
    if entries == [] then logs else Replay(LogAppended(logs, entries[0]), entries[1..])
  }

  lemma NewestOfNewest(s: seq<string>, t: seq<string>, n: nat)
    ensures Newest(Newest(s, n) + t, n) == Newest(s + t, n)
  {
    if |s| > n {
      var u := s[|s| - n..] + t;
      assert u == (s + t)[|s| - n..];
      if |u| > n {
        assert u[|u| - n..] == (s + t)[|s + t| - n..];
      }
    }
  }

  /** One append keeps exactly the 20 newest of the old entries and the new one. */
  lemma AppendKeepsNewest(logs: seq<string>, entry: string)
    requires |logs| <= MaxLogs
    ensures LogAppended(logs, entry) == Newest(logs + [entry], MaxLogs)
  {
  }

  /**
    However many entries are logged, the log holds the 20 newest of all the
    entries it has seen, in the order they arrived.
  */
  lemma {:induction false} ReplayKeepsNewest(logs: seq<string>, entries: seq<string>)
    requires |logs| <= MaxLogs
    ensures Replay(logs, entries) == Newest(logs + entries, MaxLogs)
    decreases |entries|
  {
    if entries != [] {
      var first, rest := entries[0], entries[1..];
      calc {
        Replay(logs, entries);
        Replay(LogAppended(logs, first), rest);
        { ReplayKeepsNewest(LogAppended(logs, first), rest); }
        Newest(LogAppended(logs, first) + rest, MaxLogs);
        { AppendKeepsNewest(logs, first); }
        Newest(Newest(logs + [first], MaxLogs) + rest, MaxLogs);
        { NewestOfNewest(logs + [first], rest, MaxLogs); }
        Newest(logs + [first] + rest, MaxLogs);
        { assert logs + [first] + rest == logs + entries; }
        Newest(logs + entries, MaxLogs);
      }
    }
  }

  /** The 21st entry evicts the first; 20 remain, the newest last. */
  lemma TwentyFirstEvictsFirst(logs: seq<string>, entry: string)
    requires |logs| == MaxLogs
    ensures LogAppended(logs, entry) == logs[1..] + [entry]
  {
  }

  // ----------------------------------------------------------------- messages

  /** Whether `part` occurs in `s`, as Python's `in` on strings: it is a prefix of some suffix of `s`. */
  predicate Contains(s: string, part: string)
    decreases |s|
  {
    part <= s || (s != [] && Contains(s[1..], part))
  }

  /** `part` occurs in `s` starting at index `i`. */
  predicate OccursAt(s: string, part: string, i: int) {
    0 <= i <= |s| - |part| && s[i..i + |part|] == part
  }

  /** `Contains` means what it says: `part` occurs at some position of `s`. */
  lemma {:induction false} ContainsAt(s: string, part: string)
    ensures Contains(s, part) <==> exists i :: OccursAt(s, part, i)
    decreases |s|
  {
    if part <= s {
      assert OccursAt(s, part, 0);
    } else if s != [] {
      ContainsAt(s[1..], part);
      if Contains(s[1..], part) {
        var i :| OccursAt(s[1..], part, i);
        OccursShift(s, part, i + 1);
      }
      if exists i :: OccursAt(s, part, i) {
        var i :| OccursAt(s, part, i);
        assert i != 0;
        OccursShift(s, part, i);
      }
    }
  }

  /** An occurrence past the first character is an occurrence in the rest of the string. */
  lemma OccursShift(s: string, part: string, i: int)
    requires s != [] && i > 0
    ensures OccursAt(s, part, i) <==> OccursAt(s[1..], part, i - 1)
  {
    if i <= |s| - |part| {
      assert s[1..][i - 1..i - 1 + |part|] == s[i..i + |part|];
    }
  }

  /** The actions that the start-date handler ignores are the two drills. */
  lemma DrillActionsAreIgnored()
    ensures Contains("drillDown", "drill") && Contains("drillUp", "drill")
    ensures !Contains("prev", "drill") && !Contains("next", "drill")
    ensures !Contains("prev2", "drill") && !Contains("next2", "drill")
  {
    ContainsAt("prev", "drill");
    ContainsAt("next", "drill");
    assert "prev2"[0] != "drill"[0] && "next2"[0] != "drill"[0];
  }

  // -------------------------------------------------------------- the state

  class Foo {
    var selectedDate: string
    var logs: seq<string>

    ghost predicate Valid()
      reads this
    {
      |logs| <= MaxLogs
    }

    constructor ()
      ensures Valid() && selectedDate == "" && logs == []
    {
      selectedDate := "";
      logs := [];
    }

    /** The toast that `add_log` returns for display is not part of this model. */
    method AddLog(entry: string)
      requires Valid()
      modifies this
      ensures Valid()
      ensures logs == LogAppended(old(logs), entry) && selectedDate == old(selectedDate)
    {
      logs := logs + [entry];
      if |logs| > MaxLogs {
        logs := logs[1..];
      }
    }

    method ClearLogs()
      modifies this
      ensures Valid() && logs == [] && selectedDate == old(selectedDate)
    {
      logs := [];
    }

    method ChangeHandler(value: string)
      requires Valid()
      modifies this
      ensures Valid()
      ensures selectedDate == value
      ensures logs == LogAppended(old(logs), "Changed selected date: " + value)
    {
      selectedDate := value;
      AddLog("Changed selected date: " + value);
    }

    /**
      Ignores navigation caused by drilling (an action naming "drill");
      otherwise logs the new start date and the action.
    */
    method ActiveStartDateChangeHandler(event: Payload) returns (r: Outcome)
      requires Valid()
      modifies this
      ensures Valid() && selectedDate == old(selectedDate)
      ensures event.Scalar? ==> r == Raised(TypeError) && logs == old(logs)
      ensures event.Record? && "action" !in event.fields ==> r == Raised(KeyError("action")) && logs == old(logs)
      ensures event.Record? && "action" in event.fields && Contains(event.fields["action"], "drill") ==>
        r == Ignored && logs == old(logs)
      ensures event.Record? && "action" in event.fields && !Contains(event.fields["action"], "drill") ==>
        if "activeStartDate" in event.fields then
          r == Logged && logs == LogAppended(old(logs),
            "Changed active start date to " + event.fields["activeStartDate"] + " (" + event.fields["action"] + ")")
        else
          r == Raised(KeyError("activeStartDate")) && logs == old(logs)
    {
      if event.Scalar? {
        return Raised(TypeError);
      }
      if "action" !in event.fields {
        return Raised(KeyError("action"));
      }
      if Contains(event.fields["action"], "drill") {
        return Ignored;
      }
      var action := event.fields["action"];
      if "activeStartDate" !in event.fields {
        return Raised(KeyError("activeStartDate"));
      }
      var startDate := event.fields["activeStartDate"];
      AddLog("Changed active start date to " + startDate + " (" + action + ")");
      return Logged;
    }

    method ClickDayHandler(day: string)
      requires Valid()
      modifies this
      ensures Valid() && selectedDate == old(selectedDate)
      ensures logs == LogAppended(old(logs), "Clicked day " + day)
    {
      AddLog("Clicked day " + day);
    }

    method ClickMonthHandler(month: string)
      requires Valid()
      modifies this
      ensures Valid() && selectedDate == old(selectedDate)
      ensures logs == LogAppended(old(logs), "Clicked month " + month)
    {
      AddLog("Clicked month " + month);
    }

    method ClickDecadeHandler(value: string)
      requires Valid()
      modifies this
      ensures Valid() && selectedDate == old(selectedDate)
      ensures logs == LogAppended(old(logs), "Clicked decade " + value)
    {
      AddLog("Clicked decade " + value);
    }

    method ClickYearHandler(year: string)
      requires Valid()
      modifies this
      ensures Valid() && selectedDate == old(selectedDate)
      ensures logs == LogAppended(old(logs), "Clicked year " + year)
    {
      AddLog("Clicked year " + year);
    }

    /** Reads the field `week_number`, which the week-number spec does not deliver. */
    method ClickWeekNumberHandler(event: Payload) returns (r: Outcome)
      requires Valid()
      modifies this
      ensures Valid() && selectedDate == old(selectedDate)
      ensures event.Scalar? ==> r == Raised(TypeError) && logs == old(logs)
      ensures event.Record? && "week_number" !in event.fields ==>
        r == Raised(KeyError("week_number")) && logs == old(logs)
      ensures event.Record? && "week_number" in event.fields ==>
        r == Logged && logs == LogAppended(old(logs), "Clicked week number " + event.fields["week_number"])
    {
      if event.Scalar? {
        return Raised(TypeError);
      }
      if "week_number" !in event.fields {
        return Raised(KeyError("week_number"));
      }
      AddLog("Clicked week number " + event.fields["week_number"]);
      return Logged;
    }

    method DrillDownHandler(view: string)
      requires Valid()
      modifies this
      ensures Valid() && selectedDate == old(selectedDate)
      ensures logs == LogAppended(old(logs), "Drilled down to: " + view + " view")
    {
      AddLog("Drilled down to: " + view + " view");
    }

    method DrillUpHandler(view: string)
      requires Valid()
      modifies this
      ensures Valid() && selectedDate == old(selectedDate)
      ensures logs == LogAppended(old(logs), "Drilled up to: " + view + " view")
    {
      AddLog("Drilled up to: " + view + " view");
    }

    method ViewChangeHandler(event: Payload) returns (r: Outcome)
      requires Valid()
      modifies this
      ensures Valid() && selectedDate == old(selectedDate)
      ensures event.Scalar? ==> r == Raised(TypeError) && logs == old(logs)
      ensures event.Record? && "view" !in event.fields ==> r == Raised(KeyError("view")) && logs == old(logs)
      ensures event.Record? && "view" in event.fields ==>
        r == Logged && logs == LogAppended(old(logs), "View changed to: " + event.fields["view"])
    {
      if event.Scalar? {
        return Raised(TypeError);
      }
      if "view" !in event.fields {
        return Raised(KeyError("view"));
      }
      AddLog("View changed to: " + event.fields["view"]);
      return Logged;
    }
  }
}
