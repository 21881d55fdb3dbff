// The page component (src/app/page.tsx): its four pieces of state, the two
// input handlers, the list of selectable years and the calendar data it
// hands to the calendar section.

module Page {
  import opened Types
  import opened Constants

  /** The characters `String.prototype.trim` removes: ECMAScript WhiteSpace and LineTerminator. */
  predicate IsJsWhiteSpace(c: char)
  {
    var n := c as int;
    n == 0x09 || n == 0x0B || n == 0x0C || n == 0x20 || n == 0xA0 || n == 0xFEFF
    || n == 0x1680 || (0x2000 <= n <= 0x200A) || n == 0x202F || n == 0x205F || n == 0x3000
    || n == 0x0A || n == 0x0D || n == 0x2028 || n == 0x2029
  }

  /** `s` with its longest all-white-space prefix removed. */
  function TrimStart(s: string): (r: string)
    ensures |r| <= |s| && r == s[|s| - |r|..]
    ensures forall i :: 0 <= i < |s| - |r| ==> IsJsWhiteSpace(s[i])
    ensures r != [] ==> !IsJsWhiteSpace(r[0])
    ensures (forall i :: 0 <= i < |s| ==> IsJsWhiteSpace(s[i])) ==> r == []
  {
    if s != [] && IsJsWhiteSpace(s[0]) then TrimStart(s[1..]) else s
  }

  /** `s` with its longest all-white-space suffix removed. */
  function TrimEnd(s: string): (r: string)
    ensures |r| <= |s| && r == s[..|r|]
    ensures forall i :: |r| <= i < |s| ==> IsJsWhiteSpace(s[i])
    ensures r != [] ==> !IsJsWhiteSpace(r[|r| - 1])
  {
    if s != [] && IsJsWhiteSpace(s[|s| - 1]) then TrimEnd(s[..|s| - 1]) else s
  }

  function Trim(s: string): (r: string)
    ensures r != [] ==> !IsJsWhiteSpace(r[0]) && !IsJsWhiteSpace(r[|r| - 1])
  {
    TrimEnd(TrimStart(s))
  }

  /** `!json.trim()` holds exactly when every character of the input is white space. */
  lemma TrimEmptyIff(s: string)
    ensures Trim(s) == [] <==> forall i :: 0 <= i < |s| ==> IsJsWhiteSpace(s[i])
  {
    var t := TrimStart(s);
    assert Trim(s) == [] ==> t == [] && |s| - |t| == |s|;
  }

  /** Trimming an already trimmed string changes nothing. */
  lemma TrimIdempotent(s: string)
    ensures Trim(Trim(s)) == Trim(s)
  {
    var r := Trim(s);
    var t := TrimStart(s);
    if r != [] {
      assert r[0] == t[0];
      assert TrimStart(r) == r;
      assert TrimEnd(r) == r;
    }
  }

  /** `parseResult.error || "Unknown parsing error"`: an absent or empty error falls back to the default. */
  function ErrorMessage(r: ParseResult<seq<Person>>): (msg: string)
    ensures msg != []
    ensures r.error.Some? && r.error.value != [] ==> msg == r.error.value
    ensures r.error.None? || r.error.value == [] ==> msg == "Unknown parsing error"
  {
    if r.error.Some? && r.error.value != [] then r.error.value else "Unknown parsing error"
  }

  /** The calendar shown while no people are loaded: weekdays 0 to 6, each with nobody. */
  function EmptyCalendarData(): (cal: CalendarData)
    ensures forall i :: i in cal <==> 0 <= i < 7
    ensures forall i :: i in cal ==> cal[i] == []
  {
    map[0 := [], 1 := [], 2 := [], 3 := [], 4 := [], 5 := [], 6 := []]
  }

  /** The loop that fills the empty calendar one weekday at a time. */
  method EmptyCalendar() returns (cal: CalendarData)
    ensures cal == EmptyCalendarData()
  {
    cal := map[];
    var i := 0;
    while i < 7
      invariant 0 <= i <= 7
      invariant forall k :: k in cal <==> 0 <= k < i
      invariant forall k :: k in cal ==> cal[k] == []
    {
      cal := cal[i := []];
      i := i + 1;
    }
  }

  /** How many years the selector offers when the current year is `currentYear`. */
  function YearCount(currentYear: int): nat
  {
    if currentYear >= MIN_YEAR then currentYear - MIN_YEAR + 1 else 0
  }

  /** The page's state; `currentYear` stands for CURRENT_YEAR, the year read from the clock when the constants module loads. */
  class BirthdayCalendar {
    const currentYear: int
    var people: seq<Person>
    var selectedYear: int
    var jsonInput: string
    var jsonError: Option<string>

    /**
     * An error handed to the input component is never the empty string, which JavaScript would
     * treat as no error: the purpose of the `|| "Unknown parsing error"` fallback.
     */
    predicate Valid()
      reads this
    {
      jsonError.Some? ==> jsonError.value != []
    }

    constructor (currentYear: int)
      ensures this.currentYear == currentYear
      ensures people == [] && selectedYear == currentYear && jsonInput == [] && jsonError == None
      ensures Valid()
    {
      this.currentYear := currentYear;
      people := [];
      selectedYear := currentYear;
      jsonInput := [];
      jsonError := None;
    }

    /**
     * The text area changed to `json`. `parse` stands for parsePersonsJson. A blank input
     * clears the people; a successful parse replaces them; a failed one keeps them and
     * shows the parser's error.
     */
    method HandleJsonChange(json: string, parse: string -> ParseResult<seq<Person>>)
      requires Valid()
      modifies this
      ensures Valid()
      ensures jsonInput == json && selectedYear == old(selectedYear)
      ensures Trim(json) == [] ==> people == [] && jsonError == None
      ensures Trim(json) != [] && parse(json).success && parse(json).data.Some? ==>
        people == parse(json).data.value && jsonError == None
      ensures Trim(json) != [] && !(parse(json).success && parse(json).data.Some?) ==>
        people == old(people) && jsonError == Some(ErrorMessage(parse(json)))
    {
      jsonInput := json;
      jsonError := None;
      if Trim(json) == [] {
        people := [];
        return;
      }
      var parseResult := parse(json);
      if parseResult.success && parseResult.data.Some? {
        people := parseResult.data.value;
        jsonError := None;
      } else {
        jsonError := Some(ErrorMessage(parseResult));
      }
    }

    /** The year selector changed: only the selected year moves. */
    method HandleYearChange(year: int)
      requires Valid()
      modifies this
      ensures Valid()
      ensures selectedYear == year
      ensures people == old(people) && jsonInput == old(jsonInput) && jsonError == old(jsonError)
    {
      selectedYear := year;
    }

    /** The years offered, newest first: every year from `currentYear` down to MIN_YEAR, once each. */
    method AvailableYears() returns (years: seq<int>)
      ensures |years| == YearCount(currentYear)
      ensures forall i :: 0 <= i < |years| ==> years[i] == currentYear - i
      ensures forall i, j :: 0 <= i < j < |years| ==> years[i] > years[j]
      ensures forall y :: y in years <==> MIN_YEAR <= y <= currentYear
    {
      years := [];
      var year := currentYear;
      while year >= MIN_YEAR
        invariant year <= currentYear
        invariant currentYear >= MIN_YEAR ==> year >= MIN_YEAR - 1
        invariant currentYear < MIN_YEAR ==> year == currentYear
        invariant |years| == currentYear - year
        invariant forall i :: 0 <= i < |years| ==> years[i] == currentYear - i
        decreases year - MIN_YEAR
      {
        years := years + [year];
        year := year - 1;
      }
      forall y | MIN_YEAR <= y <= currentYear
        ensures y in years
      {
        assert years[currentYear - y] == y;
      }
    }

    /**
     * What the page hands to the calendar: the empty calendar while nobody is loaded,
     * otherwise what `organize` (organizeIntoCalendarData) makes of the people for the selected year.
     */
    function ShownCalendar(organize: (seq<Person>, int) -> CalendarData): (cal: CalendarData)
      reads this
      ensures people == [] ==> forall i :: i in cal <==> 0 <= i < 7
      ensures people == [] ==> forall i :: i in cal ==> cal[i] == []
      ensures people != [] ==> cal == organize(people, selectedYear)
    {
      if |people| == 0 then EmptyCalendarData() else organize(people, selectedYear)
    }

    /** The memoised computation of the calendar data, with its loop for the empty case. */
    method ComputeCalendarData(organize: (seq<Person>, int) -> CalendarData) returns (cal: CalendarData)
      ensures cal == ShownCalendar(organize)
    {
      if |people| == 0 {
        cal := EmptyCalendar();
      } else {
        cal := organize(people, selectedYear);
      }
    }
  }

  /**
   * A failed parse after a successful one leaves the earlier people on show,
   * and a later year change keeps them too.
   */
  method FailedParseKeepsPeople(currentYear: int, good: string, bad: string, year: int,
                                parse: string -> ParseResult<seq<Person>>)
    returns (page: BirthdayCalendar)
    requires Trim(good) != [] && parse(good).success && parse(good).data.Some?
    requires Trim(bad) != [] && !parse(bad).success
    ensures page.people == parse(good).data.value
    ensures page.jsonInput == bad && page.selectedYear == year
    ensures page.jsonError == Some(ErrorMessage(parse(bad)))
    ensures page.Valid()
  {
    page := new BirthdayCalendar(currentYear);
    page.HandleJsonChange(good, parse);
    page.HandleJsonChange(bad, parse);
    page.HandleYearChange(year);
  }

  /** Clearing the input after a successful parse empties the calendar. */
  method ClearingEmptiesCalendar(currentYear: int, good: string, blank: string,
                                 parse: string -> ParseResult<seq<Person>>,
                                 organize: (seq<Person>, int) -> CalendarData)
    returns (cal: CalendarData)
    requires Trim(good) != [] && parse(good).success && parse(good).data.Some?
    requires forall i :: 0 <= i < |blank| ==> IsJsWhiteSpace(blank[i])
    ensures cal == EmptyCalendarData()
  {
    var page := new BirthdayCalendar(currentYear);
    page.HandleJsonChange(good, parse);
    TrimEmptyIff(blank);
    page.HandleJsonChange(blank, parse);
    cal := page.ComputeCalendarData(organize);
  }
}
