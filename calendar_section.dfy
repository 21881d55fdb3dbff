// The seven-day calendar (src/components/CalendarSection/index.tsx): the
// total the screen-reader summary announces, and one day column per
// weekday name, Monday first.

module CalendarSection {
  import opened Types
  import opened Constants
  import opened Text
  import DayColumn

  /** A set that is not the empty set has an element. */
  lemma HasElement(s: set<int>)
    requires s != {}
    ensures exists x :: x in s
  {
    assert (forall x :: x !in s) ==> s == {};
  }

  lemma {:induction false} HasMinimum(s: set<int>)
    requires s != {}
    ensures exists k :: k in s && forall j :: j in s ==> k <= j
    decreases |s|
  {
    HasElement(s);
    var x :| x in s;
    if s != {x} {
      var rest := s - {x};
      assert rest != {};
      HasMinimum(rest);
      var m :| m in rest && forall j :: j in rest ==> m <= j;
      var least := if x < m then x else m;
      forall j | j in s
        ensures least <= j
      {
        if j != x {
          assert j in rest;
        }
      }
    } else {
      assert forall j :: j in s ==> x <= j;
    }
  }

  /** The least key of a non-empty key set. */
  function MinKey(s: set<int>): (k: int)
    requires s != {}
    ensures k in s && forall j :: j in s ==> k <= j
  {
    HasMinimum(s);
    var k :| k in s && forall j :: j in s ==> k <= j;
    k
  }

  /**
   * `Object.values(calendarData).reduce((total, dayPeople) => total + dayPeople.length, 0)`:
   * the number of people over every bucket, taken here in increasing key order.
   */
  function TotalBirthdays(cal: CalendarData): nat
    decreases cal.Keys
  {
    if cal.Keys == {} then 0
    else
      var k := MinKey(cal.Keys);
      |cal[k]| + TotalBirthdays(cal - {k})
  }

  /** The order of the reduction does not matter: any one bucket can be counted first. */
  lemma {:induction false} TotalBirthdaysRemove(cal: CalendarData, k: int)
    requires k in cal
    ensures TotalBirthdays(cal) == |cal[k]| + TotalBirthdays(cal - {k})
    decreases cal.Keys
  {
    var m := MinKey(cal.Keys);
    if m != k {
      var rest := cal - {m};
      assert k in rest && rest[k] == cal[k];
      TotalBirthdaysRemove(rest, k);
      var other := cal - {k};
      assert m in other && other[m] == cal[m];
      TotalBirthdaysRemove(other, m);
      assert rest - {k} == other - {m};
    }
  }

  /** Adding a new bucket adds its size to the total. */
  lemma TotalBirthdaysInsert(cal: CalendarData, k: int, people: seq<ProcessedPerson>)
    requires k !in cal
    ensures TotalBirthdays(cal[k := people]) == |people| + TotalBirthdays(cal)
  {
    TotalBirthdaysRemove(cal[k := people], k);
    assert cal[k := people] - {k} == cal;
  }

  /** A calendar whose every bucket is empty announces no birthdays. */
  lemma {:induction false} TotalBirthdaysOfEmptyBuckets(cal: CalendarData)
    requires forall k :: k in cal ==> cal[k] == []
    ensures TotalBirthdays(cal) == 0
    decreases cal.Keys
  {
    if cal.Keys != {} {
      var k := MinKey(cal.Keys);
      TotalBirthdaysOfEmptyBuckets(cal - {k});
    }
  }

  /** `calendarData[dayIndex] || []`: a missing weekday has nobody (an array is always truthy). */
  function Bucket(cal: CalendarData, day: int): (people: seq<ProcessedPerson>)
    ensures day in cal ==> people == cal[day]
    ensures day !in cal ==> people == []
  {
    if day in cal then cal[day] else []
  }

  /** The props handed to one day column. */
  datatype ColumnProps = ColumnProps(dayName: string, people: seq<ProcessedPerson>, isEmpty: bool)

  /** One column per entry of DAY_NAMES, the i-th showing weekday i. */
  function Columns(cal: CalendarData): (cols: seq<ColumnProps>)
    ensures |cols| == |DAY_NAMES| == 7
    ensures forall i :: 0 <= i < 7 ==> cols[i].dayName == DAY_NAMES[i] && cols[i].people == Bucket(cal, i)
    ensures forall i :: 0 <= i < 7 ==> (cols[i].isEmpty <==> cols[i].people == [])
  {
    seq(7, i requires 0 <= i < 7 => ColumnProps(DAY_NAMES[i], Bucket(cal, i), |Bucket(cal, i)| == 0))
  }

  /** How many people the first `n` columns show. */
  function ShownCount(cols: seq<ColumnProps>, n: nat): nat
    requires n <= |cols|
  {
    if n == 0 then 0 else ShownCount(cols, n - 1) + |cols[n - 1].people|
  }

  /** Columns with nobody add nothing to the count. */
  lemma {:induction false} ShownCountEmptyTail(cols: seq<ColumnProps>, n: nat, m: nat)
    requires n <= m <= |cols| && forall i :: n <= i < m ==> cols[i].people == []
    ensures ShownCount(cols, m) == ShownCount(cols, n)
    decreases m - n
  {
    if n < m {
      ShownCountEmptyTail(cols, n, m - 1);
    }
  }

  /** The buckets of weekdays 0 to n - 1. */
  function DaysBefore(cal: CalendarData, n: int): CalendarData
  {
    map k | k in cal && 0 <= k < n :: cal[k]
  }

  lemma {:induction false} ShownCountIsTotalOfFirstDays(cal: CalendarData, n: nat)
    requires n <= 7
    ensures ShownCount(Columns(cal), n) == TotalBirthdays(DaysBefore(cal, n))
  {
    if n == 0 {
      assert DaysBefore(cal, 0) == map[];
    } else {
      ShownCountIsTotalOfFirstDays(cal, n - 1);
      var d := n - 1;
      var before := DaysBefore(cal, d);
      assert d !in before;
      if d in cal {
        assert DaysBefore(cal, n) == before[d := cal[d]];
        TotalBirthdaysInsert(before, d, cal[d]);
      } else {
        assert DaysBefore(cal, n) == before;
      }
    }
  }

  /** When every key is a weekday, the seven columns together show exactly the announced total. */
  lemma ColumnsShowEveryBirthday(cal: CalendarData)
    requires forall k :: k in cal ==> 0 <= k < 7
    ensures ShownCount(Columns(cal), 7) == TotalBirthdays(cal)
  {
    ShownCountIsTotalOfFirstDays(cal, 7);
    assert DaysBefore(cal, 7) == cal;
  }

  /** A bucket under a key that is not a weekday is announced in the total but shown in no column. */
  lemma HiddenBucketCounted(cal: CalendarData, k: int)
    requires k in cal && !(0 <= k < 7) && forall j :: j in cal && j != k ==> 0 <= j < 7
    ensures TotalBirthdays(cal) == ShownCount(Columns(cal), 7) + |cal[k]|
  {
    var rest := cal - {k};
    TotalBirthdaysRemove(cal, k);
    ColumnsShowEveryBirthday(rest);
    assert Columns(rest) == Columns(cal) by {
      forall i | 0 <= i < 7
        ensures Bucket(rest, i) == Bucket(cal, i)
      {
      }
    }
  }

  /** The hidden live-region text announcing the total. */
  function Summary(total: nat): string
  {
    "Birthday calendar showing " + (DayColumn.CountPhrase(total) + " across the week")
  }

  /** The singular "birthday" is announced for exactly one person. */
  lemma SummarySingular(n: nat)
    ensures Summary(n) == "Birthday calendar showing " + NatToString(n) + " birthday across the week" <==> n == 1
  {
    if n != 1 {
      assert |Summary(n)| == 26 + |NatToString(n)| + 26;
    }
  }

  lemma AfterPrefix(p: string, a: string)
    ensures (p + a)[|p|..] == a
  {
  }

  /** The announced number can be read back from the summary. */
  lemma SummaryDeterminesTotal(n1: nat, n2: nat)
    requires Summary(n1) == Summary(n2)
    ensures n1 == n2
  {
    var p := "Birthday calendar showing ";
    var a1 := DayColumn.CountPhrase(n1) + " across the week";
    var a2 := DayColumn.CountPhrase(n2) + " across the week";
    AfterPrefix(p, a1);
    AfterPrefix(p, a2);
    DayColumn.CountPhraseThen(n1, " across the week");
    DayColumn.CountPhraseThen(n2, " across the week");
    CountPrefixDetermines(n1, n2, (" birthday" + (if n1 == 1 then "" else "s")) + " across the week",
      (" birthday" + (if n2 == 1 then "" else "s")) + " across the week");
  }

  /** Everything the section shows for a calendar. */
  datatype SectionView = SectionView(ariaLabel: string, summary: string, columns: seq<DayColumn.DayColumnView>)

  function RenderCalendarSection(cal: CalendarData): (v: SectionView)
    ensures v.ariaLabel == "Birthday calendar" && v.summary == Summary(TotalBirthdays(cal))
    ensures |v.columns| == 7
    ensures forall i :: 0 <= i < 7 ==>
      v.columns[i] == DayColumn.RenderDayColumn(DAY_NAMES[i], Bucket(cal, i), Bucket(cal, i) == [])
  {
    var cols := Columns(cal);
    SectionView(
      "Birthday calendar",
      Summary(TotalBirthdays(cal)),
      seq(7, i requires 0 <= i < 7 => DayColumn.RenderDayColumn(cols[i].dayName, cols[i].people, cols[i].isEmpty)))
  }

  /**
   * Every rendered column shows the status message exactly when its weekday has nobody,
   * and otherwise shows that weekday's people in order.
   */
  lemma RenderedColumnsAgreeWithData(cal: CalendarData, i: int)
    requires 0 <= i < 7
    ensures RenderCalendarSection(cal).columns[i].content.EmptyStatus? <==> Bucket(cal, i) == []
    ensures DayColumn.ShownPeople(RenderCalendarSection(cal).columns[i]) == Bucket(cal, i)
    ensures RenderCalendarSection(cal).columns[i].heading == DAY_NAMES[i]
  {
    DayColumn.RenderShowsPeople(DAY_NAMES[i], Bucket(cal, i), Bucket(cal, i) == []);
  }

  lemma SummaryTextOfOne()
    ensures Summary(1) == "Birthday calendar showing 1 birthday across the week"
  {
  }

  lemma SummaryTextOfThree()
    ensures Summary(3) == "Birthday calendar showing 3 birthdays across the week"
  {
  }

  /** The section's test calendar with one person, on Monday. */
  lemma TotalOfOneBirthday(p: ProcessedPerson)
    ensures TotalBirthdays(map[0 := [p], 1 := [], 2 := [], 3 := [], 4 := [], 5 := [], 6 := []]) == 1
  {
    var cal: CalendarData := map[0 := [p], 1 := [], 2 := [], 3 := [], 4 := [], 5 := [], 6 := []];
    ColumnsShowEveryBirthday(cal);
    var cols := Columns(cal);
    assert |cols[0].people| == 1;
    ShownCountEmptyTail(cols, 1, 7);
  }

  /** The section's test calendar with two people on Monday and one on Tuesday. */
  lemma TotalOfThreeBirthdays(p: ProcessedPerson, q: ProcessedPerson)
    ensures TotalBirthdays(map[0 := [p, q], 1 := [p], 2 := [], 3 := [], 4 := [], 5 := [], 6 := []]) == 3
  {
    var cal: CalendarData := map[0 := [p, q], 1 := [p], 2 := [], 3 := [], 4 := [], 5 := [], 6 := []];
    ColumnsShowEveryBirthday(cal);
    var cols := Columns(cal);
    assert |cols[0].people| == 2 && |cols[1].people| == 1;
    assert ShownCount(cols, 1) == 2;
    assert ShownCount(cols, 2) == 3;
    ShownCountEmptyTail(cols, 2, 7);
  }
}
