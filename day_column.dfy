// One weekday column of the calendar (src/components/DayColumn/index.tsx):
// the grid layout chosen from the number of people, the accessible labels,
// and the choice between the empty-state message and the people's squares.

module DayColumn {
  import opened Types
  import opened Text

  /** Number of grid columns and the side of each square, in pixels. */
  datatype GridConfig = GridConfig(columns: nat, size: nat)

  /** The layout for `count` people; fewer people get fewer columns and larger squares. */
  function GetGridConfig(count: nat): (g: GridConfig)
    ensures 1 <= g.columns <= 4 && 25 <= g.size <= 80
    ensures count == 1 ==> g == GridConfig(1, 80)
  {
    if count == 1 then GridConfig(1, 80)
    else if count == 2 then GridConfig(1, 55)
    else if count == 3 then GridConfig(1, 45)
    else if count == 4 then GridConfig(2, 45)
    else if count <= 6 then GridConfig(2, 38)
    else if count <= 9 then GridConfig(3, 32)
    else if count <= 12 then GridConfig(3, 28)
    else GridConfig(4, 25)
  }

  /** Adding people never removes a column and never enlarges the squares. */
  lemma GetGridConfigMonotone(a: nat, b: nat)
    requires 1 <= a <= b
    ensures GetGridConfig(a).columns <= GetGridConfig(b).columns
    ensures GetGridConfig(a).size >= GetGridConfig(b).size
  {
  }

  /** Rows the grid needs for `count` squares. */
  function GridRows(count: nat): nat
  {
    var c := GetGridConfig(count).columns;
    (count + c - 1) / c
  }

  /**
   * The shapes the layout is designed around: up to three people stacked, then
   * 2x2, two columns of three, 3x3 and three columns of four.
   */
  lemma GridRowsByCount(count: nat)
    requires 1 <= count <= 12
    ensures count <= 3 ==> GridRows(count) == count
    ensures count == 4 ==> GridRows(count) == 2
    ensures 5 <= count <= 9 ==> GridRows(count) == 3
    ensures 10 <= count ==> GridRows(count) == 4
  {
  }

  /** An empty column still gets a layout: two columns of 38-pixel cells. */
  lemma GetGridConfigOfNobody()
    ensures GetGridConfig(0) == GridConfig(2, 38)
  {
  }

  /** "N birthday" or "N birthdays": the count phrase the day column and the calendar summary share. */
  function CountPhrase(n: nat): string
  {
    NatToString(n) + " birthday" + (if n == 1 then "" else "s")
  }

  /** The count phrase followed by more text is the number followed by a non-digit. */
  lemma CountPhraseThen(n: nat, tail: string)
    ensures CountPhrase(n) + tail == NatToString(n) + ((" birthday" + (if n == 1 then "" else "s")) + tail)
    ensures ((" birthday" + (if n == 1 then "" else "s")) + tail)[0] == ' '
  {
  }

  /** The region's accessible name. */
  function RegionLabel(dayName: string): (r: string)
    ensures |r| == |dayName| + 10 && r[..|dayName|] == dayName
    ensures r[|dayName|..] == " birthdays"
  {
    dayName + " birthdays"
  }

  /** The grid group's accessible name. */
  function GroupLabel(dayName: string, count: nat, isEmpty: bool): string
  {
    if isEmpty then "No birthdays on " + dayName
    else CountPhrase(count) + (" on " + dayName)
  }

  /** The count can be read back from the label of a non-empty column. */
  lemma GroupLabelDeterminesCount(dayName: string, n1: nat, n2: nat)
    requires GroupLabel(dayName, n1, false) == GroupLabel(dayName, n2, false)
    ensures n1 == n2
  {
    CountPhraseThen(n1, " on " + dayName);
    CountPhraseThen(n2, " on " + dayName);
    CountPrefixDetermines(n1, n2, (" birthday" + (if n1 == 1 then "" else "s")) + (" on " + dayName),
      (" birthday" + (if n2 == 1 then "" else "s")) + (" on " + dayName));
  }

  /** The singular "birthday" is used for exactly one person. */
  lemma GroupLabelSingular(dayName: string, n: nat)
    ensures GroupLabel(dayName, n, false) == NatToString(n) + " birthday on " + dayName <==> n == 1
  {
    if n != 1 {
      assert |GroupLabel(dayName, n, false)| == |NatToString(n)| + 14 + |dayName|;
    }
  }

  /** An empty column's label cannot be mistaken for a count. */
  lemma GroupLabelEmptyDistinct(dayName: string, n: nat)
    ensures GroupLabel(dayName, 0, true) != GroupLabel(dayName, n, false)
  {
    assert GroupLabel(dayName, 0, true)[0] == 'N';
    assert GroupLabel(dayName, n, false)[0] == NatToString(n)[0];
  }

  lemma RegionAndEmptyLabelExamples()
    ensures RegionLabel("Monday") == "Monday birthdays"
    ensures GroupLabel("Friday", 0, true) == "No birthdays on Friday"
  {
  }

  lemma CountLabelExamples()
    ensures GroupLabel("Monday", 2, false) == "2 birthdays on Monday"
    ensures GroupLabel("Monday", 1, false) == "1 birthday on Monday"
  {
  }

  /** One person's square, with the side length the layout chose. */
  datatype Square = Square(person: ProcessedPerson, size: nat)

  /** The grid's content: the status message, or the screen-reader count and the squares. */
  datatype GroupContent =
    | EmptyStatus(message: string)
    | Squares(countText: string, squares: seq<Square>)

  datatype DayColumnView = DayColumnView(
    regionLabel: string,
    heading: string,
    gridColumns: nat,
    groupLabel: string,
    content: GroupContent)

  function SquaresFor(people: seq<ProcessedPerson>, size: nat): (squares: seq<Square>)
    ensures |squares| == |people|
    ensures forall i :: 0 <= i < |people| ==> squares[i] == Square(people[i], size)
  {
    seq(|people|, i requires 0 <= i < |people| => Square(people[i], size))
  }

  /** What the column shows for `dayName`, its `people` and the parent's `isEmpty` flag. */
  function RenderDayColumn(dayName: string, people: seq<ProcessedPerson>, isEmpty: bool): (v: DayColumnView)
    ensures v.heading == dayName && v.regionLabel == RegionLabel(dayName)
    ensures v.gridColumns == GetGridConfig(|people|).columns
    ensures v.groupLabel == GroupLabel(dayName, |people|, isEmpty)
    ensures v.content.EmptyStatus? <==> isEmpty
  {
    var g := GetGridConfig(|people|);
    DayColumnView(
      RegionLabel(dayName),
      dayName,
      g.columns,
      GroupLabel(dayName, |people|, isEmpty),
      if isEmpty then EmptyStatus("No birthdays")
      else Squares(CountPhrase(|people|) + (" on " + dayName), SquaresFor(people, g.size)))
  }

  /** The people whose squares are shown, in the order shown. */
  function ShownPeople(v: DayColumnView): seq<ProcessedPerson>
  {
    if v.content.EmptyStatus? then []
    else seq(|v.content.squares|, i requires 0 <= i < |v.content.squares| => v.content.squares[i].person)
  }

  /**
   * A non-empty column shows every person once, in input order, all at the layout's size,
   * and its hidden count text is its group label; an empty one shows the status message.
   */
  lemma RenderShowsPeople(dayName: string, people: seq<ProcessedPerson>, isEmpty: bool)
    ensures isEmpty ==> ShownPeople(RenderDayColumn(dayName, people, isEmpty)) == []
    ensures isEmpty ==> RenderDayColumn(dayName, people, isEmpty).content.message == "No birthdays"
    ensures !isEmpty ==> ShownPeople(RenderDayColumn(dayName, people, isEmpty)) == people
    ensures !isEmpty ==> forall s :: s in RenderDayColumn(dayName, people, isEmpty).content.squares ==>
      s.size == GetGridConfig(|people|).size
    ensures !isEmpty ==>
      RenderDayColumn(dayName, people, isEmpty).content.countText == RenderDayColumn(dayName, people, isEmpty).groupLabel
  {
  }
}
