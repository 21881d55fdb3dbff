# Birthday calendar: a Dafny model

The birthday calendar is a single-page web application. It reads a JSON list of people (a name and a `YYYY-MM-DD` birthday each). It then places every birthday in one of seven weekday columns, Monday to Sunday, for a year the user picks. This project models the application's core and proves what it promises:

- the date utilities:
  - the weekday a birthday falls on in a chosen year;
  - ages as year differences;
  - strict date validation;
  - the leap-year rule and month lengths;
- the page's state and its two input handlers, the list of selectable years, and the calendar shown while nobody is loaded;
- one day column: the grid layout chosen from the number of people, the accessible labels, and squares versus the empty state;
- the calendar section: the announced total, the seven-column projection, and the summary text.

The utilities build JavaScript `Date` objects. Module `EcmaDate` replaces the object with the integer arithmetic of the abstract operations of section 21.4.1 of ECMA-262 (15th edition, 2024), cited by name:
- day numbers from DayFromYear and MakeDay;
- WeekDay;
- the constructor's mapping of years 0..99 to 1900..1999 (MakeFullYear);
- the calendar fields the getters read back, computed by a step-by-step normalisation (`Settle`) that provably names the same day.

Files:
- `types.dfy`: records and constants (modules `Types`, `Constants`, from `src/types/index.ts` and `src/constants/index.ts`).
- `text.dfy`: decimal digit strings (module `Text`).
- `ecma_date.dfy`: the `Date` arithmetic (module `EcmaDate`).
- `utils.dfy`: `src/utils/index.ts` (module `Utils`).
- `page.dfy`: `src/app/page.tsx` (module `Page`, with class `BirthdayCalendar` holding the four state fields).
- `day_column.dfy`: `src/components/DayColumn/index.tsx` (module `DayColumn`).
- `calendar_section.dfy`: `src/components/CalendarSection/index.tsx` (module `CalendarSection`).

The page calls two functions whose bodies are not part of this model: `parsePersonsJson` and `organizeIntoCalendarData`. The page's methods take them as function parameters, so every property of the page holds whatever those functions do. `CURRENT_YEAR = new Date().getFullYear()` (src/constants/index.ts:27) reads the clock once, when the constants module loads. That module-load constant becomes the `currentYear` argument of the page's constructor.

Where a doc comment and the code disagree, the model follows the code. Two such cases:
- The doc comment of `getDaysInMonth` promises "Number of days in the month" (src/utils/index.ts:70). The code asks `new Date(year, month, 0)`, which reads years 0..99 as 1900..1999, so year 0 differs (see Findings).
- The doc comment of `getDayOfWeek` says "@param year - The year to calculate the day of week for" (src/utils/index.ts:8). The code's `Date` constructor does the same remapping, so for a target year 0..99 it answers for 1900..1999. `Utils.GetDayOfWeek` models that through `EcmaDate.ConstructorYear`.

## Model

| member | source | states |
|---|---|---|
| Utils.FormatIsoDateOfParts | src/utils/index.ts:36-42 | every string matching the date pattern is the zero-padded spelling of the three numbers `split("-").map(Number)` reads from it |
| Utils.GetDayOfWeek | src/utils/index.ts:11-16 | the weekday is always in 0..6 |
| Utils.GetDayOfWeekIsWeekdayOfDate | src/utils/index.ts:11-16 | the result is the Monday-based weekday of the calendar date the `Date` object holds, the date its getters read back |
| Utils.GetDayOfWeekIgnoresBirthYear | src/utils/index.ts:12-13 | two birthdays with the same month and day give the same weekday in every year; the birth year is discarded |
| Utils.LeapDayRollsOver | src/utils/index.ts:13-15 | in a year without February 29, that birthday is normalised to March 1 and gets March 1's weekday |
| Utils.GetDayOfWeekNextYear | src/utils/index.ts:11-16 | a year later, the same birthday falls one weekday later, or two when a February 29 lies in between |
| Utils.GetDayOfWeekNextDay | src/utils/index.ts:11-16 | the next day of the month falls on the next weekday |
| Utils.GetDayOfWeekFirstWeekOf2024 | src/utils/index.test.ts:19-28 | January 1..7 of 2024 map to 0..6 in order |
| Utils.GetDayOfWeekJanuaryFirst | src/utils/index.test.ts:37-40 | January 1 is a Monday (0) in 2024 and a Saturday (5) in 2000 |
| Utils.GetDayOfWeekJanuarySeventh | src/utils/index.test.ts:27 | January 7 2024 is a Sunday (6) |
| Utils.GetDayOfWeekNewYearsEve | src/utils/index.test.ts:38 | December 31 1999 is a Friday (4) |
| Utils.GetDayOfWeekLeapDay2000 | src/utils/index.test.ts:32 | February 29 2000 is a Tuesday (1) |
| Utils.GetDayOfWeekLeapDay2004 | src/utils/index.test.ts:33 | February 29 2004 is a Sunday (6) |
| Utils.GetDayOfWeekLeapDay2024 | src/utils/index.test.ts:172 | February 29 2024 is a Thursday (3) |
| Utils.GetDayOfWeekLeapDay2028 | src/utils/index.test.ts:173 | February 29 2028 is a Tuesday (1) |
| Utils.GetDayOfWeekLeapDayIn2023 | src/utils/index.ts:13-15 | February 29 placed in 2023 is read as March 1, a Wednesday (2) |
| Utils.GetDayOfWeekMidJune2020 | src/utils/index.test.ts:42-44 | June 15 2020 is a Monday (0) |
| Utils.GetDayOfWeekMidJune2021 | src/utils/index.test.ts:45 | June 15 2021 is a Tuesday (1) |
| Utils.GetDayOfWeekMidJune2022 | src/utils/index.test.ts:46 | June 15 2022 is a Wednesday (2) |
| Utils.GetDayOfWeekYearEnds | src/utils/index.test.ts:176-190 | January 1 and December 31 of 2024 fall on different weekdays (0 and 1) |
| Utils.CalculateAgeOfFormatted | src/utils/index.ts:24-27 | the age is the target year minus the birthday's four-digit year, whatever the month and day |
| Utils.CalculateAgeNextYear | src/utils/index.ts:24-27 | one year later everybody is one year older; ages may be negative |
| Utils.CalculateAgeExamples | src/utils/index.test.ts:50-68 | the test vectors, including a future birth year (-6) and leap-day birthdays |
| Utils.IsLeapYearMatchesDate | src/utils/index.ts:63-65 | the app's leap rule is the rule the `Date` object's year length follows |
| Utils.IsLeapYearExamples | src/utils/index.test.ts:113-130 | 2000, 2004, 2024 and 1600 are leap years; 1900, 1700, 1800, 2100 and 2001 are not |
| Utils.GetDaysInMonth | src/utils/index.ts:73-75 | the result is always in 28..31 |
| Utils.GetDaysInMonthTable | src/utils/index.ts:73-75 | for month 1..12, the result is the Gregorian length of that month in the year the `Date` constructor uses |
| Utils.GetDaysInMonthCorrect | src/utils/index.ts:73-75 | for every year other than 0, the result is the Gregorian month length (31, 30, or February 28/29 by isLeapYear) |
| Utils.DaysInMonth | src/utils/index.ts:63-75 | the Gregorian table: 31 for months 1, 3, 5, 7, 8, 10 and 12; 30 for 4, 6, 9 and 11; February 29 exactly in leap years, else 28 |
| Utils.DaysInMonthIsMonthLength | src/utils/index.ts:73-75 | that table is the `Date` object's month length, with the month shifted to 0-based |
| Utils.DayZeroIsPreviousMonthEnd | src/utils/index.ts:74 | day 0 of a month normalises to the last day of the previous month |
| Utils.GetDaysInMonthYearZero | src/utils/index.ts:63-75 | year 0 is a leap year by isLeapYear, yet getDaysInMonth(0, 2) is 28 |
| Utils.GetDaysInMonthLongMonths | src/utils/index.test.ts:134-146 | January, March, May, July, August, October and December 2024 have 31 days |
| Utils.GetDaysInMonthShortMonths | src/utils/index.test.ts:137-144 | April, June, September and November 2024 have 30 days |
| Utils.GetDaysInMonthLeapFebruaries | src/utils/index.test.ts:148-152 | February has 29 days in 2024, 2000 and 2004 |
| Utils.GetDaysInMonthCommonFebruaries | src/utils/index.test.ts:154-158 | February has 28 days in 2023, 1900 and 2001 |
| Utils.DateRoundTrip | src/utils/index.ts:50-55 | the `Date` round trip returns the same year, month and day exactly when the day is at most the month's length |
| Utils.IsValidDateFormatIff | src/utils/index.ts:34-56 | a string is valid iff it has the shape `dddd-dd-dd`, a year 1000..9999, a month 1..12 and a day from 1 to the month's length |
| Utils.IsValidFormattedDate | src/utils/index.ts:34-56 | the same, for a date given by its three numbers |
| Utils.IsValidDateFormatRejectsShape | src/utils/index.test.ts:78-85 | wrong shapes are rejected, including "999-01-01" and "" (lines 105 and 109) |
| Utils.IsValidDateFormatRejectsRange | src/utils/index.test.ts:87-91 | months 0 and 13 and days 0 and 32 are rejected |
| Utils.IsValidDateFormatRejectsMissingDays | src/utils/index.test.ts:92-93 | "2024-02-30" and "2024-04-31" are rejected |
| Utils.IsValidDateFormatRejectsCenturyLeapDays | src/utils/index.test.ts:99-101 | February 29 of 1900 and 2100 is rejected |
| Utils.IsValidDateFormatRejectsCommonLeapDay | src/utils/index.test.ts:100 | "2001-02-29" is rejected |
| Utils.IsValidDateFormatAcceptsLeapDay2004 | src/utils/index.test.ts:98 | "2004-02-29" is accepted |
| Utils.IsValidDateFormatAcceptsLeapDay2024 | src/utils/index.test.ts:106 | "2024-02-29" is accepted |
| Utils.IsValidDateFormatAcceptsCenturyLeapDay | src/utils/index.test.ts:97 | "2000-02-29" is accepted |
| Utils.IsValidDateFormatAcceptsBounds | src/utils/index.test.ts:107-108 | "1000-01-01" and "9999-12-31" are accepted |
| Utils.IsValidDateFormatAcceptsOrdinaryDays | src/utils/index.test.ts:72-76 | "1990-12-31" and "2024-01-01" are accepted |
| EcmaDate.DayFromYearStep | src/utils/index.ts:74 | consecutive years start one year's length apart |
| EcmaDate.DayFromYearMonotone | src/utils/index.ts:50 | later years start later |
| EcmaDate.Settle | src/utils/index.ts:50 | the normalised fields are canonical: a month 0..11 and a date within that month |
| EcmaDate.SettleKeepsDay | src/utils/index.ts:50 | normalising never changes the day that is named |
| EcmaDate.ConstructedFields | src/utils/index.ts:50-55 | `getFullYear`, `getMonth` and `getDate` of `new Date(year, month, date)` form canonical fields |
| EcmaDate.ConstructedFieldsDay | src/utils/index.ts:50-55 | those fields name the day MakeDay computes |
| EcmaDate.CanonicalUnique | src/utils/index.ts:50-55 | a day number has exactly one canonical spelling, so the getters are determined by the day |
| EcmaDate.ConstructedWeekDay | src/utils/index.ts:13-15 | `getDay()` is in 0..6 |
| EcmaDate.ConstructedWeekDayNextDate | src/utils/index.ts:13-15 | one date later is one weekday later |
| EcmaDate.ConstructedWeekDayNextYear | src/utils/index.ts:13-15 | the same month and date a year later is one weekday on, or two across a February 29 |
| EcmaDate.LeapDayOutsideLeapYear | src/utils/index.ts:13 | in a year without February 29, `new Date(year, 1, 29)` is March 1 |
| Page.TrimStart | src/app/page.tsx:48 | removes exactly the longest white-space prefix |
| Page.TrimEnd | src/app/page.tsx:48 | removes exactly the longest white-space suffix |
| Page.TrimEmptyIff | src/app/page.tsx:48 | `!json.trim()` holds exactly when every character is ECMAScript white space or a line terminator |
| Page.TrimIdempotent | src/app/page.tsx:48 | trimming twice is trimming once |
| Page.ErrorMessage | src/app/page.tsx:62 | the parser's error when it is a non-empty string, otherwise "Unknown parsing error"; never empty |
| Page.EmptyCalendarData | src/app/page.tsx:28-35 | keys exactly 0..6, each bucket empty |
| Page.EmptyCalendar | src/app/page.tsx:30-34 | the loop builds exactly that calendar |
| Page.BirthdayCalendar.constructor | src/app/page.tsx:12-15 | no people, the current year selected, empty input, no error |
| Page.BirthdayCalendar.HandleJsonChange | src/app/page.tsx:41-64 | the input is always recorded and the year kept; blank input clears people and error; a successful parse replaces people and clears the error; a failed one keeps people and shows the error |
| Page.BirthdayCalendar.HandleYearChange | src/app/page.tsx:67-70 | only the selected year changes |
| Page.BirthdayCalendar.AvailableYears | src/app/page.tsx:18-24 | currentYear, currentYear - 1, ..., 2000: length currentYear - 2000 + 1 (or 0), strictly descending, each year of the range exactly once |
| Page.BirthdayCalendar.ShownCalendar | src/app/page.tsx:27-38 | with nobody loaded, keys 0..6 with empty buckets; otherwise whatever organizeIntoCalendarData returns for the people and the selected year |
| Page.BirthdayCalendar.ComputeCalendarData | src/app/page.tsx:27-38 | the memo's computation, loop included, gives that calendar |
| Page.FailedParseKeepsPeople | src/app/app-integration.test.tsx:99-107 | after a valid input, an invalid one and a year change, the valid people remain, the error shows, and no shown error is ever the empty string |
| Page.ClearingEmptiesCalendar | src/app/page.tsx:48-51 | clearing the input after a valid one shows the empty calendar |
| DayColumn.GetGridConfig | src/components/DayColumn/index.tsx:12-21 | 1..4 columns, squares 25..80 pixels; one person gets one column of 80 |
| DayColumn.GetGridConfigMonotone | src/components/DayColumn/index.tsx:12-21 | from one person up, more people never mean fewer columns or larger squares |
| DayColumn.GridRowsByCount | src/components/DayColumn/index.tsx:13-19 | the shapes the layout comments name: stacks of up to 3, then 2x2, 2x3, 3x3 and 3x4 |
| DayColumn.GetGridConfigOfNobody | src/components/DayColumn/index.tsx:17 | zero people fall into the "up to six" case: 2 columns of 38 pixels |
| DayColumn.RegionLabel | src/components/DayColumn/index.tsx:29 | the label is the day name followed by " birthdays" |
| DayColumn.GroupLabelDeterminesCount | src/components/DayColumn/index.tsx:46-50 | the count can be read back from a non-empty column's label |
| DayColumn.GroupLabelSingular | src/components/DayColumn/index.tsx:49 | the singular "birthday" is used exactly for one person |
| DayColumn.GroupLabelEmptyDistinct | src/components/DayColumn/index.tsx:46-50 | the empty label differs from every count label |
| DayColumn.RegionAndEmptyLabelExamples | src/components/accessibility.test.tsx:55-62 | "Monday birthdays"; "No birthdays on Friday" |
| DayColumn.CountLabelExamples | src/components/accessibility.test.tsx:80-89 | "2 birthdays on Monday"; "1 birthday on Monday" |
| DayColumn.RenderDayColumn | src/components/DayColumn/index.tsx:25-76 | heading, region label, grid columns and group label of the column; the status message appears exactly when isEmpty |
| DayColumn.RenderShowsPeople | src/components/DayColumn/index.tsx:55-71 | when not empty, every person is shown once, in input order, at the layout's size, and the hidden count text equals the group label; when empty, no squares and "No birthdays" |
| CalendarSection.TotalBirthdaysRemove | src/components/CalendarSection/index.tsx:12-15 | the sum does not depend on the order of the buckets: any bucket can be counted first |
| CalendarSection.TotalBirthdaysInsert | src/components/CalendarSection/index.tsx:12-15 | adding a bucket adds its length |
| CalendarSection.TotalBirthdaysOfEmptyBuckets | src/components/CalendarSection/index.tsx:12-15 | all-empty buckets sum to 0 |
| CalendarSection.Columns | src/components/CalendarSection/index.tsx:28-40 | seven columns in DAY_NAMES order; column i shows bucket i and isEmpty holds iff that bucket is empty |
| CalendarSection.ColumnsShowEveryBirthday | src/components/CalendarSection/index.tsx:12-40 | when every key is a weekday, the columns show exactly the announced total |
| CalendarSection.HiddenBucketCounted | src/components/CalendarSection/index.tsx:12-40 | a bucket under a key outside 0..6 is counted in the total but shown in no column |
| CalendarSection.SummarySingular | src/components/CalendarSection/index.tsx:25-26 | the summary says "birthday" in the singular exactly when the total is 1 |
| CalendarSection.SummaryDeterminesTotal | src/components/CalendarSection/index.tsx:25-26 | the total can be read back from the summary |
| CalendarSection.SummaryTextOfOne | src/components/accessibility.test.tsx:110-118 | "Birthday calendar showing 1 birthday across the week" |
| CalendarSection.SummaryTextOfThree | src/components/accessibility.test.tsx:120-137 | "Birthday calendar showing 3 birthdays across the week" |
| CalendarSection.TotalOfOneBirthday | src/components/accessibility.test.tsx:93-101 | the test calendar with one person on Monday totals 1 |
| CalendarSection.TotalOfThreeBirthdays | src/components/accessibility.test.tsx:121-129 | the test calendar with two people on Monday and one on Tuesday totals 3 |
| CalendarSection.RenderCalendarSection | src/components/CalendarSection/index.tsx:17-42 | the section's label, the summary of the total, and column i rendered from DAY_NAMES[i] and bucket i |
| CalendarSection.RenderedColumnsAgreeWithData | src/components/CalendarSection/index.tsx:28-40 | a rendered column shows the status message exactly when its weekday has nobody, and otherwise that weekday's people in order |

## Left out

- `parsePersonsJson` and `organizeIntoCalendarData`: their bodies are not part of this model. The page takes them as function parameters. The other utilities the tests import are not modelled either (`validatePerson`, `processPersons`, `sortPeopleByAge`, `assignColorsWithinDays`, `calculateSquareSize`, `getInitials`, `formatDateOfBirth`).
- `JSON.parse` is not modelled; it sits behind the parser parameter.
- `CURRENT_YEAR` reads the clock when its module loads. It is the constructor's `currentYear` argument.
- The `Date` object's time values, the local time zone and TimeClip (NaN beyond 8.64e15 ms) are left out. Only calendar fields are written and read back, so the zone does not matter, except in zones whose history skips a calendar day: there `new Date(2011, 11, 30)` in Pacific/Apia reads back as 31 December, and `isValidDateFormat("2011-12-30")` is false. Years far enough out to hit TimeClip are not distinguished.
- Utils.GetDayOfWeek and Utils.CalculateAge require a string matching the date pattern; their behaviour on other strings is not modelled. There the source still computes: `getDayOfWeek("2024-1-5", y)` reads month 1 and day 5, `Number` trims a trailing space, and `calculateAge("1990", y)` is `y - 1990`. Neither is called by the page; `organizeIntoCalendarData` calls them, and its body is not part of this model.
- Utils.IsLeapYear uses Dafny's remainder, which is Euclidean. JavaScript's `%` truncates, but both are zero exactly for multiples, so the test agrees for negative years too.
- React hooks are not modelled: memoisation, `useCallback` identity and re-rendering. The page's memo is modelled as the function `ShownCalendar` plus the method `ComputeCalendarData`.
- JSX markup and CSS class names are not modelled. Only the texts, labels, layout numbers and squares a reader can perceive are.
- Element ids built with `toLowerCase()`, and the `aria-describedby` links between them, are left out. Full Unicode case mapping is not worth modelling for them.
- PersonSquare (font size `Math.max(size * 0.3, 10)`, initials, keyboard handler) is not part of this model. A square is modelled as its person and its size.
- CalendarSection.TotalBirthdays sums the buckets in increasing key order. `Object.values` uses JavaScript's property order, but CalendarSection.TotalBirthdaysRemove proves the order does not matter.
- Page.Trim removes a fixed list of code points: the ECMAScript WhiteSpace and LineTerminator characters, with the Unicode space separators listed as they stand today. Later changes to that Unicode category are not tracked.

## Findings

| source | as written | input that shows it | evidently intended | confidence | as-written member | corrected member |
|---|---|---|---|---|---|---|
| src/utils/index.ts:73-75 | `new Date(year, month, 0).getDate()` goes through the constructor, which reads years 0..99 as 1900..1999 | `getDaysInMonth(0, 2)` is 28, while `isLeapYear(0)` is true, so a Gregorian February of year 0 has 29 days | the Gregorian month length for every year, February by isLeapYear | low: years below 100 never reach this code from the page, since valid birthdays have four-digit years; not executed | Utils.GetDaysInMonthYearZero | Utils.GetDaysInMonthCorrect |
