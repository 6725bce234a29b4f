# Weekly restaurant picker: verified model of its decision logic

The application picks a random cuisine, asks a places-search API for matching
restaurants, and drops every place that was already visited or falls below the
quality thresholds. It then picks one of the remaining places at random, appends a
ten-cell row to a history spreadsheet, and books a calendar event for the next Monday
evening. This project models the parts of that flow that decide something, and proves
what they promise:

- `Places` holds the place record as the search returns it, with every attribute
  optional. It also holds the thresholds (4.2 stars, 200 reviews) and the display-name
  lookup with its "Unknown Restaurant" default.
- `Selection` holds the eligibility test, the filtered list it defines, and
  `ChoosePlace`. `ChoosePlace` is the one-pass loop that collects eligible places and
  picks one of them, or returns nothing when none is left. Lemmas pin the filtered list
  down: it is sound and complete, it maps concatenation to concatenation, it keeps a
  list whose places are all eligible unchanged, it is idempotent, and it is monotone in
  the history.
- `Dates` computes the next Monday strictly after today, on proleptic Gregorian
  ordinals. Weekdays are computed from the ordinal, with Monday as 0.
- `NumberText` renders numbers as text for the sheet cells: an integer, and a rating
  given as a one-decimal float. A parser for each shows that the cell can be read back.
- `History` builds the ten-cell history row and extracts the set of visited
  identifiers from the sheet, where the first row is the header. It also proves that
  once a chosen place's row is appended, the next run cannot choose that place again.
  Other places keep their eligibility, except a place that shares the chosen place's
  identifier, which is excluded with it. This assumes the sheet reads back exactly the
  rows written; the spreadsheet's own interpretation of entered values (the
  `USER_ENTERED` option) and its trimming of trailing empty cells are not modelled.

Representation choices:
- The rating is an optional natural number in tenths of a star, so `MIN_RATING` is 42.
  A missing rating or review count counts as 0, so such a place is never chosen.
- `random.choice` becomes an arbitrary index into the eligible list. The model makes
  no claim about the distribution.
- "Today" is an input: the ordinal of the current date. Python's `date.weekday()` is
  `(ordinal + 6) % 7`.
- Adding the offset past 9999-12-31 raises `OverflowError` in the source. The model
  returns `None` there.
- The two ISO date strings in a history row are inputs to `FormatHistoryRow`.
- The sheet is a sequence of rows of strings. The DataFrame step becomes: find the
  first header cell equal to "Google Place ID", then take that cell of every later row
  that is long enough to have one.

A place with an empty identifier string is ineligible, just like a place with no
identifier, because the check is `not place_id` (app/app.py:123).

Reading the first row as the header has a consequence when the sheet starts out
blank: the first appended row becomes the header. On the run right after, the sheet
holds only that row, and `HeaderOnlyIsEmpty` gives the empty set. That row has no
"Google Place ID" cell, so on later runs `HistoryIds` is empty too, by its clause for a
header without that column. The exception is that once the longest later row differs
in length from that row, the read fails on that run and on every run after. Either way
no place is ever excluded. `RecordedPlaceIsExcluded` therefore assumes a header whose
"Google Place ID" column is column 4, where the row puts the identifier.

## Model

| member | source | states |
|---|---|---|
| `Places.PlaceName` | app/app.py:133-134 | the display text when the place has a display name with text; "Unknown Restaurant" when either is missing |
| `Selection.IsEligible` | app/app.py:120-126 | the eligibility test; a place that passes it has a present rating and a present review count, since a missing one counts as 0 and falls below both thresholds |
| `Selection.Eligible` | app/app.py:118-127 | the filtered list is no longer than the input; each of its places is in the input and eligible; each eligible input place is in it |
| `Selection.ChoosePlace` | app/app.py:117-130 | returns None exactly when no input place is eligible; otherwise a place from the filtered list that is also in the input, with a present non-empty id outside the history, a present rating of at least 4.2 and a present count of at least 200 |
| `Selection.EligibleStep` | app/app.py:119-127 | one loop iteration: the filtered prefix grows by the place exactly when it passes both checks |
| `Selection.EligibleAppend` | app/app.py:118-127 | filtering keeps input order: the filter of a concatenation is the concatenation of the filters |
| `Selection.EligibleSingleton` | app/app.py:119-127 | a single place is kept exactly when it is eligible (with EligibleAppend this fixes the filtered list uniquely) |
| `Selection.EligibleKeepsAll` | app/app.py:118-127 | when every place is eligible the filtered list is the input itself, order and repetitions included |
| `Selection.EligibleIdempotent` | app/app.py:118-127 | filtering the filtered list again changes nothing |
| `Selection.EligibleHistoryGrows` | app/app.py:120-124 | a larger history only removes places: filtering with it equals re-filtering the smaller history's survivors |
| `Dates.Weekday` | app/app.py:50 | the weekday is between 0 (Monday) and 6 |
| `Dates.WeekdayAfter` | app/app.py:50-53 | moving k days forward moves the weekday k places, modulo 7 |
| `Dates.NextMonday` | app/app.py:48-53 | the result is 1 to 7 days after today and is a Monday; it is exactly 7 days ahead iff today is a Monday; no Monday lies strictly between; None exactly when no Monday follows today before the date range ends |
| `NumberText.NatToString` | app/app.py:177 | the text of a natural number is a non-empty digit string; it starts with '0' exactly when the number is 0, and then it is that single digit |
| `NumberText.IntToString` | app/app.py:177 | `str` of an integer: non-empty, starting with '-' exactly when the integer is negative, digits after the sign with no leading zero |
| `NumberText.RatingToString` | app/app.py:176 | `str` of a one-decimal rating: digits with no leading zero, a point, one digit |
| `NumberText.ParseNatToString` | app/app.py:177 | the digits of n read back as n |
| `NumberText.ParseIntToString` | app/app.py:177 | `str` of an integer, sign included, reads back as that integer |
| `NumberText.ParseRatingToString` | app/app.py:176 | `str` of a one-decimal rating reads back as the same number of tenths |
| `History.RatingCell` | app/app.py:176 | the rating cell is `str` of the place's rating (RatingToString) and reads back as it; an absent rating gives the empty cell |
| `History.CountCell` | app/app.py:177 | the review-count cell is `str` of the place's count and reads back as it; an absent count gives the empty cell |
| `History.FormatHistoryRow` | app/app.py:168-181 | exactly ten cells in the order timestamp, event date, cuisine, name, id, rating, reviews, price level, address, maps link; the id, price, address and link default to ""; the rating and review cells are RatingToString and IntToString of the place's values, which read back as those values, and are "" when the value is absent |
| `History.IndexOf` | app/app.py:81 | None exactly when the name is not in the header; otherwise the first position holding it |
| `History.ColumnValues` | app/app.py:83 | the set holds the identifier cell of every data row long enough to have one, and nothing else |
| `History.HistoryIds` | app/app.py:77-83 | empty for an empty sheet and for a header without "Google Place ID"; every value comes from a row after the header |
| `History.HistoryIdsMembership` | app/app.py:80-83 | a value is in the set iff some row after the header holds it in the identifier column |
| `History.HeaderOnlyIsEmpty` | app/app.py:78-83 | a sheet holding only its header yields the empty set, so the header cell itself is never included |
| `History.HistoryIdsAppend` | app/app.py:80-83 | appending a row adds exactly its identifier cell, or nothing when the row is too short to have one |
| `History.RecordedPlaceIsExcluded` | app/app.py:120-123 | after a chosen place's row is appended, that place is ineligible; every other place is eligible exactly when it was before, unless it shares the place's id |

## Left out

- The Streamlit page, the button-driven pipeline and its success, warning and error messages: user-interface plumbing.
- `load_service_account_info` and `build_google_clients`: credential loading and client construction by foreign SDKs.
- `search_places`, `append_history_row` and `create_calendar_event`: network calls. The event's 18:00 to 20:00 time-zone-aware window depends on the time-zone database.
- Reading the clock, the time zone, and ISO formatting of the timestamp and event date. The model takes today's ordinal and the two ISO strings as inputs.
- The random pick of a cuisine from the fixed list, and the distribution of both random choices.
- IEEE floating point in `rating < MIN_RATING`. Ratings are exact tenths, which matches for the one-decimal ratings the API reports.
- NumberText.RatingToString: assumes the rating is decoded as a float. If the JSON carried an integral rating as an integer, Python would write "5", not "5.0".
- pandas: the DataFrame constructor raises when the longest data row's length differs from the header's. That error path is not modelled.
- History.HistoryIds: a header that names "Google Place ID" twice is modelled by its first occurrence. pandas would yield a frame rather than a column there.
- History.HistoryIds: `dropna` and `astype(str)` are modelled only for the string cells the sheet returns. Missing trailing cells count as absent.
- JSON `null` values for place attributes. The source would raise a type error comparing `None` with a number. The model treats attributes as either present with a value or absent.
