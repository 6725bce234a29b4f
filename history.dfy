/**
 * The history sheet: the ten-cell row written for a chosen place (format_history_row)
 * and the set of place identifiers read back from the sheet's rows (the row-to-set part
 * of fetch_history_place_ids).
 */
module History {
  import opened Wrappers
  import opened Places
  import opened NumberText
  import opened Selection

  /** Column positions of a history row. */
  const TimestampColumn: nat := 0
  const EventDateColumn: nat := 1
  const CuisineColumn: nat := 2
  const NameColumn: nat := 3
  const IdColumn: nat := 4
  const RatingColumn: nat := 5
  const ReviewsColumn: nat := 6
  const PriceLevelColumn: nat := 7
  const AddressColumn: nat := 8
  const MapsUriColumn: nat := 9
  const RowWidth: nat := 10

  /** The header cell of the identifier column. */
  const PlaceIdHeader: string := "Google Place ID"

  /** `str(place.get("rating", ""))`: the rendered rating, or "" when absent. */
  function RatingCell(rating: Option<nat>): (cell: string)
    ensures ParseRating(cell) == rating
    ensures rating.None? ==> cell == ""
    ensures rating.Some? ==> cell == RatingToString(rating.value)
  {
    match rating
    case None => ""
    case Some(tenths) => ParseRatingToString(tenths); RatingToString(tenths)
  }

  /** `str(place.get("userRatingCount", ""))`: the rendered count, or "" when absent. */
  function CountCell(count: Option<int>): (cell: string)
    ensures ParseInt(cell) == count
    ensures count.None? ==> cell == ""
    ensures count.Some? ==> cell == IntToString(count.value)
  {
    match count
    case None => ""
    case Some(n) => ParseIntToString(n); IntToString(n)
  }

  /**
   * format_history_row. The two date texts are the ISO renderings of the current time and
   * of the event date, which the caller supplies.
   */
  function FormatHistoryRow(place: Place, cuisine: string, timestamp: string, eventDate: string): (row: seq<string>)
    ensures |row| == RowWidth
    ensures row[TimestampColumn] == timestamp && row[EventDateColumn] == eventDate
    ensures row[CuisineColumn] == cuisine && row[NameColumn] == PlaceName(place)
    ensures row[IdColumn] == place.id.GetOr("")
    ensures ParseRating(row[RatingColumn]) == place.rating
    ensures place.rating.None? ==> row[RatingColumn] == ""
    ensures place.rating.Some? ==> row[RatingColumn] == RatingToString(place.rating.value)
    ensures ParseInt(row[ReviewsColumn]) == place.userRatingCount
    ensures place.userRatingCount.None? ==> row[ReviewsColumn] == ""
    ensures place.userRatingCount.Some? ==> row[ReviewsColumn] == IntToString(place.userRatingCount.value)
    ensures row[PriceLevelColumn] == place.priceLevel.GetOr("")
    ensures row[AddressColumn] == place.formattedAddress.GetOr("")
    ensures row[MapsUriColumn] == place.googleMapsUri.GetOr("")
  {
    [
      timestamp,
      eventDate,
      cuisine,
      PlaceName(place),
      place.id.GetOr(""),
      RatingCell(place.rating),
      CountCell(place.userRatingCount),
      place.priceLevel.GetOr(""),
      place.formattedAddress.GetOr(""),
      place.googleMapsUri.GetOr("")
    ]
  }

  /** The first position of x in xs, if any (the column a header name selects). */
  function IndexOf(xs: seq<string>, x: string): (r: Option<nat>)
    ensures r.None? <==> x !in xs
    ensures r.Some? ==> r.value < |xs| && xs[r.value] == x && x !in xs[..r.value]
  {
    if xs == [] then None
    else if xs[0] == x then Some(0)
    else
      match IndexOf(xs[1..], x)
      case None => None
      case Some(k) => assert xs[..k + 1] == [xs[0]] + xs[1..][..k]; Some(k + 1)
  }

  /** The cells at position k of the given rows, skipping rows too short to have one. */
  function ColumnValues(dataRows: seq<seq<string>>, k: nat): (values: set<string>)
    ensures forall j :: 0 <= j < |dataRows| && k < |dataRows[j]| ==> dataRows[j][k] in values
    ensures forall v :: v in values ==> exists j :: 0 <= j < |dataRows| && k < |dataRows[j]| && dataRows[j][k] == v
  {
    set j | 0 <= j < |dataRows| && k < |dataRows[j]| :: dataRows[j][k]
  }

  /**
   * The identifiers already in the history: the first row is the header; the values are
   * the cells of the "Google Place ID" column in the remaining rows.
   */
  function HistoryIds(rows: seq<seq<string>>): (ids: set<string>)
    ensures rows == [] ==> ids == {}
    ensures rows != [] && PlaceIdHeader !in rows[0] ==> ids == {}
    ensures forall v :: v in ids ==> exists j :: 1 <= j < |rows| && v in rows[j]
  {
    if rows == [] then {}
    else
      match IndexOf(rows[0], PlaceIdHeader)
      case None => {}
      case Some(k) =>
        var ids := ColumnValues(rows[1..], k);
        assert forall v :: v in ids ==> exists j :: 1 <= j < |rows| && v in rows[j] by {
          forall v | v in ids ensures exists j :: 1 <= j < |rows| && v in rows[j] {
            var j :| 0 <= j < |rows[1..]| && k < |rows[1..][j]| && rows[1..][j][k] == v;
            assert rows[j + 1][k] == v;
          }
        }
        ids
  }

  /** Membership, both ways: v is recorded exactly when some data row holds it in the identifier column. */
  lemma HistoryIdsMembership(rows: seq<seq<string>>, k: nat, v: string)
    requires rows != [] && IndexOf(rows[0], PlaceIdHeader) == Some(k)
    ensures v in HistoryIds(rows) <==> exists j :: 1 <= j < |rows| && k < |rows[j]| && rows[j][k] == v
  {
  }

  /** A sheet holding only its header records nothing, not even the header cell. */
  lemma HeaderOnlyIsEmpty(header: seq<string>)
    ensures HistoryIds([header]) == {}
  {
  }

  /** Appending a data row adds exactly its identifier cell, when it has one. */
  lemma HistoryIdsAppend(rows: seq<seq<string>>, row: seq<string>, k: nat)
    requires rows != [] && IndexOf(rows[0], PlaceIdHeader) == Some(k)
    ensures HistoryIds(rows + [row]) == HistoryIds(rows) + (if k < |row| then {row[k]} else {})
  {
    var after := rows + [row];
    assert after[0] == rows[0];
    forall v
      ensures v in HistoryIds(after) <==> v in HistoryIds(rows) || (k < |row| && v == row[k])
    {
      HistoryIdsMembership(rows, k, v);
      HistoryIdsMembership(after, k, v);
      if exists j :: 1 <= j < |after| && k < |after[j]| && after[j][k] == v {
        var j :| 1 <= j < |after| && k < |after[j]| && after[j][k] == v;
        if j < |rows| {
          assert rows[j] == after[j];
        }
      }
      if exists j :: 1 <= j < |rows| && k < |rows[j]| && rows[j][k] == v {
        var j :| 1 <= j < |rows| && k < |rows[j]| && rows[j][k] == v;
        assert after[j] == rows[j];
      }
      if k < |row| && v == row[k] {
        assert after[|rows|] == row;
      }
    }
  }

  /**
   * Once the row for a chosen place is appended to a sheet whose header puts the
   * identifier column where the row has it, the next extraction excludes that place,
   * and every other place keeps the eligibility it had.
   */
  lemma {:induction false} RecordedPlaceIsExcluded(
    rows: seq<seq<string>>, place: Place, cuisine: string, timestamp: string, eventDate: string)
    requires rows != [] && IndexOf(rows[0], PlaceIdHeader) == Some(IdColumn)
    ensures !IsEligible(place, HistoryIds(rows + [FormatHistoryRow(place, cuisine, timestamp, eventDate)]))
    ensures forall q :: IsEligible(q, HistoryIds(rows + [FormatHistoryRow(place, cuisine, timestamp, eventDate)]))
                        <==> IsEligible(q, HistoryIds(rows)) && q.id != place.id
  {
    var row := FormatHistoryRow(place, cuisine, timestamp, eventDate);
    HistoryIdsAppend(rows, row, IdColumn);
  }
}
