/** A place as the text search of the places API returns it, and the thresholds the selection uses. */
module Places {
  import opened Wrappers

  /** The `displayName` object of a place; only its `text` is used. */
  datatype LocalizedText = LocalizedText(text: Option<string>)

  /**
   * One entry of the search response. Every attribute may be missing from the response.
   * The rating is kept in tenths of a star (4.2 stars is 42), which is exact for the
   * one-decimal ratings the API reports.
   */
  datatype Place = Place(
    id: Option<string>,
    displayName: Option<LocalizedText>,
    rating: Option<nat>,
    userRatingCount: Option<int>,
    priceLevel: Option<string>,
    formattedAddress: Option<string>,
    googleMapsUri: Option<string>)

  /** MIN_RATING, 4.2 stars, in tenths of a star. */
  const MinRating: nat := 42

  /** MIN_REVIEWS. */
  const MinReviews: int := 200

  /** The name used when a place carries no display text. */
  const UnknownName: string := "Unknown Restaurant"

  /** get_place_name: the display text when present, else the fixed placeholder. */
  function PlaceName(place: Place): (name: string)
    ensures place.displayName.Some? && place.displayName.value.text.Some? ==>
              name == place.displayName.value.text.value
    ensures place.displayName.None? || place.displayName.value.text.None? ==>
              name == UnknownName
  {
    place.displayName.GetOr(LocalizedText(None)).text.GetOr(UnknownName)
  }
}
