/** The eligibility filter and the random pick among the survivors (choose_place). */
module Selection {
  import opened Wrappers
  import opened Places

  /**
   * A place may be chosen when it has a present, non-empty identifier that is not in the
   * history, a rating of at least MinRating and at least MinReviews reviews. A missing
   * rating or review count counts as 0.
   */
  predicate IsEligible(place: Place, historyIds: set<string>)
    ensures IsEligible(place, historyIds) ==> place.rating.Some? && place.userRatingCount.Some?
  {
    && place.id.Some?
    && place.id.value != ""
    && place.id.value !in historyIds
    && place.rating.GetOr(0) >= MinRating
    && place.userRatingCount.GetOr(0) >= MinReviews
  }

  /** The input filtered by IsEligible, in input order and with repetitions kept. */
  function Eligible(places: seq<Place>, historyIds: set<string>): (eligible: seq<Place>)
    ensures |eligible| <= |places|
    ensures forall p :: p in eligible ==> p in places && IsEligible(p, historyIds)
    ensures forall i :: 0 <= i < |places| && IsEligible(places[i], historyIds) ==> places[i] in eligible
    decreases |places|
  {
    if places == [] then []
    else
      var last := places[|places| - 1];
      var init := places[..|places| - 1];
      assert forall i :: 0 <= i < |init| ==> init[i] == places[i];
      Eligible(init, historyIds) + (if IsEligible(last, historyIds) then [last] else [])
  }

  /**
   * choose_place: collects the eligible places in one pass and returns one of them, or
   * None when there is none. The random pick is an arbitrary index of the eligible list.
   */
  method ChoosePlace(places: seq<Place>, historyIds: set<string>) returns (chosen: Option<Place>)
    ensures chosen.None? <==> forall i :: 0 <= i < |places| ==> !IsEligible(places[i], historyIds)
    ensures chosen.Some? ==> chosen.value in Eligible(places, historyIds) && chosen.value in places
    ensures chosen.Some? ==>
              chosen.value.id.Some? && chosen.value.id.value != "" && chosen.value.id.value !in historyIds
    ensures chosen.Some? ==> chosen.value.rating.Some? && chosen.value.rating.value >= MinRating
    ensures chosen.Some? ==>
              chosen.value.userRatingCount.Some? && chosen.value.userRatingCount.value >= MinReviews
  {
    var eligible: seq<Place> := [];
    for i := 0 to |places|
      invariant eligible == Eligible(places[..i], historyIds)
    {
      var place := places[i];
      var placeId := place.id;
      var rating := place.rating.GetOr(0);
      var reviews := place.userRatingCount.GetOr(0);
      EligibleStep(places, i, historyIds);
      assert IsEligible(place, historyIds) <==>
        !(placeId.None? || placeId.value == "" || placeId.value in historyIds) &&
        !(rating < MinRating || reviews < MinReviews);
      if placeId.None? || placeId.value == "" || placeId.value in historyIds {
        continue;
      }
      if rating < MinRating || reviews < MinReviews {
        continue;
      }
      eligible := eligible + [place];
    }
    assert places[..|places|] == places;
    if eligible == [] {
      assert forall i :: 0 <= i < |places| ==> places[i] !in eligible;
      return None;
    }
    var k :| 0 <= k < |eligible|;
    chosen := Some(eligible[k]);
    assert eligible[k] in eligible;
  }

  /** Extending a prefix by one place extends its filtered list by that place when it is eligible. */
  lemma EligibleStep(places: seq<Place>, i: nat, historyIds: set<string>)
    requires i < |places|
    ensures Eligible(places[..i + 1], historyIds)
            == Eligible(places[..i], historyIds) + (if IsEligible(places[i], historyIds) then [places[i]] else [])
  {
    assert places[..i + 1][..i] == places[..i];
  }

  /** Filtering a concatenation filters each part. */
  lemma {:induction false} EligibleAppend(a: seq<Place>, b: seq<Place>, historyIds: set<string>)
    ensures Eligible(a + b, historyIds) == Eligible(a, historyIds) + Eligible(b, historyIds)
    decreases |b|
  {
    if b == [] {
      assert a + b == a;
    } else {
      var init := b[..|b| - 1];
      assert (a + b)[..|a + b| - 1] == a + init;
      assert (a + b)[|a + b| - 1] == b[|b| - 1];
      EligibleAppend(a, init, historyIds);
    }
  }

  /** A one-place list is kept exactly when the place is eligible. */
  lemma EligibleSingleton(place: Place, historyIds: set<string>)
    ensures Eligible([place], historyIds) == if IsEligible(place, historyIds) then [place] else []
  {
  }

  /** When every place is eligible, none is dropped and the order is unchanged. */
  lemma {:induction false} EligibleKeepsAll(places: seq<Place>, historyIds: set<string>)
    requires forall i :: 0 <= i < |places| ==> IsEligible(places[i], historyIds)
    ensures Eligible(places, historyIds) == places
    decreases |places|
  {
    if places != [] {
      var init := places[..|places| - 1];
      EligibleKeepsAll(init, historyIds);
      assert init + [places[|places| - 1]] == places;
    }
  }

  /** Filtering twice with the same history changes nothing more. */
  lemma {:induction false} EligibleIdempotent(places: seq<Place>, historyIds: set<string>)
    ensures Eligible(Eligible(places, historyIds), historyIds) == Eligible(places, historyIds)
  {
    var e := Eligible(places, historyIds);
    EligibleKeepsAll(e, historyIds);
  }

  /**
   * A larger history only removes places: filtering with it equals filtering the
   * survivors of the smaller history again.
   */
  lemma {:induction false} EligibleHistoryGrows(places: seq<Place>, smaller: set<string>, larger: set<string>)
    requires smaller <= larger
    ensures Eligible(places, larger) == Eligible(Eligible(places, smaller), larger)
    decreases |places|
  {
    if places != [] {
      var init := places[..|places| - 1];
      var last := places[|places| - 1];
      EligibleHistoryGrows(init, smaller, larger);
      var tail := if IsEligible(last, smaller) then [last] else [];
      EligibleAppend(Eligible(init, smaller), tail, larger);
      EligibleSingleton(last, larger);
    }
  }
}
