/** `filterListings`: each listing card is shown when the search term occurs,
    ignoring case, in its title or its description, and hidden otherwise. */
module Listings {
  import opened JsText

  /** A `.listing-card` element: the text of its `h3` title, the text of its
      first `p`, and whether its `display` style is `block` (true) or `none`. */
  datatype ListingCard = ListingCard(title: string, description: string, visible: bool)

  /** `title.includes(searchLower) || description.includes(searchLower)` with
      all three lower-cased. */
  predicate MatchesTerm(card: ListingCard, term: string) {
    Includes(Lower(card.title), Lower(term)) || Includes(Lower(card.description), Lower(term))
  }

  /** A card after the filter has run for `term`. */
  function Filtered(card: ListingCard, term: string): ListingCard {
    card.(visible := MatchesTerm(card, term))
  }

  /** The loop of `filterListings` over the listing cards: every card is set
      shown or hidden by the match rule; titles, descriptions, the number of
      cards and their order stay as they were. */
  method FilterListings(cards: array<ListingCard>, term: string)
    modifies cards
    ensures forall k :: 0 <= k < cards.Length ==> cards[k] == Filtered(old(cards[k]), term)
  {
    var searchLower := Lower(term);
    var i := 0;
    while i < cards.Length
      invariant 0 <= i <= cards.Length
      invariant forall k :: 0 <= k < i ==> cards[k] == Filtered(old(cards[k]), term)
      invariant forall k :: i <= k < cards.Length ==> cards[k] == old(cards[k])
    {
      var card := cards[i];
      var show := Includes(Lower(card.title), searchLower) || Includes(Lower(card.description), searchLower);
      cards[i] := card.(visible := show);
      i := i + 1;
    }
  }

  /** A card is shown exactly when the lower-cased term occurs at some position
      of its lower-cased title or description. */
  lemma MatchesTermOccurrence(card: ListingCard, term: string)
    ensures MatchesTerm(card, term) <==>
              (exists i :: OccursAt(Lower(card.title), Lower(term), i))
              || (exists i :: OccursAt(Lower(card.description), Lower(term), i))
  {
  }

  /** An empty term shows every card. */
  lemma EmptyTermShowsAll(card: ListingCard)
    ensures MatchesTerm(card, "")
  {
    assert OccursAt(Lower(card.title), Lower(""), 0);
  }

  /** Matching ignores the case of the term: a term and its lower-cased form
      show the same cards. */
  lemma MatchIgnoresTermCase(card: ListingCard, term: string)
    ensures MatchesTerm(card, term) == MatchesTerm(card, Lower(term))
  {
    LowerIdempotent(term);
  }

  /** Of a "Cozy Loft" and a "Modern Studio", the term "modern" hides the
      first, whatever its description, as long as that description holds no
      `m` or `M`... */
  lemma FilterExampleHidden(description: string, visible: bool)
    requires forall k :: 0 <= k < |description| ==> description[k] != 'm' && description[k] != 'M'
    ensures !MatchesTerm(ListingCard("Cozy Loft", description, visible), "modern")
  {
    var loft := ListingCard("Cozy Loft", description, visible);
    assert Lower("modern") == "modern";
    MissingFirstCharNoMatch(Lower(loft.title), "modern");
    MissingFirstCharNoMatch(Lower(loft.description), "modern");
  }

  /** ...and shows the second, whose title starts with "Modern". */
  lemma FilterExampleShown()
    ensures MatchesTerm(ListingCard("Modern Studio", "Compact studio", false), "modern")
  {
    var studio := Lower("Modern Studio");
    assert Lower("modern") == "modern";
    assert studio[..6] == "modern";
    assert OccursAt(studio, "modern", 0);
  }

  /** Filtering the two cards above for "modern" leaves exactly the second
      one visible. */
  method FilterTwoCardsExample() returns (shown: seq<bool>)
    ensures shown == [false, true]
  {
    var cards := new ListingCard[2];
    cards[0] := ListingCard("Cozy Loft", "Sunny loft near the centre", true);
    cards[1] := ListingCard("Modern Studio", "Compact studio", false);
    FilterExampleHidden("Sunny loft near the centre", true);
    FilterExampleShown();
    FilterListings(cards, "modern");
    shown := [cards[0].visible, cards[1].visible];
  }

  lemma MissingFirstCharNoMatch(hay: string, needle: string)
    requires needle != [] && forall k :: 0 <= k < |hay| ==> hay[k] != needle[0]
    ensures !Includes(hay, needle)
  {
    forall i | 0 <= i && i + |needle| <= |hay| ensures !OccursAt(hay, needle, i) {
      assert hay[i..i + |needle|][0] == hay[i];
    }
  }
}
