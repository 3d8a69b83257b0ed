/** The Prospector game session: the deal, the pile transitions and the click
    state machine. The cards of the deck are records in a card store and are
    named by their index in it; the piles are lists of indices. Each method
    reassigns the piles and writes the per-card fields (state, faceUp, layoutID,
    slotDef, hiddenBy) of the cards it touches, as the game does in place. */
module ProspectorGame {
  import opened ProspectorRules
  import opened StoreEffects

  class Prospector {
    /** Every card of the shuffled deck, in deck order; a card is its index here. */
    var cards: seq<Card>
    /** The parsed layout's slot definitions, in deal order. */
    const slotDefs: seq<SlotDef>

    var drawPile: seq<nat>
    var tableau: seq<nat>
    var discardPile: seq<nat>
    var target: Option<nat>

    /** Every pile names cards of the game, the draw pile and the tableau hold
        each card at most once, and every covering reference names a card. */
    ghost predicate Valid()
      reads this
    {
      && NoDup(drawPile) && NoDup(tableau)
      && InBounds(drawPile, |cards|) && InBounds(tableau, |cards|)
      && InBounds(discardPile, |cards|)
      && (target.Some? ==> target.value < |cards|)
      && CoversInBounds(cards)
    }

    /** The session as Start leaves it: every card in the draw pile, nothing on
        the tableau, the discard pile or the target, and no covering references. */
    ghost predicate BeforeDeal()
      reads this
    {
      && Valid()
      && tableau == [] && discardPile == [] && target.None?
      && forall i :: 0 <= i < |cards| ==> i in drawPile && cards[i].hiddenBy == []
    }

    /** The session during play: there is a target, and each card's state names
        the one pile that holds it. */
    ghost predicate InPlay()
      reads this
    {
      && Valid() && target.Some?
      && StatesNamePiles(cards, drawPile, tableau, target.value, discardPile)
    }

    /** Start, without the deck and layout parsing: the shuffled deck and the
        parsed slots are given, the draw pile is the whole deck in order, and
        LayoutGame deals from it. */
    constructor (deck: seq<Card>, layout: seq<SlotDef>)
      requires forall i :: 0 <= i < |deck| ==> deck[i].hiddenBy == []
      requires |deck| > |layout| && CoversNameSlots(layout)
      ensures InPlay() && slotDefs == layout
      ensures tableau == Range(|deck|)[..|layout|]
      ensures target == Some(|layout|)
      ensures drawPile == Range(|deck|)[|layout| + 1..]
      ensures discardPile == []
      ensures cards == Layout(deck, Range(|deck|), layout)
    {
      cards := deck;
      slotDefs := layout;
      drawPile := Range(|deck|);
      tableau := [];
      discardPile := [];
      target := None;
      new;
      forall i | 0 <= i < |cards|
        ensures i in drawPile && cards[i].hiddenBy == []
      {
        assert drawPile[i] == i;
      }
      LayoutGame();
    }

    /** Draw: takes the front card of the draw pile. */
    method Draw() returns (cd: nat)
      requires Valid() && drawPile != []
      modifies this`drawPile
      ensures Valid()
      ensures cd == old(drawPile[0]) && cd < |cards|
      ensures drawPile == old(drawPile[1..])
    {
      cd := drawPile[0];
      drawPile := drawPile[1..];
    }

    /** FindCardByLayoutID: the first tableau card dealt to a slot with this id,
        or None. */
    method FindCardByLayoutID(layoutID: int) returns (r: Option<nat>)
      requires InBounds(tableau, |cards|)
      ensures r == FirstWithLayoutID(cards, tableau, layoutID)
    {
      for k := 0 to |tableau|
        invariant FirstWithLayoutID(cards, tableau, layoutID) == FirstWithLayoutID(cards, tableau[k..], layoutID)
      {
        if cards[tableau[k]].layoutID == layoutID {
          return Some(tableau[k]);
        }
        assert tableau[k..][1..] == tableau[k + 1..];
      }
      return None;
    }

    /** MoveToDiscard: the card goes on top of the discard pile, face up. */
    method MoveToDiscard(cd: nat)
      requires Valid() && cd < |cards|
      modifies this`discardPile, this`cards
      ensures Valid()
      ensures discardPile == old(discardPile) + [cd]
      ensures cards == old(cards)[cd := old(cards[cd]).(state := Discard, faceUp := true)]
    {
      cards := cards[cd := cards[cd].(state := Discard)];
      discardPile := discardPile + [cd];
      cards := cards[cd := cards[cd].(faceUp := true)];
    }

    /** MoveToTarget: a present target is discarded first; the card then becomes
        the target, face up. */
    method MoveToTarget(cd: nat)
      requires Valid() && cd < |cards|
      modifies this`target, this`discardPile, this`cards
      ensures Valid()
      ensures target == Some(cd)
      ensures old(target).None? ==>
        && discardPile == old(discardPile)
        && cards == old(cards)[cd := old(cards[cd]).(state := Target, faceUp := true)]
      ensures old(target).Some? ==>
        && discardPile == old(discardPile) + [old(target).value]
        && cards == old(cards)[old(target).value := old(cards[target.value]).(state := Discard, faceUp := true)]
                              [cd := old(cards[cd]).(state := Target, faceUp := true)]
    {
      if target.Some? {
        MoveToDiscard(target.value);
      }
      target := Some(cd);
      cards := cards[cd := cards[cd].(state := Target, faceUp := true)];
    }

    /** CardClicked. A click on the target does nothing, and neither does a
        click on a discarded card (no case handles that state). A click on the
        draw pile discards the target, then makes the next card of the draw pile
        the target; the old target is still set when MoveToTarget runs, so it is
        discarded a second time. A click on a tableau card plays it when it is
        face up and adjacent in rank to the target, and does nothing otherwise. */
    method CardClicked(cd: nat)
      requires InPlay() && cd < |cards|
      modifies this
      ensures InPlay()
      ensures old(cards[cd].state == Target || cards[cd].state == Discard) ==> unchanged(this)
      ensures old(cards[cd].state == Tableau && !(cards[cd].faceUp && AdjacentRank(cards[cd], cards[target.value]))) ==>
        unchanged(this)
      ensures old(cards[cd].state == Tableau && cards[cd].faceUp && AdjacentRank(cards[cd], cards[target.value])) ==>
        && tableau == RemoveFirst(old(tableau), cd)
        && target == Some(cd)
        && discardPile == old(discardPile) + [old(target).value]
        && drawPile == old(drawPile)
        && cards == TableauPlay(old(cards), old(tableau), old(target).value, cd)
      ensures old(cards[cd].state) == Drawpile ==>
        && old(drawPile) != []
        && target == Some(old(drawPile[0]))
        && drawPile == old(drawPile[1..])
        && tableau == old(tableau)
        && discardPile == old(discardPile) + [old(target).value, old(target).value]
        && cards == DrawClick(old(cards), old(drawPile), old(target).value)
    {
      match cards[cd].state
      case Target =>
      case Discard =>
      case Drawpile =>
        MoveToDiscard(target.value);
        var next := Draw();
        MoveToTarget(next);
        UpdateDrawPile();
        DrawClickKeepsPiles(old(cards), old(drawPile), tableau, old(target).value, old(discardPile));
      case Tableau =>
        var validMatch := true;
        if !cards[cd].faceUp {
          validMatch := false;
        }
        if !AdjacentRank(cards[cd], cards[target.value]) {
          validMatch := false;
        }
        if !validMatch {
          return;
        }
        RemoveFirstNoDup(tableau, cd);
        RemoveFirstInBounds(tableau, cd, |cards|);
        tableau := RemoveFirst(tableau, cd);
        MoveToTarget(cd);
        SetTableauFaces();
        TableauPlayKeepsPiles(old(cards), drawPile, old(tableau), old(target).value, old(discardPile), cd);
    }

    /** UpdateDrawPile: every draw-pile card is turned face down and marked as
        being in the draw pile. */
    method UpdateDrawPile()
      requires Valid()
      modifies this`cards
      ensures Valid()
      ensures cards == Squared(old(cards), drawPile, |drawPile|)
    {
      for i := 0 to |drawPile|
        invariant Valid() && cards == Squared(old(cards), drawPile, i)
      {
        var cd := drawPile[i];
        CoversInBoundsSet(cards, cd, cards[cd].(faceUp := false, state := Drawpile));
        cards := cards[cd := cards[cd].(faceUp := false, state := Drawpile)];
      }
    }

    /** SetTableauFaces: a tableau card is face up exactly when none of the cards
        covering it is still in the tableau. */
    method SetTableauFaces()
      requires Valid()
      modifies this`cards
      ensures Valid()
      ensures cards == Faces(old(cards), tableau, |tableau|)
    {
      for k := 0 to |tableau|
        invariant |cards| == |old(cards)|
        invariant cards == Faces(old(cards), tableau, k)
      {
        FacesFlipOnlyFaces(old(cards), tableau, k);
        var cd := tableau[k];
        var fup := true;
        var covers := cards[cd].hiddenBy;
        assert covers == old(cards[cd]).hiddenBy;
        for m := 0 to |covers|
          invariant fup <==> forall j :: 0 <= j < m ==> old(cards[covers[j]]).state != Tableau
        {
          if cards[covers[m]].state == Tableau {
            fup := false;
          }
        }
        assert fup <==> Uncovered(old(cards), cd);
        cards := cards[cd := cards[cd].(faceUp := fup)];
      }
      FacesKeepCovers(old(cards), tableau);
    }

    /** LayoutGame, without the placement on screen: deals one card per slot in
        slot order, binds each tableau card's covering slot ids to the cards dealt
        to those slots, installs the next card as target and squares up the draw
        pile. */
    method LayoutGame()
      requires BeforeDeal()
      requires |drawPile| > |slotDefs|
      requires CoversNameSlots(slotDefs)
      modifies this
      ensures InPlay()
      ensures tableau == old(drawPile[..|slotDefs|])
      ensures target == Some(old(drawPile[|slotDefs|]))
      ensures drawPile == old(drawPile[|slotDefs| + 1..])
      ensures discardPile == []
      ensures cards == Layout(old(cards), old(drawPile), slotDefs)
    {
      ghost var deck := drawPile;
      DealTableau();
      BindCovers();
      var first := Draw();
      MoveToTarget(first);
      UpdateDrawPile();
      assert deck[|slotDefs|..][1..] == deck[|slotDefs| + 1..];
      LayoutNamesPiles(old(cards), deck, slotDefs);
    }

    /** The slot loop of LayoutGame: the next card of the draw pile goes to each
        slot in turn, taking the slot's id, its face-up flag and the tableau state. */
    method DealTableau()
      requires Valid() && tableau == [] && |drawPile| >= |slotDefs|
      modifies this`drawPile, this`tableau, this`cards
      ensures Valid()
      ensures tableau == old(drawPile[..|slotDefs|]) && drawPile == old(drawPile[|slotDefs|..])
      ensures cards == Deal(old(cards), old(drawPile), slotDefs, |slotDefs|)
      ensures DealtTo(cards, tableau, slotDefs)
      ensures forall j :: 0 <= j < |tableau| ==> cards[tableau[j]].slotDef == Some(slotDefs[j])
    {
      ghost var deck := drawPile;
      for i := 0 to |slotDefs|
        invariant Valid()
        invariant tableau == deck[..i] && drawPile == deck[i..]
        invariant cards == Deal(old(cards), deck, slotDefs, i)
      {
        var tSD := slotDefs[i];
        var cp := Draw();
        CoversInBoundsSet(cards, cp, Placed(cards[cp], tSD));
        cards := cards[cp := cards[cp].(faceUp := tSD.faceUp, layoutID := tSD.id, slotDef := Some(tSD), state := Tableau)];
        tableau := tableau + [cp];
        assert deck[..i + 1] == deck[..i] + [cp];
      }
      DealPlaces(old(cards), deck, slotDefs, |slotDefs|);
    }

    /** The binding loop of LayoutGame: every tableau card gets its covering
        slot ids resolved, in tableau order. */
    method BindCovers()
      requires Valid() && DealtTo(cards, tableau, slotDefs) && CoversNameSlots(slotDefs)
      requires forall j :: 0 <= j < |tableau| ==> cards[tableau[j]].slotDef == Some(slotDefs[j])
      modifies this`cards
      ensures Valid()
      ensures cards == Bind(old(cards), tableau, slotDefs, |tableau|)
    {
      for i := 0 to |tableau|
        invariant Valid() && DealtTo(cards, tableau, slotDefs)
        invariant cards == Bind(old(cards), tableau, slotDefs, i)
      {
        var tCP := tableau[i];
        BindKeeps(old(cards), tableau, slotDefs, i);
        assert cards[tCP].slotDef == Some(slotDefs[i]);
        BindCard(tCP);
      }
    }

    /** The inner loop of the binding: each covering slot id of the card's slot
        is looked up with FindCardByLayoutID and the card found is appended to the
        card's hiddenBy list. Once the tableau holds the dealt cards, the card
        found is the one dealt to the first slot with that id. */
    method BindCard(tCP: nat)
      requires Valid() && DealtTo(cards, tableau, slotDefs)
      requires tCP < |cards| && cards[tCP].slotDef.Some?
      requires IdsNameSlots(slotDefs, cards[tCP].slotDef.value.hiddenBy)
      modifies this`cards
      ensures Valid() && DealtTo(cards, tableau, slotDefs)
      ensures cards == old(cards)[tCP := old(cards[tCP]).(hiddenBy := old(cards[tCP]).hiddenBy
                                          + CoverCards(tableau, slotDefs, old(cards[tCP]).slotDef.value.hiddenBy))]
    {
      ghost var start := cards;
      ghost var c := cards[tCP];
      var covers := cards[tCP].slotDef.value.hiddenBy;
      assert c.hiddenBy + CoverCards(tableau, slotDefs, covers[..0]) == c.hiddenBy;
      for k := 0 to |covers|
        invariant CoversInBounds(cards)
        invariant cards == start[tCP := c.(hiddenBy := c.hiddenBy + CoverCards(tableau, slotDefs, covers[..k]))]
      {
        LookupWhileBinding(start, tCP, cards[tCP].hiddenBy, tableau, slotDefs, covers[k]);
        var cp := FindCardByLayoutID(covers[k]);
        CoversInBoundsAppend(cards, tCP, cp.value);
        CoverCardsExtend(tableau, slotDefs, covers, k);
        assert c.hiddenBy + CoverCards(tableau, slotDefs, covers[..k]) + [cp.value]
            == c.hiddenBy + CoverCards(tableau, slotDefs, covers[..k + 1]);
        cards := cards[tCP := cards[tCP].(hiddenBy := cards[tCP].hiddenBy + [cp.value])];
      }
      assert covers[..|covers|] == covers;
    }
  }
}
