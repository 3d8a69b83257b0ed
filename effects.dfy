/** What each operation of the game does to the card store, stated on values.
    Each loop of the game writes one card per step; the functions here give the
    store after the first i steps, and the lemmas say card by card what that
    store holds. */
module StoreEffects {
  import opened ProspectorRules

  // ---------------------------------------------------------------------------
  // The slot loop of LayoutGame

  /** A card as the slot loop leaves it: the slot's face-up flag, id and
      definition, in the tableau. */
  function Placed(c: Card, s: SlotDef): (r: Card)
    ensures r.state == Tableau && r.faceUp == s.faceUp && r.layoutID == s.id && r.slotDef == Some(s)
    ensures r.rank == c.rank && r.hiddenBy == c.hiddenBy
  {
    c.(faceUp := s.faceUp, layoutID := s.id, slotDef := Some(s), state := Tableau)
  }

  /** The store once the first i slots are dealt: deck[j] goes to slots[j]. */
  function Deal(cs: seq<Card>, deck: seq<nat>, slots: seq<SlotDef>, i: nat): (r: seq<Card>)
    requires i <= |slots| && i <= |deck| && InBounds(deck, |cs|)
    ensures |r| == |cs|
  {
    if i == 0 then
      cs
    else
      var prev := Deal(cs, deck, slots, i - 1);
      prev[deck[i - 1] := Placed(prev[deck[i - 1]], slots[i - 1])]
  }

  /** From a deck without repeats, the j-th card dealt is stamped with the j-th
      slot, and no card outside the dealt prefix is touched. */
  lemma {:induction false} DealPlaces(cs: seq<Card>, deck: seq<nat>, slots: seq<SlotDef>, i: nat)
    requires i <= |slots| && i <= |deck| && InBounds(deck, |cs|) && NoDup(deck)
    ensures forall j :: 0 <= j < i ==> Deal(cs, deck, slots, i)[deck[j]] == Placed(cs[deck[j]], slots[j])
    ensures forall x :: 0 <= x < |cs| && x !in deck[..i] ==> Deal(cs, deck, slots, i)[x] == cs[x]
  {
    if i > 0 {
      DealPlaces(cs, deck, slots, i - 1);
      assert deck[..i] == deck[..i - 1] + [deck[i - 1]];
    }
  }

  // ---------------------------------------------------------------------------
  // The binding loop of LayoutGame

  /** The store once the first i cards of t have their covers bound: the cards
      dealt to the covering slots of slots[j] are appended to t[j]'s hiddenBy. */
  function Bind(cs: seq<Card>, t: seq<nat>, slots: seq<SlotDef>, i: nat): (r: seq<Card>)
    requires i <= |t| && |t| == |slots| && InBounds(t, |cs|) && CoversNameSlots(slots)
    ensures |r| == |cs|
  {
    if i == 0 then
      cs
    else
      var prev := Bind(cs, t, slots, i - 1);
      var c := t[i - 1];
      prev[c := prev[c].(hiddenBy := prev[c].hiddenBy + CoverCards(t, slots, slots[i - 1].hiddenBy))]
  }

  /** Binding changes covers only. */
  lemma {:induction false} BindKeeps(cs: seq<Card>, t: seq<nat>, slots: seq<SlotDef>, i: nat)
    requires i <= |t| && |t| == |slots| && InBounds(t, |cs|) && CoversNameSlots(slots)
    ensures forall x :: 0 <= x < |cs| ==>
      Bind(cs, t, slots, i)[x] == cs[x].(hiddenBy := Bind(cs, t, slots, i)[x].hiddenBy)
  {
    if i > 0 {
      BindKeeps(cs, t, slots, i - 1);
    }
  }

  /** On a tableau without repeats, the j-th bound card gets exactly the cards
      dealt to its slot's covering slots, and no other card is touched. */
  lemma {:induction false} BoundCovers(cs: seq<Card>, t: seq<nat>, slots: seq<SlotDef>, i: nat)
    requires i <= |t| && |t| == |slots| && InBounds(t, |cs|) && CoversNameSlots(slots) && NoDup(t)
    ensures forall j :: 0 <= j < i ==>
      Bind(cs, t, slots, i)[t[j]] == cs[t[j]].(hiddenBy := cs[t[j]].hiddenBy + CoverCards(t, slots, slots[j].hiddenBy))
    ensures forall x :: 0 <= x < |cs| && x !in t[..i] ==> Bind(cs, t, slots, i)[x] == cs[x]
  {
    if i > 0 {
      BoundCovers(cs, t, slots, i - 1);
      assert t[..i] == t[..i - 1] + [t[i - 1]];
    }
  }

  // ---------------------------------------------------------------------------
  // UpdateDrawPile

  /** The store once the first i cards of pile p are face down in the draw pile. */
  function Squared(cs: seq<Card>, p: seq<nat>, i: nat): (r: seq<Card>)
    requires i <= |p| && InBounds(p, |cs|)
    ensures |r| == |cs|
  {
    if i == 0 then
      cs
    else
      var prev := Squared(cs, p, i - 1);
      prev[p[i - 1] := prev[p[i - 1]].(faceUp := false, state := Drawpile)]
  }

  /** Squaring up turns exactly the cards of the pile's prefix face down into the
      draw pile state and changes nothing else. */
  lemma {:induction false} SquaredCards(cs: seq<Card>, p: seq<nat>, i: nat)
    requires i <= |p| && InBounds(p, |cs|)
    ensures forall x :: 0 <= x < |cs| ==>
      Squared(cs, p, i)[x] == if x in p[..i] then cs[x].(faceUp := false, state := Drawpile) else cs[x]
  {
    if i > 0 {
      SquaredCards(cs, p, i - 1);
      assert p[..i] == p[..i - 1] + [p[i - 1]];
    }
  }

  // ---------------------------------------------------------------------------
  // SetTableauFaces

  /** The store once the first i cards of t show their face exactly when no card
      covering them is in the tableau of cs. */
  function Faces(cs: seq<Card>, t: seq<nat>, i: nat): (r: seq<Card>)
    requires i <= |t| && InBounds(t, |cs|) && CoversInBounds(cs)
    ensures |r| == |cs|
  {
    if i == 0 then
      cs
    else
      var prev := Faces(cs, t, i - 1);
      prev[t[i - 1] := prev[t[i - 1]].(faceUp := Uncovered(cs, t[i - 1]))]
  }

  lemma {:induction false} FacesCards(cs: seq<Card>, t: seq<nat>, i: nat)
    requires i <= |t| && InBounds(t, |cs|) && CoversInBounds(cs)
    ensures forall x :: 0 <= x < |cs| ==>
      Faces(cs, t, i)[x] == if x in t[..i] then cs[x].(faceUp := Uncovered(cs, x)) else cs[x]
  {
    if i > 0 {
      FacesCards(cs, t, i - 1);
      assert t[..i] == t[..i - 1] + [t[i - 1]];
    }
  }

  /** Recomputing the faces of the first i cards of t changes faceUp only, and
      only on those cards. */
  lemma {:induction false} FacesFlipOnlyFaces(cs: seq<Card>, t: seq<nat>, i: nat)
    requires i <= |t| && InBounds(t, |cs|) && CoversInBounds(cs)
    ensures forall x :: 0 <= x < |cs| ==>
      Faces(cs, t, i)[x] == cs[x].(faceUp := Faces(cs, t, i)[x].faceUp)
    ensures forall x :: 0 <= x < |cs| && x !in t[..i] ==> Faces(cs, t, i)[x] == cs[x]
  {
    if i > 0 {
      FacesFlipOnlyFaces(cs, t, i - 1);
      assert t[..i] == t[..i - 1] + [t[i - 1]];
    }
  }

  /** Covers are unchanged, so they stay in range. */
  lemma FacesKeepCovers(cs: seq<Card>, t: seq<nat>)
    requires InBounds(t, |cs|) && CoversInBounds(cs)
    ensures CoversInBounds(Faces(cs, t, |t|))
  {
    var r := Faces(cs, t, |t|);
    FacesFlipOnlyFaces(cs, t, |t|);
    forall i | 0 <= i < |cs|
      ensures InBounds(r[i].hiddenBy, |r|)
    {
      assert r[i].hiddenBy == cs[i].hiddenBy;
    }
  }

  /** After the faces are recomputed, each card of t is face up exactly when
      none of its covers is in the tableau of the new store. */
  lemma FacesShowUncovered(cs: seq<Card>, t: seq<nat>)
    requires InBounds(t, |cs|) && CoversInBounds(cs)
    ensures CoversInBounds(Faces(cs, t, |t|))
    ensures forall x :: x in t ==> (Faces(cs, t, |t|)[x].faceUp <==> Uncovered(Faces(cs, t, |t|), x))
  {
    var r := Faces(cs, t, |t|);
    FacesKeepCovers(cs, t);
    FacesFlipOnlyFaces(cs, t, |t|);
    FacesCards(cs, t, |t|);
    assert t[..|t|] == t;
    forall x | x in t
      ensures r[x].faceUp <==> Uncovered(r, x)
    {
      assert r[x].faceUp == Uncovered(cs, x);
      SameStatesSameUncovered(cs, r, x);
    }
  }

  /** Whether a card is uncovered depends on its covers and on the states of
      the cards, nothing else. */
  lemma SameStatesSameUncovered(cs: seq<Card>, r: seq<Card>, x: nat)
    requires |r| == |cs| && x < |cs| && InBounds(cs[x].hiddenBy, |cs|)
    requires forall i :: 0 <= i < |cs| ==> r[i].state == cs[i].state && r[i].hiddenBy == cs[i].hiddenBy
    ensures Uncovered(r, x) == Uncovered(cs, x)
  {
    assert r[x].hiddenBy == cs[x].hiddenBy;
    forall h | h in cs[x].hiddenBy
      ensures r[h].state == cs[h].state
    {
    }
  }

  // ---------------------------------------------------------------------------
  // LayoutGame as a whole

  /** The store LayoutGame leaves: the first |slots| cards of the deck dealt and
      bound, the next one made the target face up, the rest squared up. */
  function Layout(cs: seq<Card>, deck: seq<nat>, slots: seq<SlotDef>): (r: seq<Card>)
    requires |deck| > |slots| && InBounds(deck, |cs|) && CoversNameSlots(slots)
    ensures |r| == |cs|
  {
    var n := |slots|;
    var bound := Bind(Deal(cs, deck, slots, n), deck[..n], slots, n);
    var first := deck[n];
    Squared(bound[first := bound[first].(state := Target, faceUp := true)], deck[n + 1..], |deck| - n - 1)
  }

  /** LayoutGame, card by card, on the dealt prefix of a deck without repeats
      whose cards have no covers yet: the j-th card sits in slot j with that
      slot's id, face and definition, and is covered by the cards dealt to the
      first slots named by the slot's covering ids. */
  lemma LayoutTableau(cs: seq<Card>, deck: seq<nat>, slots: seq<SlotDef>)
    requires |deck| > |slots| && InBounds(deck, |cs|) && CoversNameSlots(slots) && NoDup(deck)
    requires forall k :: 0 <= k < |deck| ==> cs[deck[k]].hiddenBy == []
    ensures forall j :: 0 <= j < |slots| ==>
      Layout(cs, deck, slots)[deck[j]]
        == Placed(cs[deck[j]], slots[j]).(hiddenBy := CoverCards(deck[..|slots|], slots, slots[j].hiddenBy))
  {
    var n := |slots|;
    var t := deck[..n];
    var dealt := Deal(cs, deck, slots, n);
    var bound := Bind(dealt, t, slots, n);
    var first := deck[n];
    var started := bound[first := bound[first].(state := Target, faceUp := true)];
    var rest := deck[n + 1..];
    var r := Squared(started, rest, |rest|);
    assert r == Layout(cs, deck, slots);
    DealPlaces(cs, deck, slots, n);
    BoundCovers(dealt, t, slots, n);
    SquaredCards(started, rest, |rest|);
    assert rest[..|rest|] == rest;
    forall j | 0 <= j < n
      ensures r[deck[j]] == Placed(cs[deck[j]], slots[j]).(hiddenBy := CoverCards(t, slots, slots[j].hiddenBy))
    {
      var x := deck[j];
      assert x == t[j] && x in t;
      SplitAt(deck, n, x);
      assert r[x] == started[x] == bound[x];
      assert bound[x] == dealt[x].(hiddenBy := dealt[x].hiddenBy + CoverCards(t, slots, slots[j].hiddenBy));
      assert dealt[x] == Placed(cs[x], slots[j]);
      assert cs[x].hiddenBy == [];
    }
  }

  /** After LayoutGame, the k-th cover of the card in slot j is what the lookup
      by layout id (FindCardByLayoutID) returns on the final tableau for the k-th
      covering id of slot j, so the card has one cover per covering id. */
  lemma LayoutCoversAreLookups(cs: seq<Card>, deck: seq<nat>, slots: seq<SlotDef>)
    requires |deck| > |slots| && InBounds(deck, |cs|) && CoversNameSlots(slots) && NoDup(deck)
    requires forall k :: 0 <= k < |deck| ==> cs[deck[k]].hiddenBy == []
    ensures forall j :: 0 <= j < |slots| ==> |Layout(cs, deck, slots)[deck[j]].hiddenBy| == |slots[j].hiddenBy|
    ensures forall j, k :: 0 <= j < |slots| && 0 <= k < |slots[j].hiddenBy| ==>
      FirstWithLayoutID(Layout(cs, deck, slots), deck[..|slots|], slots[j].hiddenBy[k])
        == Some(Layout(cs, deck, slots)[deck[j]].hiddenBy[k])
  {
    var n := |slots|;
    var t := deck[..n];
    var r := Layout(cs, deck, slots);
    LayoutTableau(cs, deck, slots);
    assert DealtTo(r, t, slots) by {
      forall j | 0 <= j < n
        ensures r[t[j]].layoutID == slots[j].id
      {
        assert t[j] == deck[j];
      }
    }
    forall j, k | 0 <= j < n && 0 <= k < |slots[j].hiddenBy|
      ensures FirstWithLayoutID(r, t, slots[j].hiddenBy[k]) == Some(r[deck[j]].hiddenBy[k])
    {
      assert IdsNameSlots(slots, slots[j].hiddenBy);
      LookupFindsDealtCard(r, t, slots, slots[j].hiddenBy[k]);
    }
  }

  /** LayoutGame, on the rest of a deck without repeats: the card after the
      dealt prefix is the target, face up; every later card is face down in the
      draw pile; cards outside the deck are untouched. */
  lemma LayoutRest(cs: seq<Card>, deck: seq<nat>, slots: seq<SlotDef>)
    requires |deck| > |slots| && InBounds(deck, |cs|) && CoversNameSlots(slots) && NoDup(deck)
    ensures Layout(cs, deck, slots)[deck[|slots|]] == cs[deck[|slots|]].(state := Target, faceUp := true)
    ensures forall k :: |slots| < k < |deck| ==>
      Layout(cs, deck, slots)[deck[k]] == cs[deck[k]].(faceUp := false, state := Drawpile)
    ensures forall x :: 0 <= x < |cs| && x !in deck ==> Layout(cs, deck, slots)[x] == cs[x]
  {
    var n := |slots|;
    var t := deck[..n];
    var dealt := Deal(cs, deck, slots, n);
    var bound := Bind(dealt, t, slots, n);
    var first := deck[n];
    var started := bound[first := bound[first].(state := Target, faceUp := true)];
    var rest := deck[n + 1..];
    var r := Squared(started, rest, |rest|);
    assert r == Layout(cs, deck, slots);
    DealPlaces(cs, deck, slots, n);
    BoundCovers(dealt, t, slots, n);
    SquaredCards(started, rest, |rest|);
    assert rest[..|rest|] == rest;
    SplitAt(deck, n, first);
    assert first !in t;
    forall k | n < k < |deck|
      ensures r[deck[k]] == cs[deck[k]].(faceUp := false, state := Drawpile)
    {
      assert deck[k] == rest[k - n - 1];
      SplitAt(deck, n, deck[k]);
    }
    forall x | 0 <= x < |cs| && x !in deck
      ensures r[x] == cs[x]
    {
      SplitAt(deck, n, x);
    }
  }

  // ---------------------------------------------------------------------------
  // Piles and card states

  /** Each card's state names the one pile that holds it. */
  predicate StatesNamePiles(cs: seq<Card>, draw: seq<nat>, tab: seq<nat>, tgt: nat, disc: seq<nat>) {
    forall i :: 0 <= i < |cs| ==>
      && (cs[i].state == Drawpile <==> i in draw)
      && (cs[i].state == Tableau <==> i in tab)
      && (cs[i].state == Target <==> i == tgt)
      && (cs[i].state == Discard <==> i in disc)
  }

  /** When the deck is every card of the game, LayoutGame leaves each card in
      the state of the pile it ends in: the tableau is the dealt prefix, the target
      the next card, the draw pile the rest, and the discard pile empty. */
  lemma LayoutNamesPiles(cs: seq<Card>, deck: seq<nat>, slots: seq<SlotDef>)
    requires |deck| > |slots| && InBounds(deck, |cs|) && CoversNameSlots(slots) && NoDup(deck)
    requires forall k :: 0 <= k < |deck| ==> cs[deck[k]].hiddenBy == []
    requires forall x :: 0 <= x < |cs| ==> x in deck
    ensures StatesNamePiles(Layout(cs, deck, slots), deck[|slots| + 1..], deck[..|slots|], deck[|slots|], [])
  {
    var n := |slots|;
    var r := Layout(cs, deck, slots);
    LayoutTableau(cs, deck, slots);
    LayoutRest(cs, deck, slots);
    forall x | 0 <= x < |cs|
      ensures && (r[x].state == Drawpile <==> x in deck[n + 1..])
              && (r[x].state == Tableau <==> x in deck[..n])
              && (r[x].state == Target <==> x == deck[n])
              && r[x].state != Discard
    {
      SplitAt(deck, n, x);
      var k :| 0 <= k < |deck| && deck[k] == x;
      if k < n {
        assert deck[..n][k] == x;
      } else if k > n {
        assert deck[n + 1..][k - n - 1] == x;
      }
    }
  }

  // ---------------------------------------------------------------------------
  // CardClicked

  /** The store after a click on the draw pile with target tgt: MoveToDiscard
      discards tgt, MoveToTarget discards it again and makes the front card of
      the draw pile the target, and UpdateDrawPile squares up the rest. */
  function DrawClick(cs: seq<Card>, draw: seq<nat>, tgt: nat): (r: seq<Card>)
    requires draw != [] && InBounds(draw, |cs|) && tgt < |cs|
    ensures |r| == |cs|
  {
    var discarded := cs[tgt := cs[tgt].(state := Discard, faceUp := true)];
    var next := draw[0];
    var moved := discarded[tgt := discarded[tgt].(state := Discard, faceUp := true)]
                          [next := discarded[next].(state := Target, faceUp := true)];
    Squared(moved, draw[1..], |draw| - 1)
  }

  /** A draw-pile click, card by card: the old target is in the discard state
      face up, the front card of the draw pile is the target face up, the rest
      of the draw pile is face down in the draw pile state, and nothing else
      changes. */
  lemma DrawClickCards(cs: seq<Card>, draw: seq<nat>, tgt: nat)
    requires draw != [] && InBounds(draw, |cs|) && tgt < |cs| && NoDup(draw) && tgt !in draw
    ensures DrawClick(cs, draw, tgt)[tgt] == cs[tgt].(state := Discard, faceUp := true)
    ensures DrawClick(cs, draw, tgt)[draw[0]] == cs[draw[0]].(state := Target, faceUp := true)
    ensures forall k :: 1 <= k < |draw| ==>
      DrawClick(cs, draw, tgt)[draw[k]] == cs[draw[k]].(faceUp := false, state := Drawpile)
    ensures forall x :: 0 <= x < |cs| && x != tgt && x !in draw ==> DrawClick(cs, draw, tgt)[x] == cs[x]
  {
    var rest := draw[1..];
    SquaredCards(cs[tgt := cs[tgt].(state := Discard, faceUp := true)]
                   [tgt := cs[tgt].(state := Discard, faceUp := true)]
                   [draw[0] := cs[draw[0]].(state := Target, faceUp := true)], rest, |rest|);
    assert rest[..|rest|] == rest;
    SplitAt(draw, 0, draw[0]);
    forall k | 1 <= k < |draw|
      ensures DrawClick(cs, draw, tgt)[draw[k]] == cs[draw[k]].(faceUp := false, state := Drawpile)
    {
      assert draw[k] == rest[k - 1];
    }
    forall x | 0 <= x < |cs| && x != tgt && x !in draw
      ensures DrawClick(cs, draw, tgt)[x] == cs[x]
    {
      SplitAt(draw, 0, x);
    }
  }

  /** A draw-pile click keeps every card's state naming its pile: the front
      card leaves the draw pile to become the target, and the old target is
      appended to the discard pile twice. */
  lemma DrawClickKeepsPiles(cs: seq<Card>, draw: seq<nat>, tab: seq<nat>, tgt: nat, disc: seq<nat>)
    requires draw != [] && InBounds(draw, |cs|) && tgt < |cs| && NoDup(draw)
    requires StatesNamePiles(cs, draw, tab, tgt, disc)
    ensures StatesNamePiles(DrawClick(cs, draw, tgt), draw[1..], tab, draw[0], disc + [tgt, tgt])
  {
    var r := DrawClick(cs, draw, tgt);
    assert cs[tgt].state == Target;
    DrawClickCards(cs, draw, tgt);
    forall x | 0 <= x < |cs|
      ensures && (r[x].state == Drawpile <==> x in draw[1..])
              && (r[x].state == Tableau <==> x in tab)
              && (r[x].state == Target <==> x == draw[0])
              && (r[x].state == Discard <==> x in disc + [tgt, tgt])
    {
      SplitAt(draw, 0, x);
      if x in draw[1..] {
        var k :| 0 <= k < |draw| - 1 && draw[1..][k] == x;
        assert draw[k + 1] == x;
      }
    }
  }

  /** The store after a valid click on tableau card cd with target tgt:
      tableau.Remove takes cd out of the tableau, MoveToTarget discards tgt and
      makes cd the target, and SetTableauFaces recomputes the faces of the
      remaining tableau. */
  function TableauPlay(cs: seq<Card>, tab: seq<nat>, tgt: nat, cd: nat): (r: seq<Card>)
    requires InBounds(tab, |cs|) && CoversInBounds(cs) && tgt < |cs| && cd < |cs|
    ensures |r| == |cs|
  {
    var discarded := cs[tgt := cs[tgt].(state := Discard, faceUp := true)];
    var moved := discarded[cd := cs[cd].(state := Target, faceUp := true)];
    var rest := RemoveFirst(tab, cd);
    CoversInBoundsSet(cs, tgt, cs[tgt].(state := Discard, faceUp := true));
    CoversInBoundsSet(discarded, cd, cs[cd].(state := Target, faceUp := true));
    RemoveFirstInBounds(tab, cd, |cs|);
    Faces(moved, rest, |rest|)
  }

  /** A valid tableau click, card by card: the old target is in the discard
      state face up, the played card is the target face up, every card left in
      the tableau changes its face only and shows it exactly when none of its
      covers is still in the tableau, and nothing else changes. */
  lemma TableauPlayCards(cs: seq<Card>, tab: seq<nat>, tgt: nat, cd: nat)
    requires InBounds(tab, |cs|) && CoversInBounds(cs) && tgt < |cs| && cd < |cs|
    requires NoDup(tab) && cd in tab && tgt !in tab
    ensures TableauPlay(cs, tab, tgt, cd)[tgt] == cs[tgt].(state := Discard, faceUp := true)
    ensures TableauPlay(cs, tab, tgt, cd)[cd] == cs[cd].(state := Target, faceUp := true)
    ensures forall x :: x in RemoveFirst(tab, cd) ==>
      && TableauPlay(cs, tab, tgt, cd)[x] == cs[x].(faceUp := TableauPlay(cs, tab, tgt, cd)[x].faceUp)
      && (TableauPlay(cs, tab, tgt, cd)[x].faceUp <==> Uncovered(TableauPlay(cs, tab, tgt, cd), x))
    ensures forall x :: 0 <= x < |cs| && x != tgt && x !in tab ==> TableauPlay(cs, tab, tgt, cd)[x] == cs[x]
  {
    var discarded := cs[tgt := cs[tgt].(state := Discard, faceUp := true)];
    var moved := discarded[cd := cs[cd].(state := Target, faceUp := true)];
    var rest := RemoveFirst(tab, cd);
    CoversInBoundsSet(cs, tgt, cs[tgt].(state := Discard, faceUp := true));
    CoversInBoundsSet(discarded, cd, cs[cd].(state := Target, faceUp := true));
    RemoveFirstInBounds(tab, cd, |cs|);
    RemoveFirstExactly(tab, cd);
    var r := Faces(moved, rest, |rest|);
    assert r == TableauPlay(cs, tab, tgt, cd);
    FacesFlipOnlyFaces(moved, rest, |rest|);
    FacesShowUncovered(moved, rest);
    assert rest[..|rest|] == rest;
  }

  /** A valid tableau click keeps every card's state naming its pile: the card
      leaves the tableau to become the target, and the old target is appended
      to the discard pile once. */
  lemma TableauPlayKeepsPiles(cs: seq<Card>, draw: seq<nat>, tab: seq<nat>, tgt: nat, disc: seq<nat>, cd: nat)
    requires InBounds(tab, |cs|) && CoversInBounds(cs) && tgt < |cs| && cd < |cs|
    requires NoDup(tab) && cd in tab
    requires StatesNamePiles(cs, draw, tab, tgt, disc)
    ensures StatesNamePiles(TableauPlay(cs, tab, tgt, cd), draw, RemoveFirst(tab, cd), cd, disc + [tgt])
  {
    var r := TableauPlay(cs, tab, tgt, cd);
    assert cs[tgt].state == Target && cs[cd].state == Tableau;
    TableauPlayCards(cs, tab, tgt, cd);
    RemoveFirstExactly(tab, cd);
    forall x | 0 <= x < |cs|
      ensures && (r[x].state == Drawpile <==> x in draw)
              && (r[x].state == Tableau <==> x in RemoveFirst(tab, cd))
              && (r[x].state == Target <==> x == cd)
              && (r[x].state == Discard <==> x in disc + [tgt])
    {
    }
  }
}
