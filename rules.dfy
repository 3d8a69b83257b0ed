/** Values and pure rules of the Prospector solitaire engine: the card record the
    engine writes, the parsed layout slots, the rank-adjacency rule, and the two
    list operations the engine uses on its piles (first-match lookup by layout id,
    removal of the first occurrence of a card). */
module ProspectorRules {

  datatype Option<T> = None | Some(value: T)

  /** Where a card is: CardState in the game. */
  datatype CardState = Drawpile | Tableau | Target | Discard

  /** One parsed layout slot. Only the fields the rules read are kept: the slot id,
      whether its card is dealt face up, and the ids of the slots whose cards cover
      it. Positions and layer names only place the card on screen. */
  datatype SlotDef = SlotDef(id: int, faceUp: bool, hiddenBy: seq<int>)

  /** A CardProspector. Cards are named by their index in the game's card array,
      so hiddenBy holds the indices of the covering cards. */
  datatype Card = Card(rank: int, state: CardState, faceUp: bool, layoutID: int,
                       slotDef: Option<SlotDef>, hiddenBy: seq<nat>)

  /** The card indices 0, 1, ..., n - 1 in order. */
  function Range(n: nat): (r: seq<nat>)
    ensures |r| == n && forall k :: 0 <= k < n ==> r[k] == k
  {
    seq(n, i requires 0 <= i => i)
  }

  predicate NoDup(s: seq<nat>) {
    forall j, k :: 0 <= j < k < |s| ==> s[j] != s[k]
  }

  predicate InBounds(s: seq<nat>, n: nat) {
    forall k :: 0 <= k < |s| ==> s[k] < n
  }

  /** Every covering reference names a card of the game. */
  predicate CoversInBounds(cs: seq<Card>) {
    forall i :: 0 <= i < |cs| ==> InBounds(cs[i].hiddenBy, |cs|)
  }

  /** Replacing one card by a card whose covers are in range keeps every cover
      in range. */
  lemma CoversInBoundsSet(cs: seq<Card>, x: nat, c: Card)
    requires CoversInBounds(cs) && x < |cs| && InBounds(c.hiddenBy, |cs|)
    ensures CoversInBounds(cs[x := c])
  {
  }

  /** Appending a card of the game to one card's covers keeps every cover in range. */
  lemma CoversInBoundsAppend(cs: seq<Card>, c: nat, v: nat)
    requires CoversInBounds(cs) && c < |cs| && v < |cs|
    ensures CoversInBounds(cs[c := cs[c].(hiddenBy := cs[c].hiddenBy + [v])])
  {
    var cs' := cs[c := cs[c].(hiddenBy := cs[c].hiddenBy + [v])];
    forall i | 0 <= i < |cs'|
      ensures InBounds(cs'[i].hiddenBy, |cs'|)
    {
      if i == c {
        assert forall k :: 0 <= k < |cs[c].hiddenBy| ==> cs'[c].hiddenBy[k] == cs[c].hiddenBy[k];
      }
    }
  }

  // ---------------------------------------------------------------------------
  // Rank adjacency

  function Abs(x: int): nat {
    if x < 0 then -x else x
  }

  /** Two cards match when their ranks differ by one, or when one is an ace (1)
      and the other a king (13). Face-up status is not consulted here. */
  function AdjacentRank(c0: Card, c1: Card): (r: bool)
    ensures r ==> c0.rank != c1.rank
    ensures r <==> (c0.rank - c1.rank == 1 || c1.rank - c0.rank == 1 || {c0.rank, c1.rank} == {1, 13})
  {
    if Abs(c0.rank - c1.rank) == 1 then
      true
    else if (c0.rank == 1 && c1.rank == 13) || (c0.rank == 13 && c1.rank == 1) then
      true
    else
      false
  }

  /** The rank that follows r on the circle of ranks A, 2, ..., K, A. */
  function NextRank(r: int): int {
    if r == 13 then 1 else r + 1
  }

  /** Independent reading of the rule: on the 13 ranks arranged in a circle,
      two cards match exactly when one rank is the next of the other. */
  lemma AdjacentRankIsCircularNeighbour(c0: Card, c1: Card)
    requires 1 <= c0.rank <= 13 && 1 <= c1.rank <= 13
    ensures AdjacentRank(c0, c1) <==> (NextRank(c0.rank) == c1.rank || NextRank(c1.rank) == c0.rank)
  {
  }

  lemma AdjacentRankSymmetric(c0: Card, c1: Card)
    ensures AdjacentRank(c0, c1) == AdjacentRank(c1, c0)
  {
  }

  /** Each rank 1..13 matches its circular successor (K is followed by A), in
      either order of the two cards. */
  lemma AdjacentRankSuccessor(c0: Card, c1: Card)
    requires 1 <= c0.rank <= 13 && c1.rank == NextRank(c0.rank)
    ensures AdjacentRank(c0, c1) && AdjacentRank(c1, c0)
  {
  }

  // ---------------------------------------------------------------------------
  // Removing a card from a list (List.Remove: the first occurrence only)

  /** The position of the first occurrence of x in s. */
  function IndexOf(s: seq<nat>, x: nat): (k: nat)
    requires x in s
    ensures k < |s| && s[k] == x && x !in s[..k]
  {
    if s[0] == x then 0 else 1 + IndexOf(s[1..], x)
  }

  /** The list without its first occurrence of x; the list itself when x is absent. */
  function RemoveFirst(s: seq<nat>, x: nat): (r: seq<nat>)
    ensures x in s ==> |r| == |s| - 1 && multiset(r) == multiset(s) - multiset{x}
    ensures x !in s ==> r == s
  {
    if x in s then
      var k := IndexOf(s, x);
      assert s == s[..k] + [x] + s[k + 1..];
      s[..k] + s[k + 1..]
    else
      s
  }

  /** Position j of the list without position k holds what the list held at
      position j, or at j + 1 from k on. */
  lemma RemoveAtShifts(s: seq<nat>, k: nat, r: seq<nat>)
    requires k < |s| && r == s[..k] + s[k + 1..]
    ensures |r| == |s| - 1
    ensures forall j :: 0 <= j < k ==> r[j] == s[j]
    ensures forall j :: k <= j < |r| ==> r[j] == s[j + 1]
  {
  }

  /** Removing keeps every remaining element a card of the game. */
  lemma RemoveFirstInBounds(s: seq<nat>, x: nat, n: nat)
    requires InBounds(s, n)
    ensures InBounds(RemoveFirst(s, x), n)
  {
    if x in s {
      RemoveAtShifts(s, IndexOf(s, x), RemoveFirst(s, x));
    }
  }

  /** On a list without repeats, removing x removes exactly x: every other
      element stays and x is gone. */
  lemma RemoveFirstExactly(s: seq<nat>, x: nat)
    requires NoDup(s) && x in s
    ensures forall y :: y in RemoveFirst(s, x) <==> y in s && y != x
  {
    var k := IndexOf(s, x);
    var r := RemoveFirst(s, x);
    RemoveAtShifts(s, k, r);
    forall y | y in r
      ensures y in s && y != x
    {
      var j :| 0 <= j < |r| && r[j] == y;
      if j < k {
        assert s[j] == y;
      } else {
        assert s[j + 1] == y;
      }
    }
    forall y | y in s && y != x
      ensures y in r
    {
      var j :| 0 <= j < |s| && s[j] == y;
      if j < k {
        assert r[j] == y;
      } else {
        assert r[j - 1] == y;
      }
    }
  }

  /** Removing an element from a list without repeats leaves a list without
      repeats. */
  lemma RemoveFirstNoDup(s: seq<nat>, x: nat)
    requires NoDup(s) && x in s
    ensures NoDup(RemoveFirst(s, x))
  {
    var k := IndexOf(s, x);
    var r := RemoveFirst(s, x);
    RemoveAtShifts(s, k, r);
    forall j, l | 0 <= j < l < |r|
      ensures r[j] != r[l]
    {
      var j' := if j < k then j else j + 1;
      var l' := if l < k then l else l + 1;
      assert r[j] == s[j'] && r[l] == s[l'] && j' < l';
    }
  }

  // ---------------------------------------------------------------------------
  // Looking a card up by its layout id (FindCardByLayoutID)

  /** The position in t of the first card whose layoutID is id; |t| when no card
      of t has it. */
  function FirstIndexWithLayoutID(cs: seq<Card>, t: seq<nat>, id: int): (k: nat)
    requires InBounds(t, |cs|)
    ensures k <= |t|
    ensures forall j :: 0 <= j < k ==> cs[t[j]].layoutID != id
    ensures k < |t| ==> cs[t[k]].layoutID == id
    decreases |t|
  {
    if t == [] then
      0
    else if cs[t[0]].layoutID == id then
      0
    else
      1 + FirstIndexWithLayoutID(cs, t[1..], id)
  }

  /** The first card of list t whose layoutID is id, or None when no card has it. */
  function FirstWithLayoutID(cs: seq<Card>, t: seq<nat>, id: int): (r: Option<nat>)
    requires InBounds(t, |cs|)
    ensures r.Some? ==> r.value in t && cs[r.value].layoutID == id
    ensures r.None? <==> forall j :: 0 <= j < |t| ==> cs[t[j]].layoutID != id
  {
    var k := FirstIndexWithLayoutID(cs, t, id);
    if k < |t| then Some(t[k]) else None
  }

  // ---------------------------------------------------------------------------
  // Slots of a layout

  predicate HasSlot(slots: seq<SlotDef>, id: int) {
    exists j :: 0 <= j < |slots| && slots[j].id == id
  }

  /** Every covering id of every slot names a slot of the layout. */
  predicate CoversNameSlots(slots: seq<SlotDef>) {
    forall i :: 0 <= i < |slots| ==> IdsNameSlots(slots, slots[i].hiddenBy)
  }

  /** The first slot with the given id. */
  function FirstSlot(slots: seq<SlotDef>, id: int): (j: nat)
    requires HasSlot(slots, id)
    ensures j < |slots| && slots[j].id == id
    ensures forall i :: 0 <= i < j ==> slots[i].id != id
  {
    if slots[0].id == id then
      0
    else
      assert HasSlot(slots[1..], id) by {
        var j :| 0 <= j < |slots| && slots[j].id == id;
        assert slots[1..][j - 1].id == id;
      }
      1 + FirstSlot(slots[1..], id)
  }

  /** The j-th card of t carries the id of the j-th slot. */
  predicate DealtTo(cs: seq<Card>, t: seq<nat>, slots: seq<SlotDef>) {
    && |t| == |slots| && InBounds(t, |cs|)
    && forall j :: 0 <= j < |t| ==> cs[t[j]].layoutID == slots[j].id
  }

  /** When the j-th card of t was dealt to the j-th slot, the lookup of a slot id
      finds the card dealt to the first slot with that id. */
  lemma {:induction false} LookupFindsDealtCard(cs: seq<Card>, t: seq<nat>, slots: seq<SlotDef>, id: int)
    requires DealtTo(cs, t, slots)
    requires HasSlot(slots, id)
    ensures FirstIndexWithLayoutID(cs, t, id) == FirstSlot(slots, id)
    ensures FirstWithLayoutID(cs, t, id) == Some(t[FirstSlot(slots, id)])
    decreases |t|
  {
    if slots[0].id != id {
      assert HasSlot(slots[1..], id) by {
        var j :| 0 <= j < |slots| && slots[j].id == id;
        assert slots[1..][j - 1].id == id;
      }
      LookupFindsDealtCard(cs, t[1..], slots[1..], id);
    }
  }

  /** The lookup reads layout ids only: while one card's covers are being
      rewritten, a slot id still finds the card dealt to its first slot. */
  lemma LookupWhileBinding(cs: seq<Card>, c: nat, h: seq<nat>, t: seq<nat>, slots: seq<SlotDef>, id: int)
    requires DealtTo(cs, t, slots) && HasSlot(slots, id) && c < |cs|
    ensures FirstWithLayoutID(cs[c := cs[c].(hiddenBy := h)], t, id) == Some(t[FirstSlot(slots, id)])
  {
    var cs' := cs[c := cs[c].(hiddenBy := h)];
    assert DealtTo(cs', t, slots) by {
      assert forall j :: 0 <= j < |t| ==> cs'[t[j]].layoutID == cs[t[j]].layoutID;
    }
    LookupFindsDealtCard(cs', t, slots, id);
  }

  /** Every covering id in the list names a slot of the layout. */
  predicate IdsNameSlots(slots: seq<SlotDef>, ids: seq<int>) {
    forall k :: 0 <= k < |ids| ==> HasSlot(slots, ids[k])
  }

  /** The cards dealt to the first slot with each of the ids, in id order: what
      the deal binds a slot's covering ids to. */
  function CoverCards(t: seq<nat>, slots: seq<SlotDef>, ids: seq<int>): (r: seq<nat>)
    requires |t| == |slots| && IdsNameSlots(slots, ids)
    ensures |r| == |ids|
    ensures forall k :: 0 <= k < |ids| ==> exists j :: 0 <= j < |t| && r[k] == t[j] && slots[j].id == ids[k]
  {
    var r := seq(|ids|, k requires 0 <= k < |ids| => t[FirstSlot(slots, ids[k])]);
    assert forall k :: 0 <= k < |ids| ==> var j := FirstSlot(slots, ids[k]); j < |t| && r[k] == t[j] && slots[j].id == ids[k];
    r
  }

  /** Binding one more id appends the card dealt to that id's first slot. */
  lemma CoverCardsExtend(t: seq<nat>, slots: seq<SlotDef>, ids: seq<int>, k: nat)
    requires |t| == |slots| && IdsNameSlots(slots, ids) && k < |ids|
    ensures CoverCards(t, slots, ids[..k + 1]) == CoverCards(t, slots, ids[..k]) + [t[FirstSlot(slots, ids[k])]]
  {
    assert ids[..k + 1][k] == ids[k];
  }

  // ---------------------------------------------------------------------------
  // Visibility

  /** No card covering card c is still in the tableau. */
  predicate Uncovered(cs: seq<Card>, c: nat)
    requires c < |cs| && InBounds(cs[c].hiddenBy, |cs|)
  {
    forall h :: h in cs[c].hiddenBy ==> cs[h].state != Tableau
  }

  // ---------------------------------------------------------------------------
  // Splitting a list without repeats around one position

  lemma SplitAt(s: seq<nat>, n: nat, x: nat)
    requires NoDup(s) && n < |s|
    ensures x in s <==> (x in s[..n] || x == s[n] || x in s[n + 1..])
    ensures x in s[..n] ==> x != s[n] && x !in s[n + 1..]
    ensures x in s[n + 1..] ==> x != s[n]
  {
    assert s == s[..n] + [s[n]] + s[n + 1..];
    assert forall j :: 0 <= j < n ==> s[..n][j] == s[j];
    assert forall l :: n + 1 <= l < |s| ==> s[n + 1..][l - n - 1] == s[l];
  }
}
