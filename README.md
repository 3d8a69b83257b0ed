# Prospector rule engine in Dafny

This project models the rule engine of a Prospector ("Mine") solitaire, the
`Prospector` component in `Assets/__Scripts/Prospector.cs`, and proves what it
does. The game deals a shuffled deck onto a layout of slots. Each slot names the
slots whose cards cover it. The player then matches face-up tableau cards
against a single target card of adjacent rank, or draws a new target from the
draw pile.

Files:

- `rules.dfy` (module `ProspectorRules`) holds the values and the pure rules:
  - the card record and the parsed slot definition;
  - the rank-adjacency rule;
  - removal of the first occurrence from a list (`List.Remove`);
  - the first-match lookup by layout id;
  - covering-id resolution.
- `effects.dfy` (module `StoreEffects`) says, as functions over values, what
  each operation does to the card store, step by step. Each function comes
  with lemmas stating card by card what the resulting store holds.
- `game.dfy` (module `ProspectorGame`) holds the class `Prospector`. It has the
  card store, the three piles and the target as mutable fields. One method
  mirrors each method of the component, with the same loops, the same branches
  and the same order of effects. Each method is proved against the function
  that specifies it. The constructor is `Start` without reading the deck and
  the layout. It takes the shuffled deck and the parsed slots as inputs, makes
  the draw pile the whole deck in order, and calls `LayoutGame`, as `Start`
  does.

The cards of the deck are records in the sequence `cards` and are named by their
index in it. The piles (`drawPile`, `tableau`, `discardPile`) and each card's
`hiddenBy` list hold indices, so a reference from one card to another is an
index and an update to a card is seen by every pile that holds it.

Three behaviours of the code are reproduced as written:

- **Double discard.** The comments at `MoveToDiscard` (Prospector.cs:163,
  "Move the current target to the discard pile") and at `MoveToTarget` (line
  184) describe one discard per change of target. The code as written discards
  the old target twice on a draw-pile click. `MoveToDiscard(target)` runs at
  line 135 and leaves `target` set, so `MoveToTarget` discards the same card
  again at lines 185-187.
- **Faces after the deal.** After the deal, each tableau card's face is its
  slot's face-up flag. `LayoutGame` does not call `SetTableauFaces`.
- **Covers form a list.** A card's covers are appended in the order of its
  slot's covering ids, repeats included.

## Model

| member | source | states |
|---|---|---|
| ProspectorRules.AdjacentRank | Assets/__Scripts/Prospector.cs:223-238 | true exactly when the ranks differ by one in either direction or are 1 and 13; never true for equal ranks |
| ProspectorRules.AdjacentRankIsCircularNeighbour | Assets/__Scripts/Prospector.cs:223-238 | for ranks 1..13, two cards match exactly when one rank follows the other on the circle A, 2, ..., K, A |
| ProspectorRules.AdjacentRankSymmetric | Assets/__Scripts/Prospector.cs:223-238 | the order of the two cards does not matter |
| ProspectorRules.AdjacentRankSuccessor | Assets/__Scripts/Prospector.cs:223-238 | every rank matches its circular successor, both ways round |
| ProspectorRules.IndexOf | Assets/__Scripts/Prospector.cs:156 | the position `tableau.Remove` removes: it holds the card, and no earlier position does |
| ProspectorRules.RemoveFirst | Assets/__Scripts/Prospector.cs:156 | `tableau.Remove`: when the card is present, the list loses exactly one occurrence of it (one element shorter, same multiset minus the card); otherwise the list is unchanged |
| ProspectorRules.RemoveFirstExactly | Assets/__Scripts/Prospector.cs:156 | on a tableau without repeats, removing a card that is present leaves exactly the other cards |
| ProspectorRules.RemoveFirstNoDup | Assets/__Scripts/Prospector.cs:156 | removing a card keeps the tableau free of repeats |
| ProspectorRules.RemoveFirstInBounds | Assets/__Scripts/Prospector.cs:156 | removing a card leaves only cards of the game in the tableau |
| ProspectorRules.FirstIndexWithLayoutID | Assets/__Scripts/Prospector.cs:67-76 | the position of the first tableau card carrying the layout id, or the tableau's length when none carries it: no earlier card carries the id |
| ProspectorRules.FirstWithLayoutID | Assets/__Scripts/Prospector.cs:67-76 | the result of the lookup: a found card is in the tableau and carries the id; None exactly when no tableau card carries the id |
| ProspectorRules.FirstSlot | Assets/__Scripts/Prospector.cs:113-118 | the first slot of the layout with a given id: it has the id and no earlier slot does |
| ProspectorRules.LookupFindsDealtCard | Assets/__Scripts/Prospector.cs:67-76 | once the j-th tableau card carries the j-th slot's id, the lookup of a slot id finds the card dealt to the first slot with that id, and never returns null |
| ProspectorRules.LookupWhileBinding | Assets/__Scripts/Prospector.cs:113-118 | rewriting a card's covers while binding does not change what the lookup of a slot id finds |
| ProspectorRules.CoverCards | Assets/__Scripts/Prospector.cs:114-117 | the covers the binding gives a slot: one card per covering id, in id order, each dealt to a slot carrying that id |
| ProspectorRules.Uncovered | Assets/__Scripts/Prospector.cs:243-248 | the inner loop's verdict: no card covering the card is in the tableau state |
| ProspectorRules.CoverCardsExtend | Assets/__Scripts/Prospector.cs:114-117 | resolving one more covering id appends the card dealt to that id's first slot |
| ProspectorGame.Prospector.constructor | Assets/__Scripts/Prospector.cs:31-42 | Start: the draw pile is the whole deck in order, then LayoutGame deals from it. Afterwards the tableau holds the first slot-count cards, the next card is the target, the draw pile holds the rest, the discard pile is empty, every card's state names its pile, and the store is `Layout` of the deck |
| ProspectorGame.Prospector.Draw | Assets/__Scripts/Prospector.cs:60-64 | returns the old front of the draw pile, a card of the game, and leaves the draw pile equal to the old tail |
| ProspectorGame.Prospector.FindCardByLayoutID | Assets/__Scripts/Prospector.cs:67-76 | the linear search returns the first tableau card whose layout id matches, or None |
| ProspectorGame.Prospector.MoveToDiscard | Assets/__Scripts/Prospector.cs:164-180 | the card is appended to the discard pile and is face up in the discard state; no other card changes |
| ProspectorGame.Prospector.MoveToTarget | Assets/__Scripts/Prospector.cs:183-199 | a present target is first discarded, appended and face up; the card becomes the target, face up in the target state |
| ProspectorGame.Prospector.UpdateDrawPile | Assets/__Scripts/Prospector.cs:201-220 | the store becomes `Squared` of the draw pile: see SquaredCards |
| ProspectorGame.Prospector.SetTableauFaces | Assets/__Scripts/Prospector.cs:241-251 | the store becomes `Faces` of the tableau, see FacesShowUncovered; the piles are untouched |
| ProspectorGame.Prospector.LayoutGame | Assets/__Scripts/Prospector.cs:80-126 | the tableau is the first slot-count cards of the draw pile; the target is the next card; the draw pile is the rest; the discard pile is empty; every card's state names its pile; the store is `Layout` of the old store |
| ProspectorGame.Prospector.DealTableau | Assets/__Scripts/Prospector.cs:92-109 | the slot loop: the tableau is the drawn prefix in slot order; the j-th card carries slot j's id and definition; the store is `Deal` |
| ProspectorGame.Prospector.BindCovers | Assets/__Scripts/Prospector.cs:113-118 | the binding loop: the store is `Bind` of the tableau, see BoundCovers |
| ProspectorGame.Prospector.BindCard | Assets/__Scripts/Prospector.cs:114-117 | the inner loop appends, in id order, the card the lookup finds for each covering id of the card's slot, and changes nothing else |
| ProspectorGame.Prospector.CardClicked | Assets/__Scripts/Prospector.cs:129-161 | a click on the target or a discarded card changes nothing; a click on a face-down or non-adjacent tableau card changes nothing; a valid tableau click removes the card from the tableau, makes it the target and discards the old target once (`TableauPlay`); a draw-pile click makes the front card the target and appends the old target to the discard pile twice (`DrawClick`); during play every card's state names its pile |
| StoreEffects.Placed | Assets/__Scripts/Prospector.cs:94-104 | a dealt card: the tableau state, the slot's face-up flag, id and definition; rank and covers kept |
| StoreEffects.Deal | Assets/__Scripts/Prospector.cs:92-109 | the store after the first i slots are dealt; it keeps the number of cards |
| StoreEffects.DealPlaces | Assets/__Scripts/Prospector.cs:92-109 | the j-th card drawn gets the j-th slot's face-up flag, id and definition and the tableau state; no other card changes |
| StoreEffects.Bind | Assets/__Scripts/Prospector.cs:113-118 | the store after the first i tableau cards have their covers bound; it keeps the number of cards |
| StoreEffects.BindKeeps | Assets/__Scripts/Prospector.cs:113-118 | binding changes covers only |
| StoreEffects.BoundCovers | Assets/__Scripts/Prospector.cs:113-118 | the j-th tableau card gets, appended, the cards dealt to the first slots named by its slot's covering ids; no other card changes |
| StoreEffects.Squared | Assets/__Scripts/Prospector.cs:201-220 | the store after the first i draw-pile cards are squared up; it keeps the number of cards |
| StoreEffects.SquaredCards | Assets/__Scripts/Prospector.cs:201-220 | exactly the draw-pile cards end face down in the draw-pile state; nothing else changes |
| StoreEffects.Faces | Assets/__Scripts/Prospector.cs:241-251 | the store after the first i tableau cards have their faces recomputed; it keeps the number of cards |
| StoreEffects.FacesCards | Assets/__Scripts/Prospector.cs:241-251 | each recomputed card is face up exactly when no card covering it is in the tableau; other cards are unchanged |
| StoreEffects.FacesFlipOnlyFaces | Assets/__Scripts/Prospector.cs:241-251 | recomputing faces changes the face-up flag only, and only on tableau cards |
| StoreEffects.FacesKeepCovers | Assets/__Scripts/Prospector.cs:241-251 | every cover still names a card of the game |
| StoreEffects.FacesShowUncovered | Assets/__Scripts/Prospector.cs:241-251 | afterwards each tableau card is face up exactly when none of its covers is in the tableau state, judged on the new store |
| StoreEffects.SameStatesSameUncovered | Assets/__Scripts/Prospector.cs:244-248 | whether a card is uncovered depends only on its covers and the cards' states |
| StoreEffects.Layout | Assets/__Scripts/Prospector.cs:80-126 | the store LayoutGame leaves; it keeps the number of cards |
| StoreEffects.LayoutTableau | Assets/__Scripts/Prospector.cs:92-118 | after the deal, the card in slot j has that slot's face-up flag, id and definition, the tableau state, and as covers the cards dealt to the first slots named by the slot's covering ids |
| StoreEffects.LayoutCoversAreLookups | Assets/__Scripts/Prospector.cs:113-118 | after the deal, a card's k-th cover is what FindCardByLayoutID returns on the final tableau for its slot's k-th covering id, so the card has one cover per covering id |
| StoreEffects.LayoutRest | Assets/__Scripts/Prospector.cs:121-125 | the card after the dealt prefix is the target, face up; every later card is face down in the draw-pile state; cards outside the deck are untouched |
| StoreEffects.LayoutNamesPiles | Assets/__Scripts/Prospector.cs:80-126 | when the deck is every card, each card's state after the deal names its pile: tableau prefix, target, draw-pile rest, empty discard pile |
| StoreEffects.DrawClick | Assets/__Scripts/Prospector.cs:134-137 | the store after a draw-pile click; it keeps the number of cards |
| StoreEffects.DrawClickCards | Assets/__Scripts/Prospector.cs:134-137 | the old target is discarded face up; the front draw-pile card is the target, face up; the rest of the draw pile is face down in the draw-pile state; nothing else changes |
| StoreEffects.DrawClickKeepsPiles | Assets/__Scripts/Prospector.cs:134-137 | after a draw-pile click each card's state still names its pile, with the old target appended to the discard pile twice |
| StoreEffects.TableauPlay | Assets/__Scripts/Prospector.cs:155-158 | the store after a valid tableau click; it keeps the number of cards |
| StoreEffects.TableauPlayCards | Assets/__Scripts/Prospector.cs:155-158 | the old target is discarded face up; the played card is the target, face up; each remaining tableau card changes only its face, which is up exactly when none of its covers is still in the tableau; nothing else changes |
| StoreEffects.TableauPlayKeepsPiles | Assets/__Scripts/Prospector.cs:155-158 | after a valid tableau click each card's state still names its pile: the card left the tableau for the target, and the old target was appended to the discard pile once |

## Left out

- Unity plumbing is not modelled, because it is engine and scene glue, not rules. This covers `Awake`, the singleton `S`, `GetComponent`, the `_LayoutAnchor` object and every `transform.parent` assignment.
- Positions, stagger offsets and the random rotation of discarded cards are not modelled. They are floating-point presentation values and a random source, and no rule reads them.
- `SetSortingLayerName` and `SetSortOrder` are not modelled. They are rendering hints on a card class that is not part of this model.
- `Deck.InitDeck`, `Deck.Shuffle` and `Layout.ReadLayout` are not modelled; the constructor takes the shuffled deck and the parsed slots as inputs. `Deck` and `Layout` are not part of this model. A slot keeps only its id, face-up flag and covering ids.
- `ConvertListCardsToListCardProspector` is not modelled. It is a downcast, the identity on the card sequence.
- The buzz sound on an invalid match exists only as a comment.
- `CardProspector` is not part of this model. The constructor requires fresh cards to have empty covers.
- ProspectorGame.Prospector.Draw requires a non-empty draw pile. The source indexes `drawPile[0]` unguarded and fails on an empty pile.
- ProspectorGame.Prospector.LayoutGame requires every covering id of every slot to name a slot of the layout. For an unknown id the source would append the lookup's null to the card's covers.
- ProspectorGame.Prospector.LayoutGame requires more cards than slots, and the state Start sets up before calling it. It is called only from Start.
- ProspectorGame.Prospector.constructor requires more cards than slots and every covering id naming a slot, because it calls LayoutGame.
- ProspectorGame.Prospector.CardClicked requires the in-play state, in which a target exists and each card's state names its pile. This is the state LayoutGame establishes and every click keeps.
- Ranks and layout ids are unbounded integers. For the ranks a deck holds, the C# `int` subtraction in `AdjacentRank` cannot overflow.
