# Flashcard browser: decks, tags and filters

This project models the data layer of the card browser of a desktop
flashcard application, together with the equality and ordering of decks.

The browser is opened on a list of decks. It keeps five things:

- a lookup from deck name to deck, where the last deck of a name wins;
- a reverse index from each tag to the set of cards carrying it;
- the tag list, sorted and free of duplicates;
- a cache of resolved filters;
- the rows of its card tree, which are every card of the decks currently
  shown, plus the row that is currently selected.

A double-clicked filter entry picks the decks to show. The entry can be either
"all" entry, a deck name, a tag, or something unknown. Deleting a card removes
it from the first deck that holds it. Editing a card marks that deck modified.
Both invalidate the cache entries they affect and refill the tree, which then
reselects the previously selected card by its identifier.

Decks are objects. Their card list and modified flag are updated in place,
and the browser's lists share them.

Cards are objects too, compared by identity, as Python's `in` and
`list.remove` compare flashcards. Their fields are constant: no modelled
operation writes a card.

Files:

- `string_order.dfy` covers Python's order on strings. It also holds the
  strictly sorted lists that `sorted(set)` produces and insertion into them.
- `flashcard.dfy` holds the card.
- `deck.dfy` holds the deck, with its six comparison operators and their
  algebra.
- `card_browser.dfy` holds the browser:
  - the functions that specify it (tag sets, index folds, name lookup,
    filtering, flattening, reselection, first-occurrence removal);
  - the loops of `generate_tag_list`, `build_tag_index`, `update_card_list`,
    `update_filter_cache`, `delete_card` and `handle_card_update` as methods
    proved against those functions;
  - the widget itself, as the class `CardBrowser.Browser`.

## Model

| member | source | states |
|---|---|---|
| `StringOrder.Less` | models/Deck.py:16 | Definition of Python's `<` on `str` (code-point lexicographic, a proper prefix first); its properties are in `LessIrreflexive`, `LessTransitive` and `LessTrichotomous` |
| `StringOrder.LessEq` | models/Deck.py:19 | Definition of Python's `<=` on `str`; its relation to `<` is in `LessEqIsNotGreater` |
| `StringOrder.LessTrichotomous` | models/Deck.py:15-19 | The order on names is total and antisymmetric: exactly one of `a < b`, `a == b`, `b < a` holds |
| `StringOrder.LessTransitive` | models/Deck.py:15-16 | `<` on strings is transitive |
| `StringOrder.LessIrreflexive` | models/Deck.py:15-16 | No string is below itself |
| `StringOrder.LessEqIsNotGreater` | models/Deck.py:18-19 | `a <= b` holds exactly when `b < a` fails |
| `StringOrder.Insert` | widgets/CardBrowserWidget.py:83 | Inserting into a strictly sorted list keeps it strictly sorted and adds exactly the one element |
| `StringOrder.StrictlySortedUnique` | widgets/CardBrowserWidget.py:83 | Two strictly sorted lists with the same elements are equal, so sorting a set has exactly one result |
| `StringOrder.StrictlySortedDistinct` | widgets/CardBrowserWidget.py:83 | A strictly sorted list holds no element twice |
| `Flashcards.Card.constructor` | models/Flashcard.py:4-8 | A new card carries the given identifier, faces and tags |
| `Decks.Deck.constructor` | models/Deck.py:2-4 | A new deck has the given name and cards and is not marked modified |
| `Decks.Deck.Eq` | models/Deck.py:9-10 | Definition of `__eq__`: same name and the same cards, card by card by identity; its properties are in `EqIsEquivalence` |
| `Decks.Deck.Ne` | models/Deck.py:12-13 | Definition of `__ne__` as the negation of `==`; its properties are in `EqIsEquivalence` |
| `Decks.Deck.Lt` | models/Deck.py:15-16 | Definition of `__lt__` on names; its properties are in `LtIsStrictOrder`, `OrderIgnoresCards` and `OrderTrichotomy` |
| `Decks.Deck.Le` | models/Deck.py:18-19 | Definition of `__le__` on names; its properties are in `GtIsConverseLt` and `OrderIgnoresCards` |
| `Decks.Deck.Gt` | models/Deck.py:21-22 | Definition of `__gt__` as the negation of `<=`; its properties are in `GtIsConverseLt` and `OrderTrichotomy` |
| `Decks.Deck.Ge` | models/Deck.py:24-25 | Definition of `__ge__` as the negation of `<`; its properties are in `GtIsConverseLt` and `SameNameUnorderedButUnequal` |
| `Decks.EqIsEquivalence` | models/Deck.py:9-13 | `==` compares name and card list and is an equivalence; `!=` is its exact negation |
| `Decks.OrderIgnoresCards` | models/Deck.py:15-25 | All four ordering operators depend on the names alone |
| `Decks.GtIsConverseLt` | models/Deck.py:15-25 | `a > b` (written as `not a <= b`) holds exactly when `b < a`, and `a >= b` (written as `not a < b`) exactly when `b <= a` |
| `Decks.OrderTrichotomy` | models/Deck.py:15-25 | For any two decks exactly one of `a < b`, `a > b`, "same name" holds |
| `Decks.LtIsStrictOrder` | models/Deck.py:15-16 | `<` on decks is irreflexive and transitive |
| `Decks.SameNameUnorderedButUnequal` | models/Deck.py:9-19 | Two decks with one name and different cards are neither `<` nor `>` each other, are both `<=` and `>=`, and are not `==` |
| `CardBrowser.CardTags` | widgets/CardBrowserWidget.py:81-82 | Definition of the union of the tags of a list of cards; its properties are in `CardTagsMembers` |
| `CardBrowser.DeckTags` | widgets/CardBrowserWidget.py:79-82 | Definition of the set of tags accumulated over all decks; its properties are in `DeckTagsMembers` |
| `CardBrowser.CardTagsMembers` | widgets/CardBrowserWidget.py:81-82 | A tag is in the union of the cards' tags exactly when some card carries it |
| `CardBrowser.DeckTagsMembers` | widgets/CardBrowserWidget.py:80-82 | A tag is in the union over all decks exactly when some card of some deck carries it |
| `CardBrowser.GenerateTagList` | widgets/CardBrowserWidget.py:73-83 | The tag list is strictly increasing, and its elements are exactly the tags of the cards in the decks |
| `CardBrowser.AddToIndex` | widgets/CardBrowserWidget.py:207-209 | Definition of one step: create an empty entry when the tag is missing, then add the card; its properties are in `IndexTagsKeys` and `IndexTagsAt` |
| `CardBrowser.IndexTags` | widgets/CardBrowserWidget.py:206-209 | Definition of the innermost loop over a card's tags; its properties are in `IndexTagsKeys` and `IndexTagsAt` |
| `CardBrowser.IndexCards` | widgets/CardBrowserWidget.py:205-209 | Definition of the loop over a deck's cards; its properties are in `IndexCardsKeys` and `IndexCardsAt` |
| `CardBrowser.IndexDecks` | widgets/CardBrowserWidget.py:203-209 | Definition of the whole index build from an empty dictionary; its properties are in `IndexDecksKeys`, `IndexDecksAt` and `IndexDecksIsTagIndex` |
| `CardBrowser.IndexTagsKeys` | widgets/CardBrowserWidget.py:206-208 | Adding one card under its tags adds exactly those tags as keys |
| `CardBrowser.IndexCardsKeys` | widgets/CardBrowserWidget.py:205-208 | Adding a list of cards adds exactly their tags as keys |
| `CardBrowser.IndexDecksKeys` | widgets/CardBrowserWidget.py:203-208 | The keys of the index are exactly the tags that occur |
| `CardBrowser.IndexTagsAt` | widgets/CardBrowserWidget.py:206-209 | After adding a card under its tags, a card is under `t` exactly when it was before or it is the new card and carries `t` |
| `CardBrowser.IndexCardsAt` | widgets/CardBrowserWidget.py:205-209 | After adding a list of cards, a card is under `t` exactly when it was before or it is in the list and carries `t` |
| `CardBrowser.IndexDecksAt` | widgets/CardBrowserWidget.py:203-209 | A card is under `t` exactly when it is in some deck and carries `t` |
| `CardBrowser.IndexDecksIsTagIndex` | widgets/CardBrowserWidget.py:199-209 | The fold over all decks satisfies the reverse-index property in both directions, and has exactly the occurring tags as keys |
| `CardBrowser.BuildTagIndex` | widgets/CardBrowserWidget.py:199-209 | The nested loops build the fold, which is the reverse index of the decks |
| `CardBrowser.Lookup` | widgets/CardBrowserWidget.py:37 | Definition of the name-to-deck dictionary, filled deck after deck; its properties are in `LookupLastWins` |
| `CardBrowser.LookupLastWins` | widgets/CardBrowserWidget.py:37 | Every deck's name is a key, and each key maps to a deck of that name from the list. The deck found under a name is the last deck with that name |
| `CardBrowser.HasCardIn` | widgets/CardBrowserWidget.py:102 | Definition of the test that some card of the deck is in the tag's entry; `FilterDecks` and `TagFilterSelectsTaggedDecks` state what it selects |
| `CardBrowser.FilterDecks` | widgets/CardBrowserWidget.py:101-102 | The result is a subsequence of the decks in their original order. It keeps exactly the decks holding some card of the given set |
| `CardBrowser.FilterDecksKeepsRepeats` | widgets/CardBrowserWidget.py:101-102 | A deck listed several times is kept as many times, or not at all |
| `CardBrowser.TagFilterSelectsTaggedDecks` | widgets/CardBrowserWidget.py:100-102 | With the reverse index, filtering by the entry of a tag keeps exactly the decks holding a card that carries the tag |
| `CardBrowser.Flatten` | widgets/CardBrowserWidget.py:176-177 | Definition of the tree rows: the decks' card lists joined deck after deck; its properties are in `FlattenMembers` |
| `CardBrowser.FlattenMembers` | widgets/CardBrowserWidget.py:176-177 | The rows are exactly the cards of the shown decks: every row's card is in some deck, and every card of every deck is a row |
| `CardBrowser.FlattenCards` | widgets/CardBrowserWidget.py:175-183 | The nested loop fills the tree with the cards deck after deck, each deck's cards in order |
| `CardBrowser.FirstWithId` | widgets/CardBrowserWidget.py:188-192 | Finds the first row whose card has the identifier, or reports that no row has it |
| `CardBrowser.Reselection` | widgets/CardBrowserWidget.py:186-195 | Definition of the reselection rule in terms of `FirstWithId`; its properties are in `ReselectionSpec` |
| `CardBrowser.ReselectionSpec` | widgets/CardBrowserWidget.py:186-195 | A selection is always a row. With a previous card, the selection is the first row with the same identifier, and there is one exactly when such a row exists. Without one, it is the first row, or nothing when the tree is empty |
| `CardBrowser.Reselect` | widgets/CardBrowserWidget.py:186-195 | The scan with early exit computes the reselection rule |
| `CardBrowser.FirstHolding` | widgets/CardBrowserWidget.py:153-157 | Finds the first deck holding the card, or reports that none holds it |
| `CardBrowser.FirstHoldingAt` | widgets/CardBrowserWidget.py:226-230 | A scan that stops at the first deck holding the card lands where `FirstHolding` says |
| `CardBrowser.FirstIndex` | widgets/CardBrowserWidget.py:228 | Finds the position of the first occurrence of a card |
| `CardBrowser.RemoveFirst` | widgets/CardBrowserWidget.py:228 | `list.remove` drops the first occurrence and keeps everything before and after it in order |
| `CardBrowser.RemoveFirstCount` | widgets/CardBrowserWidget.py:228 | Exactly one occurrence of the card is gone |
| `CardBrowser.RemoveFromFirstHolding` | widgets/CardBrowserWidget.py:226-230 | The loop returns the position `FirstHolding` gives. That deck loses exactly the first occurrence of the card and is marked modified; every other deck keeps its cards and its flag |
| `CardBrowser.MarkFirstHolding` | widgets/CardBrowserWidget.py:153-157 | The loop returns the position `FirstHolding` gives and marks that deck modified. No deck's cards change, and every other deck keeps its flag |
| `CardBrowser.Browser.constructor` | widgets/CardBrowserWidget.py:24-55 | Opening the browser sets up the state listed below. It shows every deck, starts with an empty cache, and selects the first row when there is one. The index is the reverse index of the decks, the tag list holds exactly their tags, and the lookup is the name comprehension |
| `CardBrowser.OpenOn` | widgets/CardBrowserWidget.py:39-55 | The index is the fold of all decks; the tag list is strictly sorted, holds exactly the occurring tags and exactly the index's keys; the rows are the flattened decks; the first row is selected when there is one |
| `CardBrowser.Browser.SelectedCard` | widgets/CardBrowserWidget.py:171-173 | Definition of the card of the tree's current item, or none; `UpdateCardList`, `SelectFilter`, `DeleteCard` and `HandleCardUpdate` use it as the previous selection |
| `CardBrowser.Browser.FilterCardsByTag` | widgets/CardBrowserWidget.py:211-217 | The result holds exactly the cards of the tag's index entry, each once; an unknown tag gives nothing. No state changes |
| `CardBrowser.Browser.UpdateCardList` | widgets/CardBrowserWidget.py:164-197 | The tree holds exactly the flattened decks, and the selection follows the reselection rule from the previously selected card. The browser invariant is kept |
| `CardBrowser.Browser.UpdateFilterCache` | widgets/CardBrowserWidget.py:236-239 | Removes exactly the keys that are affected or equal "-- All Decks --"; every other key keeps its value. The browser invariant is kept |
| `CardBrowser.Browser.SelectFilter` | widgets/CardBrowserWidget.py:85-108 | "All" entries show every deck and leave the cache alone. Otherwise the resolution order is: a deck name gives its lookup deck; else a known tag gives the tag-filtered decks; else nothing. The entry is cached under its text. The tree is refilled, and the browser invariant is kept |
| `CardBrowser.Browser.DeleteCard` | widgets/CardBrowserWidget.py:219-234 | With nothing selected, nothing changes. Otherwise the first deck holding the card loses one occurrence of it and is marked modified, and every other deck is untouched. The cache drops the card's tags and "-- All Decks --" but not the deck name. The tree is refilled |
| `CardBrowser.Browser.HandleCardUpdate` | widgets/CardBrowserWidget.py:142-162 | Only the first deck holding the card is marked modified, and no card list changes. The cache drops the card's tags, that deck's name and "-- All Decks --". The tree is refilled |

## Semantics of the Python code that the model makes explicit

- No scheduler code exists in the repository: `models/Flashcard.py:4-8`
  stores only the two faces and a review date, and `widgets/CardWidget.py:66`
  calls an undefined `review`. The model follows the code that exists.
- The browser reads each card's `id` and `tags`, but `models/Flashcard.py`
  defines neither. They are modelled as fields of the card, as the browser
  uses them.
- The deck class never sets `is_modified` in its initializer. The browser
  sets it to true, and saving reads it and resets it. The model gives the flag
  the value false when a deck is made.
- The tag index and tag list are built only when the browser opens. Deleting
  a card does not rebuild them, so afterwards they may still name the deleted
  card. The model keeps them as they are, as `delete_card` does. The browser
  invariant (`Browser.Valid`) therefore ties the tag list to the index's keys,
  not to the current decks.
- When a card was selected before a refresh and no row has its identifier
  afterwards, the search in `update_card_list` sets nothing, so the cleared tree has no
  current item. This happens, for example, after the selected card is deleted
  and no other card shares its identifier. `Reselection` then gives no
  selection.

## Left out

- The spaced-repetition grading and session planning: there is no such code in the repository (`widgets/CardWidget.py:66` calls an undefined `review`).
- All Qt plumbing: layouts, the filter list and tree widgets as widgets, signals and slots, shortcuts, the close-event filter, the card editor window (`show_card_editor`), and `show`. The tree is modelled only by its rows and its current row.
- `theme.py`, `palettes.py`, `main.py` and the remaining widgets (`AddCardWidget`, `AddDeckWidget`, `DeckListWidget`, `CardWidget`, `SettingsDialog`, `Toast`, `CardEditWidget`): these are view code and constant tables with no logic the browser depends on.
- `utils.py`: saving decks to CSV is file I/O.
- `Deck.__str__` and `Deck.__repr__`: they depend on Python's rendering of card objects.
- Editing a card's fields: the editor that changes a card is outside the model. Card fields are constants, so `HandleCardUpdate` receives the card after the edit, and the index is not updated for changed tags (`handle_card_update` does not update it either).
- CardBrowser.Browser.FilterCardsByTag: the order of `list(set)` is Python's hash order. The contract leaves the order open and states only the elements and that each occurs once.
- StringOrder.Insert: `sorted` is Timsort in Python. The model builds the same list by insertion, and `StrictlySortedUnique` shows every strictly sorted arrangement of a set is the same list.
- A `KeyError` from the lookup or the index cannot arise in the modelled paths. Each lookup is guarded by a membership test, or by the browser invariant for the tag list.
- Aliasing of one card list object between two decks: each deck holds its own card sequence, so removing a card from one deck cannot change another deck's list.
- Flashcards.Card: `next_review_date` (set from the clock at `models/Flashcard.py:8`) is not modelled; no browser operation reads it.
- Decks.Deck.constructor: `models/Deck.py:2-4` does not set `is_modified`; the browser only ever sets it to true and saving resets it, so the model starts every deck with the flag false.
- StringOrder.Less: strings are sequences of Dafny characters, compared by code point as Python does; there is no Unicode normalisation.
