/**
  The data layer of the card browser: a list of decks, a lookup from deck
  name to deck, a reverse index from tag to the cards that carry it, the
  sorted list of all tags, a cache of resolved filters, and the rows of the
  card tree (every card of the decks currently shown) with the row that is
  currently selected.

  The browser owns no cards or decks of its own: `allDecks`,
  `currentDeckList`, `deckLookup` and the cached filter results all refer to
  the same deck objects, so a card removed from a deck is gone from every one
  of them.
*/
module CardBrowser {
  import opened Flashcards
  import opened Decks
  import opened StringOrder

  datatype Option<T> = None | Some(value: T)

  /** The two entries at the top of the filter list that select every deck. */
  const AllDecks: string := "-- All Decks --"
  const AllTags: string := "-- All Tags --"

  /** Tag to the set of cards carrying it. */
  type TagIndex = map<string, set<Card>>

  // ---------------------------------------------------------------------
  // Tags carried by cards and decks

  /** The union of the tags of `cards`. */
  function CardTags(cards: seq<Card>): set<string>
    decreases |cards|
  {
    if cards == [] then {}
    else CardTags(cards[..|cards| - 1]) + Elems(cards[|cards| - 1].tags)
  }

  /** The union of the tags of every card of every deck in `decks`. */
  function DeckTags(decks: seq<Deck>): set<string>
    reads decks
    decreases |decks|
  {
    if decks == [] then {}
    else DeckTags(decks[..|decks| - 1]) + CardTags(decks[|decks| - 1].cards)
  }

  /** Card `c` belongs to some deck of `decks` and carries tag `t`. */
  ghost predicate Carries(decks: seq<Deck>, c: Card, t: string)
    reads decks
  {
    exists i :: 0 <= i < |decks| && c in decks[i].cards && t in c.tags
  }

  lemma {:induction false} CardTagsMembers(cards: seq<Card>, t: string)
    ensures t in CardTags(cards) <==> exists c :: c in cards && t in c.tags
  {
    if cards != [] {
      var p, c := cards[..|cards| - 1], cards[|cards| - 1];
      CardTagsMembers(p, t);
      assert cards == p + [c];
      assert t in Elems(c.tags) <==> t in c.tags;
    }
  }

  /** A tag is in `DeckTags(decks)` exactly when some card of the decks carries it. */
  lemma {:induction false} DeckTagsMembers(decks: seq<Deck>, t: string)
    ensures t in DeckTags(decks) <==> exists c :: Carries(decks, c, t)
  {
    if decks != [] {
      var p, d := decks[..|decks| - 1], decks[|decks| - 1];
      DeckTagsMembers(p, t);
      CardTagsMembers(d.cards, t);
      if t in DeckTags(decks) {
        if t in DeckTags(p) {
          var c, i :| 0 <= i < |p| && c in p[i].cards && t in c.tags;
          assert decks[i] == p[i];
          assert Carries(decks, c, t);
        } else {
          var c :| c in d.cards && t in c.tags;
          assert Carries(decks, c, t);
        }
      }
      if exists c :: Carries(decks, c, t) {
        var c, i :| 0 <= i < |decks| && c in decks[i].cards && t in c.tags;
        if i < |p| {
          assert p[i] == decks[i];
          assert Carries(p, c, t);
        }
      }
    }
  }

  // ---------------------------------------------------------------------
  // The reverse index, built the way the nested loops of `build_tag_index` build it

  /** Adds card `c` to the entry of tag `t`, creating an empty entry first when there is none. */
  function AddToIndex(m: TagIndex, t: string, c: Card): TagIndex {
    m[t := (if t in m then m[t] else {}) + {c}]
  }

  /** Adds `c` under each tag of `tags`, in order. */
  function IndexTags(m: TagIndex, c: Card, tags: seq<string>): TagIndex
    decreases |tags|
  {
    if tags == [] then m
    else AddToIndex(IndexTags(m, c, tags[..|tags| - 1]), tags[|tags| - 1], c)
  }

  /** Adds every card of `cards` under each of its tags, in order. */
  function IndexCards(m: TagIndex, cards: seq<Card>): TagIndex
    decreases |cards|
  {
    if cards == [] then m
    else
      var c := cards[|cards| - 1];
      IndexTags(IndexCards(m, cards[..|cards| - 1]), c, c.tags)
  }

  /** The index of every card of every deck, starting from an empty index. */
  function IndexDecks(decks: seq<Deck>): TagIndex
    reads decks
    decreases |decks|
  {
    if decks == [] then map[]
    else IndexCards(IndexDecks(decks[..|decks| - 1]), decks[|decks| - 1].cards)
  }

  /**
    `m` is the reverse index of `decks`: its keys are exactly the tags that
    occur, and a card is under tag `t` exactly when it is in one of the decks
    and carries `t`.
  */
  ghost predicate IsTagIndexOf(m: TagIndex, decks: seq<Deck>)
    reads decks
  {
    && m.Keys == DeckTags(decks)
    && (forall t, x :: t in m && x in m[t] ==> Carries(decks, x, t))
    && (forall t, i, x :: 0 <= i < |decks| && x in decks[i].cards && t in x.tags ==> t in m && x in m[t])
  }

  lemma {:induction false} IndexTagsKeys(m: TagIndex, c: Card, tags: seq<string>)
    ensures IndexTags(m, c, tags).Keys == m.Keys + Elems(tags)
  {
    if tags != [] {
      var p := tags[..|tags| - 1];
      IndexTagsKeys(m, c, p);
      assert tags == p + [tags[|tags| - 1]];
      assert Elems(tags) == Elems(p) + {tags[|tags| - 1]};
    }
  }

  lemma {:induction false} IndexCardsKeys(m: TagIndex, cards: seq<Card>)
    ensures IndexCards(m, cards).Keys == m.Keys + CardTags(cards)
  {
    if cards != [] {
      var p, c := cards[..|cards| - 1], cards[|cards| - 1];
      IndexCardsKeys(m, p);
      IndexTagsKeys(IndexCards(m, p), c, c.tags);
    }
  }

  lemma {:induction false} IndexDecksKeys(decks: seq<Deck>)
    ensures IndexDecks(decks).Keys == DeckTags(decks)
  {
    if decks != [] {
      var p, d := decks[..|decks| - 1], decks[|decks| - 1];
      IndexDecksKeys(p);
      IndexCardsKeys(IndexDecks(p), d.cards);
    }
  }

  lemma {:induction false} IndexTagsAt(m: TagIndex, c: Card, tags: seq<string>, t: string, x: Card)
    requires t in IndexTags(m, c, tags)
    ensures x in IndexTags(m, c, tags)[t] <==> (t in m && x in m[t]) || (x == c && t in tags)
  {
    if tags != [] {
      var p := tags[..|tags| - 1];
      assert tags == p + [tags[|tags| - 1]];
      IndexTagsKeys(m, c, p);
      if t in IndexTags(m, c, p) {
        IndexTagsAt(m, c, p, t, x);
      }
    }
  }

  lemma {:induction false} IndexCardsAt(m: TagIndex, cards: seq<Card>, t: string, x: Card)
    requires t in IndexCards(m, cards)
    ensures x in IndexCards(m, cards)[t] <==> (t in m && x in m[t]) || (x in cards && t in x.tags)
  {
    if cards != [] {
      var p, c := cards[..|cards| - 1], cards[|cards| - 1];
      assert cards == p + [c];
      IndexTagsAt(IndexCards(m, p), c, c.tags, t, x);
      IndexCardsKeys(m, p);
      CardTagsMembers(p, t);
      if t in IndexCards(m, p) {
        IndexCardsAt(m, p, t, x);
      }
    }
  }

  lemma {:induction false} IndexDecksAt(decks: seq<Deck>, t: string, x: Card)
    requires t in IndexDecks(decks)
    ensures x in IndexDecks(decks)[t] <==> Carries(decks, x, t)
  {
    if decks != [] {
      var p, d := decks[..|decks| - 1], decks[|decks| - 1];
      IndexCardsAt(IndexDecks(p), d.cards, t, x);
      IndexDecksKeys(p);
      DeckTagsMembers(p, t);
      if t in IndexDecks(p) {
        IndexDecksAt(p, t, x);
      }
      if Carries(decks, x, t) {
        var i :| 0 <= i < |decks| && x in decks[i].cards && t in x.tags;
        if i < |p| {
          assert p[i] == decks[i];
          assert Carries(p, x, t);
        }
      }
      if Carries(p, x, t) {
        var i :| 0 <= i < |p| && x in p[i].cards && t in x.tags;
        assert decks[i] == p[i];
      }
      if x in d.cards && t in x.tags {
        assert decks[|decks| - 1] == d;
      }
    }
  }

  /** Folding every tag of every card into an empty index yields the reverse index. */
  lemma IndexDecksIsTagIndex(decks: seq<Deck>)
    ensures IsTagIndexOf(IndexDecks(decks), decks)
  {
    var m := IndexDecks(decks);
    IndexDecksKeys(decks);
    forall t, x | t in m && x in m[t] ensures Carries(decks, x, t) {
      IndexDecksAt(decks, t, x);
    }
    forall t, i, x | 0 <= i < |decks| && x in decks[i].cards && t in x.tags
      ensures t in m && x in m[t]
    {
      assert Carries(decks, x, t);
      DeckTagsMembers(decks, t);
      IndexDecksAt(decks, t, x);
    }
  }

  // ---------------------------------------------------------------------
  // Deck lookup by name

  /** Maps each deck name to the last deck in `decks` with that name. */
  function Lookup(decks: seq<Deck>): map<string, Deck>
    decreases |decks|
  {
    if decks == [] then map[]
    else Lookup(decks[..|decks| - 1])[decks[|decks| - 1].name := decks[|decks| - 1]]
  }

  /**
    The keys of `Lookup(decks)` are the names that occur, each maps to a deck
    of that name, and when several decks share a name the last of them wins.
  */
  lemma {:induction false} LookupLastWins(decks: seq<Deck>)
    ensures forall n :: n in Lookup(decks) ==> Lookup(decks)[n] in decks && Lookup(decks)[n].name == n
    ensures forall i :: 0 <= i < |decks| ==> decks[i].name in Lookup(decks)
    ensures forall i :: 0 <= i < |decks| && (forall j :: i < j < |decks| ==> decks[j].name != decks[i].name) ==>
      Lookup(decks)[decks[i].name] == decks[i]
    decreases |decks|
  {
    if decks != [] {
      var p := decks[..|decks| - 1];
      LookupLastWins(p);
      assert forall i :: 0 <= i < |p| ==> p[i] == decks[i];
    }
  }

  // ---------------------------------------------------------------------
  // Filtering decks by the cards of a tag

  /** Some card of deck `d` belongs to `members`. */
  predicate HasCardIn(d: Deck, members: set<Card>)
    reads d
  {
    exists c :: c in d.cards && c in members
  }

  /** `r` is `s` with some elements left out, the rest in their original order. */
  predicate IsSubsequence<T(==)>(r: seq<T>, s: seq<T>)
    decreases |s|
  {
    if r == [] then true
    else if s == [] then false
    else (r[0] == s[0] && IsSubsequence(r[1..], s[1..])) || IsSubsequence(r, s[1..])
  }

  /** The decks of `decks` that hold some card of `members`, in their original order. */
  function FilterDecks(decks: seq<Deck>, members: set<Card>): (r: seq<Deck>)
    reads decks
    ensures IsSubsequence(r, decks)
    ensures forall d :: d in r ==> d in decks && HasCardIn(d, members)
    ensures forall d :: d in decks && HasCardIn(d, members) ==> d in r
    decreases |decks|
  {
    if decks == [] then []
    else
      var rest := FilterDecks(decks[1..], members);
      assert forall d :: d in decks[1..] ==> d in decks;
      assert forall d :: d in decks ==> d == decks[0] || d in decks[1..];
      if HasCardIn(decks[0], members) then
        assert ([decks[0]] + rest)[1..] == rest;
        [decks[0]] + rest
      else
        assert rest != [] ==> IsSubsequence(rest, decks);
        rest
  }

  /** Each kept deck is kept as often as it occurs in `decks`. */
  lemma {:induction false} FilterDecksKeepsRepeats(decks: seq<Deck>, members: set<Card>, d: Deck)
    requires d in decks
    ensures multiset(FilterDecks(decks, members))[d] ==
      if HasCardIn(d, members) then multiset(decks)[d] else 0
    decreases |decks|
  {
    assert decks == [decks[0]] + decks[1..];
    var rest := FilterDecks(decks[1..], members);
    if d in decks[1..] {
      FilterDecksKeepsRepeats(decks[1..], members, d);
    } else {
      assert d !in rest;
    }
  }

  /**
    When the index is the reverse index of `decks`, filtering by the entry of
    `tag` keeps exactly the decks that hold a card carrying `tag`.
  */
  lemma TagFilterSelectsTaggedDecks(decks: seq<Deck>, index: TagIndex, tag: string)
    requires IsTagIndexOf(index, decks) && tag in index
    ensures forall d :: d in FilterDecks(decks, index[tag]) <==>
      d in decks && exists c :: c in d.cards && tag in c.tags
  {
  }

  // ---------------------------------------------------------------------
  // The tree rows: every card of the shown decks, and the selection rule

  /** The cards of `decks`, deck after deck, each deck's cards in order. */
  function Flatten(decks: seq<Deck>): seq<Card>
    reads decks
    decreases |decks|
  {
    if decks == [] then []
    else Flatten(decks[..|decks| - 1]) + decks[|decks| - 1].cards
  }

  /** The rows are exactly the cards of the decks: each row's card is in some deck, and each card of a deck is a row. */
  lemma {:induction false} FlattenMembers(decks: seq<Deck>)
    ensures forall c :: c in Flatten(decks) ==> exists i :: 0 <= i < |decks| && c in decks[i].cards
    ensures forall i, c :: 0 <= i < |decks| && c in decks[i].cards ==> c in Flatten(decks)
    decreases |decks|
  {
    if decks != [] {
      var p := decks[..|decks| - 1];
      FlattenMembers(p);
      assert forall i :: 0 <= i < |p| ==> p[i] == decks[i];
    }
  }

  /** The first row whose card has identifier `id`, if any. */
  function FirstWithId(rows: seq<Card>, id: int): (k: Option<nat>)
    ensures k.Some? ==>
      k.value < |rows| && rows[k.value].id == id && forall j :: 0 <= j < k.value ==> rows[j].id != id
    ensures k.None? ==> forall j :: 0 <= j < |rows| ==> rows[j].id != id
  {
    if rows == [] then None
    else if rows[0].id == id then Some(0)
    else match FirstWithId(rows[1..], id)
      case None => None
      case Some(k) => Some(k + 1)
  }

  /**
    The row selected after the tree is refilled with `rows`: with a card
    selected before, the first row whose card has the same identifier (and
    no selection when there is none); with nothing selected before, the
    first row, or nothing when there are no rows.
  */
  function Reselection(rows: seq<Card>, previous: Option<Card>): Option<nat> {
    match previous
    case None => if rows == [] then None else Some(0)
    case Some(c) => FirstWithId(rows, c.id)
  }

  /**
    The reselection rule, stated outright: a selection is always a row; with
    no previous card it is the first row exactly when there are rows; with a
    previous card there is one exactly when some row has its identifier, and
    it is the first such row.
  */
  lemma ReselectionSpec(rows: seq<Card>, previous: Option<Card>)
    ensures var k := Reselection(rows, previous);
      && (k.Some? ==> k.value < |rows|)
      && (previous.None? ==> (k.Some? <==> rows != []) && (k.Some? ==> k.value == 0))
      && (previous.Some? ==> (k.Some? <==> exists j :: 0 <= j < |rows| && rows[j].id == previous.value.id))
      && (previous.Some? && k.Some? ==>
            rows[k.value].id == previous.value.id &&
            forall j :: 0 <= j < k.value ==> rows[j].id != previous.value.id)
  {
  }

  /** Builds the tree rows with the nested loop of `update_card_list`. */
  method FlattenCards(decks: seq<Deck>) returns (rows: seq<Card>)
    ensures rows == Flatten(decks)
  {
    rows := [];
    for i := 0 to |decks|
      invariant rows == Flatten(decks[..i])
    {
      var deck := decks[i];
      for j := 0 to |deck.cards|
        invariant rows == Flatten(decks[..i]) + deck.cards[..j]
      {
        rows := rows + [deck.cards[j]];
      }
      assert decks[..i + 1][..i] == decks[..i];
      assert deck.cards[..|deck.cards|] == deck.cards;
    }
    assert decks[..|decks|] == decks;
  }

  /** Chooses the row to select after a refresh, scanning the rows in order. */
  method Reselect(rows: seq<Card>, previous: Option<Card>) returns (current: Option<nat>)
    ensures current == Reselection(rows, previous)
  {
    if previous.Some? {
      current := None;
      var i := 0;
      while i < |rows|
        invariant 0 <= i <= |rows|
        invariant forall j :: 0 <= j < i ==> rows[j].id != previous.value.id
      {
        if rows[i].id == previous.value.id {
          current := Some(i);
          return;
        }
        i := i + 1;
      }
    } else if rows != [] {
      current := Some(0);
    } else {
      current := None;
    }
  }

  // ---------------------------------------------------------------------
  // Changing decks

  /** The position of the first deck of `decks` that holds card `c`, if any. */
  function FirstHolding(decks: seq<Deck>, c: Card): (k: Option<nat>)
    reads decks
    ensures k.Some? ==>
      k.value < |decks| && c in decks[k.value].cards && forall j :: 0 <= j < k.value ==> c !in decks[j].cards
    ensures k.None? ==> forall j :: 0 <= j < |decks| ==> c !in decks[j].cards
    decreases |decks|
  {
    if decks == [] then None
    else if c in decks[0].cards then Some(0)
    else match FirstHolding(decks[1..], c)
      case None => None
      case Some(k) => Some(k + 1)
  }

  /** The position of the first occurrence of `c` in `s`. */
  function FirstIndex(s: seq<Card>, c: Card): (k: nat)
    requires c in s
    ensures k < |s| && s[k] == c && c !in s[..k]
  {
    if s[0] == c then 0
    else
      var k := FirstIndex(s[1..], c);
      assert s[..k + 1] == [s[0]] + s[1..][..k];
      k + 1
  }

  /** A scan that stops at position `i`, the first deck holding `c`, agrees with `FirstHolding`. */
  lemma FirstHoldingAt(decks: seq<Deck>, c: Card, i: nat)
    requires i <= |decks|
    requires forall j :: 0 <= j < i ==> c !in decks[j].cards
    requires i < |decks| ==> c in decks[i].cards
    ensures FirstHolding(decks, c) == if i < |decks| then Some(i) else None
  {
    var k := FirstHolding(decks, c);
    if k.Some? {
      assert !(k.value < i) && !(i < k.value);
    }
  }

  /** `list.remove(c)`: drops the first occurrence of `c` and keeps the rest in order. */
  function RemoveFirst(s: seq<Card>, c: Card): (r: seq<Card>)
    requires c in s
    ensures r == s[..FirstIndex(s, c)] + s[FirstIndex(s, c) + 1..]
  {
    if s[0] == c then s[1..]
    else
      DropAfterHead(s, FirstIndex(s[1..], c));
      [s[0]] + RemoveFirst(s[1..], c)
  }

  /** Dropping position `k + 1` of `s` keeps the head and drops position `k` of the tail. */
  lemma DropAfterHead(s: seq<Card>, k: nat)
    requires k + 1 < |s|
    ensures s[..k + 1] + s[k + 2..] == [s[0]] + (s[1..][..k] + s[1..][k + 1..])
  {
    assert s[..k + 1] == [s[0]] + s[1..][..k];
    assert s[k + 2..] == s[1..][k + 1..];
  }

  /** Exactly one occurrence of `c` is gone. */
  lemma RemoveFirstCount(s: seq<Card>, c: Card)
    requires c in s
    ensures multiset(RemoveFirst(s, c)) == multiset(s) - multiset{c}
  {
    var k := FirstIndex(s, c);
    var before, after := s[..k], s[k + 1..];
    assert s == before + [c] + after;
    var rest := multiset(before) + multiset(after);
    assert multiset(RemoveFirst(s, c)) == rest;
    assert multiset(s) == rest + multiset{c};
    assert rest + multiset{c} - multiset{c} == rest;
  }

  predicate Distinct(s: seq<Card>) {
    forall i, j :: 0 <= i < j < |s| ==> s[i] != s[j]
  }

  /**
    The deck loop of `delete_card`: removes one occurrence of `card` from the
    first deck holding it and marks that deck modified. Every other deck
    keeps its cards and its flag.
  */
  method RemoveFromFirstHolding(decks: seq<Deck>, card: Card) returns (k: Option<nat>)
    modifies decks
    ensures k == old(FirstHolding(decks, card))
    ensures k.Some? ==>
      decks[k.value].cards == RemoveFirst(old(decks[k.value].cards), card) && decks[k.value].isModified
    ensures forall d :: d in decks && (k.None? || d != decks[k.value]) ==>
      d.cards == old(d.cards) && d.isModified == old(d.isModified)
  {
    var i := 0;
    while i < |decks| && card !in decks[i].cards
      invariant 0 <= i <= |decks|
      invariant forall j :: 0 <= j < i ==> card !in decks[j].cards
    {
      i := i + 1;
    }
    FirstHoldingAt(decks, card, i);
    if i < |decks| {
      var deck := decks[i];
      deck.cards := RemoveFirst(deck.cards, card);
      deck.isModified := true;
      k := Some(i);
    } else {
      k := None;
    }
  }

  /**
    The deck loop of `handle_card_update`: marks the first deck holding
    `card` modified. No card list changes, and every other deck keeps its flag.
  */
  method MarkFirstHolding(decks: seq<Deck>, card: Card) returns (k: Option<nat>)
    modifies decks
    ensures k == old(FirstHolding(decks, card))
    ensures forall d :: d in decks ==> d.cards == old(d.cards)
    ensures k.Some? ==> decks[k.value].isModified
    ensures forall d :: d in decks && (k.None? || d != decks[k.value]) ==> d.isModified == old(d.isModified)
  {
    var i := 0;
    while i < |decks| && card !in decks[i].cards
      invariant 0 <= i <= |decks|
      invariant forall j :: 0 <= j < i ==> card !in decks[j].cards
    {
      i := i + 1;
    }
    FirstHoldingAt(decks, card, i);
    if i < |decks| {
      decks[i].isModified := true;
      k := Some(i);
    } else {
      k := None;
    }
  }

  // ---------------------------------------------------------------------
  // Building the tag list and the index

  /** `sorted` of the set of all tags of the cards in `appDecks`. */
  method GenerateTagList(appDecks: seq<Deck>) returns (r: seq<string>)
    ensures StrictlySorted(r)
    ensures Elems(r) == DeckTags(appDecks)
    ensures forall t :: t in r <==> exists c :: Carries(appDecks, c, t)
  {
    var tags: set<string> := {};
    for i := 0 to |appDecks|
      invariant tags == DeckTags(appDecks[..i])
    {
      var cards := appDecks[i].cards;
      for j := 0 to |cards|
        invariant tags == DeckTags(appDecks[..i]) + CardTags(cards[..j])
      {
        assert cards[..j + 1][..j] == cards[..j];
        tags := tags + Elems(cards[j].tags);
      }
      assert appDecks[..i + 1][..i] == appDecks[..i];
      assert cards[..|cards|] == cards;
    }
    assert appDecks[..|appDecks|] == appDecks;
    r := [];
    var rest := tags;
    while rest != {}
      invariant StrictlySorted(r)
      invariant Elems(r) + rest == tags
      decreases rest
    {
      var t :| t in rest;
      r := Insert(r, t);
      rest := rest - {t};
    }
    forall t ensures t in r <==> exists c :: Carries(appDecks, c, t) {
      assert t in r <==> t in Elems(r);
      DeckTagsMembers(appDecks, t);
    }
  }

  /** The reverse index from each tag to the cards of `decks` that carry it. */
  method BuildTagIndex(decks: seq<Deck>) returns (index: TagIndex)
    ensures index == IndexDecks(decks)
    ensures IsTagIndexOf(index, decks)
  {
    index := map[];
    for i := 0 to |decks|
      invariant index == IndexDecks(decks[..i])
    {
      var cards := decks[i].cards;
      ghost var before := IndexDecks(decks[..i]);
      for j := 0 to |cards|
        invariant index == IndexCards(before, cards[..j])
      {
        var card := cards[j];
        ghost var start := IndexCards(before, cards[..j]);
        for k := 0 to |card.tags|
          invariant index == IndexTags(start, card, card.tags[..k])
        {
          var tag := card.tags[k];
          if tag !in index {
            index := index[tag := {}];
          }
          index := index[tag := index[tag] + {card}];
          assert card.tags[..k + 1][..k] == card.tags[..k];
        }
        assert card.tags[..|card.tags|] == card.tags;
        assert cards[..j + 1][..j] == cards[..j];
      }
      assert cards[..|cards|] == cards;
      assert decks[..i + 1][..i] == decks[..i];
    }
    assert decks[..|decks|] == decks;
    IndexDecksIsTagIndex(decks);
  }

  /**
    What the browser computes when it opens on `appDecks`: the index, the
    tag list, the tree rows and the first selection.
  */
  method OpenOn(appDecks: seq<Deck>) returns (index: TagIndex, tags: seq<string>, cards: seq<Card>, row: Option<nat>)
    ensures index == IndexDecks(appDecks)
    ensures StrictlySorted(tags) && Elems(tags) == DeckTags(appDecks) && Elems(tags) == index.Keys
    ensures cards == Flatten(appDecks)
    ensures row == if cards == [] then None else Some(0)
  {
    index := BuildTagIndex(appDecks);
    tags := GenerateTagList(appDecks);
    cards := FlattenCards(appDecks);
    row := Reselect(cards, None);
  }

  // ---------------------------------------------------------------------
  // The widget's state

  class Browser {
    var allDecks: seq<Deck>
    var currentDeckList: seq<Deck>
    var deckLookup: map<string, Deck>
    var tagToCards: TagIndex
    var tagList: seq<string>
    var filterCache: map<string, seq<Deck>>
    /** The cards in the rows of the card tree, top to bottom. */
    var rows: seq<Card>
    /** The tree's current item, as a row position. */
    var currentRow: Option<nat>

    ghost predicate Valid()
      reads this
    {
      && deckLookup == Lookup(allDecks)
      && (forall d :: d in currentDeckList ==> d in allDecks)
      && StrictlySorted(tagList)
      && Elems(tagList) == tagToCards.Keys
      && (currentRow.Some? ==> currentRow.value < |rows|)
    }

    /** The card of the tree's current item, if there is one. */
    function SelectedCard(): Option<Card>
      reads this
    {
      if currentRow.Some? && currentRow.value < |rows| then Some(rows[currentRow.value]) else None
    }

    /** Opens the browser on `appDecks`, showing every deck, with the first card selected. */
    constructor (appDecks: seq<Deck>)
      ensures Valid()
      ensures allDecks == appDecks && currentDeckList == appDecks
      ensures filterCache == map[]
      ensures tagToCards == IndexDecks(appDecks)
      ensures Elems(tagList) == DeckTags(appDecks)
      ensures rows == Flatten(appDecks)
      ensures currentRow == if rows == [] then None else Some(0)
    {
      var index, tags, cards, row := OpenOn(appDecks);
      allDecks := appDecks;
      currentDeckList := appDecks;
      deckLookup := Lookup(appDecks);
      filterCache := map[];
      tagToCards := index;
      tagList := tags;
      rows := cards;
      currentRow := row;
    }

    /** The cards under `tag` in the index, each once, in no particular order; none for an unknown tag. */
    method FilterCardsByTag(tag: string) returns (r: seq<Card>)
      ensures tag in tagToCards ==> (forall c :: c in r <==> c in tagToCards[tag]) && Distinct(r)
      ensures tag !in tagToCards ==> r == []
    {
      r := [];
      if tag in tagToCards {
        var rest := tagToCards[tag];
        while rest != {}
          invariant rest <= tagToCards[tag]
          invariant forall c :: c in r <==> c in tagToCards[tag] && c !in rest
          invariant Distinct(r)
          decreases rest
        {
          var c :| c in rest;
          r := r + [c];
          rest := rest - {c};
        }
      }
    }

    /**
      Refills the card tree with the cards of `deckList` and selects a row
      again by the selection rule.
    */
    method UpdateCardList(deckList: seq<Deck>)
      modifies this`rows, this`currentRow
      ensures old(Valid()) ==> Valid()
      ensures rows == Flatten(deckList)
      ensures currentRow == Reselection(rows, old(SelectedCard()))
    {
      var selected := SelectedCard();
      rows := FlattenCards(deckList);
      currentRow := Reselect(rows, selected);
    }

    /**
      Drops every cached filter named in `affected`, and the "all decks"
      entry; every other entry keeps its value.
    */
    method UpdateFilterCache(affected: set<string>)
      modifies this`filterCache
      ensures old(Valid()) ==> Valid()
      ensures filterCache.Keys == old(filterCache).Keys - affected - {AllDecks}
      ensures forall k :: k in filterCache ==> filterCache[k] == old(filterCache)[k]
    {
      var pending := filterCache.Keys;
      while pending != {}
        invariant pending <= old(filterCache).Keys
        invariant filterCache.Keys ==
          old(filterCache).Keys - ((old(filterCache).Keys - pending) * (affected + {AllDecks}))
        invariant forall k :: k in filterCache ==> filterCache[k] == old(filterCache)[k]
        decreases pending
      {
        var key :| key in pending;
        if key in affected || key == AllDecks {
          filterCache := filterCache - {key};
        }
        pending := pending - {key};
      }
    }

    /**
      Shows the decks named by the filter entry `text`: every deck for the
      two "all" entries; otherwise the deck of that name, or else the decks
      holding a card of that tag, or else nothing. Any entry except the two
      "all" ones is cached with its result.
    */
    method SelectFilter(text: string)
      requires Valid()
      modifies this`currentDeckList, this`filterCache, this`rows, this`currentRow
      ensures Valid()
      ensures text == AllDecks || text == AllTags ==>
        currentDeckList == allDecks && filterCache == old(filterCache)
      ensures text != AllDecks && text != AllTags && text in deckLookup ==>
        currentDeckList == [deckLookup[text]]
      ensures text != AllDecks && text != AllTags && text !in deckLookup && text in tagList ==>
        currentDeckList == FilterDecks(allDecks, tagToCards[text])
      ensures text != AllDecks && text != AllTags && text !in deckLookup && text !in tagList ==>
        currentDeckList == []
      ensures text != AllDecks && text != AllTags ==>
        filterCache == old(filterCache)[text := currentDeckList]
      ensures rows == Flatten(currentDeckList)
      ensures currentRow == Reselection(rows, old(SelectedCard()))
    {
      if text == AllDecks || text == AllTags {
        currentDeckList := allDecks;
      } else if text in deckLookup {
        LookupLastWins(allDecks);
        currentDeckList := [deckLookup[text]];
      } else if text in tagList {
        assert text in Elems(tagList);
        currentDeckList := FilterDecks(allDecks, tagToCards[text]);
      } else {
        currentDeckList := [];
      }
      if text != AllDecks && text != AllTags {
        filterCache := filterCache[text := currentDeckList];
      }
      UpdateCardList(currentDeckList);
    }

    /**
      Deletes the selected card: removes one occurrence of it from the first
      deck that holds it and marks that deck modified, drops the cached
      filters named by the card's tags, and refreshes the tree. With nothing
      selected, nothing changes.
    */
    method DeleteCard()
      requires Valid()
      modifies this`filterCache, this`rows, this`currentRow, allDecks
      ensures Valid()
      ensures old(SelectedCard()).None? ==>
        && filterCache == old(filterCache) && rows == old(rows) && currentRow == old(currentRow)
        && forall d :: d in allDecks ==> d.cards == old(d.cards) && d.isModified == old(d.isModified)
      ensures old(SelectedCard()).Some? ==>
        var c := old(SelectedCard()).value;
        var k := old(FirstHolding(allDecks, c));
        && (k.Some? ==>
              allDecks[k.value].cards == RemoveFirst(old(allDecks[k.value].cards), c) &&
              allDecks[k.value].isModified)
        && (forall d :: d in allDecks && (k.None? || d != allDecks[k.value]) ==>
              d.cards == old(d.cards) && d.isModified == old(d.isModified))
        && filterCache.Keys == old(filterCache).Keys - Elems(c.tags) - {AllDecks}
        && (forall key :: key in filterCache ==> filterCache[key] == old(filterCache)[key])
        && rows == Flatten(currentDeckList)
        && currentRow == Reselection(rows, Some(c))
    {
      var selected := SelectedCard();
      if selected.Some? {
        var card := selected.value;
        var _ := RemoveFromFirstHolding(allDecks, card);
        UpdateFilterCache(Elems(card.tags));
        UpdateCardList(currentDeckList);
      }
    }

    /**
      After card `updated` was edited: marks the first deck holding it
      modified, drops the cached filters named by the card's tags and by
      that deck's name, and refreshes the tree. No card list changes.
    */
    method HandleCardUpdate(updated: Card)
      requires Valid()
      modifies this`filterCache, this`rows, this`currentRow, allDecks
      ensures Valid()
      ensures var k := old(FirstHolding(allDecks, updated));
        && (forall d :: d in allDecks ==> d.cards == old(d.cards))
        && (k.Some? ==> allDecks[k.value].isModified)
        && (forall d :: d in allDecks && (k.None? || d != allDecks[k.value]) ==>
              d.isModified == old(d.isModified))
        && filterCache.Keys == old(filterCache).Keys -
             (Elems(updated.tags) + (if k.Some? then {allDecks[k.value].name} else {})) - {AllDecks}
        && (forall key :: key in filterCache ==> filterCache[key] == old(filterCache)[key])
      ensures rows == Flatten(currentDeckList)
      ensures currentRow == Reselection(rows, old(SelectedCard()))
    {
      var k := MarkFirstHolding(allDecks, updated);
      var affected := Elems(updated.tags) + if k.Some? then {allDecks[k.value].name} else {};
      UpdateFilterCache(affected);
      UpdateCardList(currentDeckList);
    }
  }
}
