/**
  A deck: a named, ordered list of flashcards, and the flag the browser raises
  when it changes the deck so that saving knows to write it out. The card list
  and the flag are updated in place; the name is never reassigned.

  Equality compares the name and the card list (card by card, by identity);
  the ordering operators compare names only, and `>` and `>=` are defined as
  negations of `<=` and `<`.
*/
module Decks {
  import opened Flashcards
  import opened StringOrder

  class Deck {
    const name: string
    var cards: seq<Card>
    var isModified: bool

    constructor (name: string, cards: seq<Card>)
      ensures this.name == name && this.cards == cards && !isModified
    {
      this.name := name;
      this.cards := cards;
      isModified := false;
    }

    /** `self == other` */
    predicate Eq(other: Deck)
      reads this, other
    {
      name == other.name && cards == other.cards
    }

    /** `self != other` */
    predicate Ne(other: Deck)
      reads this, other
    {
      !Eq(other)
    }

    /** `self < other`: reads no mutable state, so it depends on the names alone. */
    predicate Lt(other: Deck) {
      Less(name, other.name)
    }

    /** `self <= other` */
    predicate Le(other: Deck) {
      LessEq(name, other.name)
    }

    /** `self > other`, which `Deck.__gt__` defines as the negation of `<=` */
    predicate Gt(other: Deck) {
      !Le(other)
    }

    /** `self >= other`, which `Deck.__ge__` defines as the negation of `<` */
    predicate Ge(other: Deck) {
      !Lt(other)
    }
  }

  /** Deck equality is an equivalence relation, and `!=` is its negation. */
  lemma EqIsEquivalence(a: Deck, b: Deck, c: Deck)
    ensures a.Eq(a)
    ensures a.Eq(b) ==> b.Eq(a)
    ensures a.Eq(b) && b.Eq(c) ==> a.Eq(c)
    ensures a.Ne(b) <==> !(a.name == b.name && a.cards == b.cards)
  {
  }

  /** The ordering operators look at names only: changing the cards changes none of them. */
  lemma OrderIgnoresCards(a: Deck, b: Deck, a': Deck, b': Deck)
    requires a.name == a'.name && b.name == b'.name
    ensures a.Lt(b) == a'.Lt(b') && a.Le(b) == a'.Le(b')
    ensures a.Gt(b) == a'.Gt(b') && a.Ge(b) == a'.Ge(b')
  {
  }

  /** `a > b` holds exactly when `b`'s name sorts before `a`'s, and `a >= b` when `b <= a`. */
  lemma GtIsConverseLt(a: Deck, b: Deck)
    ensures a.Gt(b) <==> b.Lt(a)
    ensures a.Ge(b) <==> b.Le(a)
  {
    LessTrichotomous(a.name, b.name);
  }

  /** For any two decks exactly one of `a < b`, `a > b`, "same name" holds. */
  lemma OrderTrichotomy(a: Deck, b: Deck)
    ensures a.Lt(b) || a.Gt(b) || a.name == b.name
    ensures !(a.Lt(b) && a.Gt(b))
    ensures a.name == b.name ==> !a.Lt(b) && !a.Gt(b)
  {
    LessTrichotomous(a.name, b.name);
  }

  /** `<` on decks is a strict order. */
  lemma LtIsStrictOrder(a: Deck, b: Deck, c: Deck)
    ensures !a.Lt(a)
    ensures a.Lt(b) && b.Lt(c) ==> a.Lt(c)
  {
    LessIrreflexive(a.name);
    if a.Lt(b) && b.Lt(c) {
      LessTransitive(a.name, b.name, c.name);
    }
  }

  /**
    Two decks with one name and different cards are not ordered either way,
    yet they are not equal: the ordering is not consistent with `==`.
  */
  lemma SameNameUnorderedButUnequal(a: Deck, b: Deck)
    requires a.name == b.name && a.cards != b.cards
    ensures !a.Lt(b) && !a.Gt(b) && a.Le(b) && a.Ge(b)
    ensures !a.Eq(b) && a.Ne(b)
  {
    LessIrreflexive(a.name);
  }
}
