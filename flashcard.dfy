/**
  A flashcard as the card browser sees it. The browser reads a card's
  identifier, its two faces and its tags, and never writes any of them, so
  they are constant fields. A card is an object: two cards are the same card
  only when they are the same reference, which is how Python's `in` and
  `list.remove` treat flashcards (the class defines no equality of its own).
*/
module Flashcards {

  class Card {
    const id: int
    const question: string
    const answer: string
    const tags: seq<string>

    constructor (id: int, question: string, answer: string, tags: seq<string>)
      ensures this.id == id && this.question == question
      ensures this.answer == answer && this.tags == tags
    {
      this.id := id;
      this.question := question;
      this.answer := answer;
      this.tags := tags;
    }
  }
}
