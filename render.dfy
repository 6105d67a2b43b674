/**
 * The HTML fragments of the page: one card per animal (create_animal_card), the
 * "Animal Not Found" card (create_error_message) and their assembly (generate_html_content).
 * Values are interpolated verbatim, without HTML escaping, as in the source.
 */
module Render {
  import opened Wrappers
  import opened PyStr
  import opened Records

  // Line breaks followed by the indentation the source's triple-quoted f-strings carry.
  const Nl4 := "\n    "
  const Nl8 := "\n        "
  const Nl12 := "\n            "
  const Nl16 := "\n                "
  const Nl20 := "\n                    "

  const CloseDiv := "</div>"
  const NotFoundTitle := "Animal Not Found"

  /** Everything before a card's title. */
  const CardOpen := Nl8 + "<li class=\"cards__item\">" + Nl12 + "<div class=\"card__content\">"
                    + Nl16 + "<div class=\"card__title\">"
  /** From the end of the title to the start of the text's first line. */
  const TextOpen := CloseDiv + Nl16 + "<p class=\"card__text\">" + Nl20
  /** Everything after the last interpolated value. */
  const CardClose := Nl16 + "</p>" + Nl12 + "</div>" + Nl8 + "</li>" + Nl4

  /** The literal pieces of the card's f-string; the six values go between them. */
  const CardPieces: seq<string> := [
    CardOpen,
    TextOpen + "<strong>Scientific Name:</strong> ",
    "<br>" + Nl20 + "<strong>Family:</strong> ",
    "<br>" + Nl20 + "<strong>Diet:</strong> ",
    "<br>" + Nl20 + "<strong>Habitat:</strong> ",
    "<br>" + Nl20 + "<strong>Distribution:</strong><br> ",
    CardClose]

  /** The error card up to the search term. */
  const ErrorHead := CardOpen + NotFoundTitle + ErrorNote
  /** The error card's text up to the search term, which it opens with a double quote. */
  const ErrorNote := TextOpen + "<strong>Note:</strong> The animal " + "\""
  /** The error card after the search term. */
  const ErrorTail := "\"" + " could not be found in the database.<br>" + Nl20 + "Please try another animal name"
                     + " (e.g., \"Lion\", \"Elephant\", \"Penguin\")." + CardClose

  /** The values a card shows, in order: name, scientific name, family, diet, habitat, locations. */
  function CardValues(a: AnimalRecord): (vs: seq<string>)
    ensures |vs| + 1 == |CardPieces|
  {
    [Extract(a, Name), Extract(a, ScientificName), Extract(a, Family), Extract(a, Diet),
     Extract(a, Habitat), LocationsHtml(a)]
  }

  /** create_animal_card: the card's f-string with the record's values interpolated. */
  function Card(a: AnimalRecord): string
  {
    Interpolate(CardPieces, CardValues(a))
  }

  /** Every card opens with the list item and title markup and closes the list item. */
  lemma CardFrame(a: AnimalRecord)
    ensures var r := Card(a);
            && |CardOpen| <= |r| && r[..|CardOpen|] == CardOpen
            && |CardClose| <= |r| && r[|r| - |CardClose|..] == CardClose
  {
    InterpolateFrame(CardPieces, CardValues(a));
  }

  /** Each value sits verbatim between its label piece and the next piece of the skeleton. */
  lemma CardValueInPlace(a: AnimalRecord, k: nat)
    requires k < 6
    ensures var vs := CardValues(a);
            var before := Interpolate(CardPieces[..k + 1], vs[..k]);
            var after := Interpolate(CardPieces[k + 1..], vs[k + 1..]);
            && Card(a) == before + vs[k] + after
            && |CardPieces[k]| <= |before| && before[|before| - |CardPieces[k]|..] == CardPieces[k]
            && |CardPieces[k + 1]| <= |after| && after[..|CardPieces[k + 1]|] == CardPieces[k + 1]
  {
    InterpolateBetween(CardPieces, CardValues(a), k);
  }

  /** The title of a card: the text between the card's opening and the first `</div>`. */
  function Title(html: string): Option<string>
  {
    if |CardOpen| <= |html| && html[..|CardOpen|] == CardOpen
    then Some(Split(html[|CardOpen|..], CloseDiv)[0])
    else None
  }

  /** `</div>` ends with a character found nowhere else in it. */
  lemma CloseDivLastCharUnique()
    ensures forall j :: 0 <= j < |CloseDiv| - 1 ==> CloseDiv[j] != CloseDiv[|CloseDiv| - 1]
  {
  }

  /** The literal after the title starts with `</div>`. */
  lemma TitleCloses()
    ensures |CloseDiv| <= |CardPieces[1]| && CardPieces[1][..|CloseDiv|] == CloseDiv
  {
  }

  /** A card is its opening, the name, then text starting with `</div>`. */
  lemma CardAroundName(a: AnimalRecord)
    ensures var vs := CardValues(a);
            var after := CardPieces[1] + vs[1] + Interpolate(CardPieces[2..], vs[2..]);
            && Card(a) == CardOpen + Extract(a, Name) + after
            && |CloseDiv| <= |after| && after[..|CloseDiv|] == CloseDiv
  {
    var vs := CardValues(a);
    InterpolateFirstTwo(CardPieces, vs);
    TitleCloses();
  }

  /** The title of text that opens like a card: what precedes the first `</div>` after the opening. */
  lemma TitleOfOpened(name: string, after: string)
    ensures Title(CardOpen + name + after) == Some(Split(name + after, CloseDiv)[0])
  {
    var html := CardOpen + name + after;
    assert html[..|CardOpen|] == CardOpen;
    assert html[|CardOpen|..] == name + after;
  }

  /** The title of a card whose name is `name`, if the name holds no `</div>`. */
  lemma TitleAfterOpen(name: string, after: string)
    requires !Contains(name, CloseDiv) && |CloseDiv| <= |after| && after[..|CloseDiv|] == CloseDiv
    ensures Title(CardOpen + name + after) == Some(name)
  {
    TitleOfOpened(name, after);
    CloseDivLastCharUnique();
    SplitBeforeSeparator(name, CloseDiv, after);
  }

  /** A card's title reads back as the record's name (or "Unknown") unless the name itself
      holds `</div>`. */
  lemma CardTitle(a: AnimalRecord)
    requires !Contains(Extract(a, Name), CloseDiv)
    ensures Title(Card(a)) == Some(Extract(a, Name))
  {
    CardAroundName(a);
    var vs := CardValues(a);
    TitleAfterOpen(Extract(a, Name), CardPieces[1] + vs[1] + Interpolate(CardPieces[2..], vs[2..]));
  }

  /** The name is not escaped: a name holding `</div>` has its title cut at the first one. */
  lemma CardTitleUnescaped(a: AnimalRecord, x: string, y: string)
    requires Extract(a, Name) == x + CloseDiv + y && !Contains(x, CloseDiv)
    ensures Title(Card(a)) == Some(x)
  {
    CardAroundName(a);
    var vs := CardValues(a);
    var after := CardPieces[1] + vs[1] + Interpolate(CardPieces[2..], vs[2..]);
    TitleOfOpened(Extract(a, Name), after);
    ConcatRegroup(x, CloseDiv, y, after);
    CloseDivLastCharUnique();
    SplitBeforeSeparator(x, CloseDiv, CloseDiv + y + after);
  }

  /** create_error_message: the not-found card with the search term quoted in its note. */
  function ErrorMessage(searchTerm: string): (r: string)
    ensures |r| == |ErrorHead| + |searchTerm| + |ErrorTail|
    ensures r[|ErrorHead| - 1..|ErrorHead| + |searchTerm| + 1] == "\"" + searchTerm + "\""
  {
    assert ErrorHead[|ErrorHead| - 1] == '"' && ErrorTail[0] == '"';
    ErrorHead + searchTerm + ErrorTail
  }

  /** The error card's title is exactly "Animal Not Found", whatever was searched for. */
  lemma ErrorTitle(searchTerm: string)
    ensures Title(ErrorMessage(searchTerm)) == Some(NotFoundTitle)
  {
    var after := ErrorNote + searchTerm + ErrorTail;
    ConcatRegroup(CardOpen + NotFoundTitle, ErrorNote, searchTerm, ErrorTail);
    assert ErrorNote[..|CloseDiv|] == CloseDiv;
    assert after[..|CloseDiv|] == CloseDiv;
    MissingCharAvoids(NotFoundTitle, CloseDiv, 0);
    TitleAfterOpen(NotFoundTitle, after);
  }

  /** Reads the search term back out of an error card. */
  function SearchTermOf(html: string): Option<string>
  {
    if |ErrorHead| + |ErrorTail| <= |html| && html[..|ErrorHead|] == ErrorHead
       && html[|html| - |ErrorTail|..] == ErrorTail
    then Some(html[|ErrorHead|..|html| - |ErrorTail|])
    else None
  }

  /** The error card keeps the search term verbatim and recoverably: distinct terms give
      distinct cards. */
  lemma ErrorMessageRoundTrip(searchTerm: string)
    ensures SearchTermOf(ErrorMessage(searchTerm)) == Some(searchTerm)
  {
    var r := ErrorMessage(searchTerm);
    assert r[..|ErrorHead|] == ErrorHead;
    assert r[|r| - |ErrorTail|..] == ErrorTail;
    assert r[|ErrorHead|..|r| - |ErrorTail|] == searchTerm;
  }

  /** The cards of the records, in order. */
  function CardsOf(animals: seq<AnimalRecord>): (cards: seq<string>)
    ensures |cards| == |animals|
    ensures forall i :: 0 <= i < |animals| ==> cards[i] == Card(animals[i])
  {
    seq(|animals|, i requires 0 <= i < |animals| => Card(animals[i]))
  }

  /** `''.join(create_animal_card(animal) for animal in animals)`. */
  function Cards(animals: seq<AnimalRecord>): string
  {
    Join([], CardsOf(animals))
  }

  /** The cards of two lists, one after the other, are the cards of the joined list:
      no separator, nothing reordered. */
  lemma CardsConcat(xs: seq<AnimalRecord>, ys: seq<AnimalRecord>)
    ensures Cards(xs + ys) == Cards(xs) + Cards(ys)
  {
    assert CardsOf(xs + ys) == CardsOf(xs) + CardsOf(ys);
    ConcatAllConcat(CardsOf(xs), CardsOf(ys));
  }

  /** generate_html_content: the error card when nothing was found, the cards otherwise. */
  function GenerateHtmlContent(animals: seq<AnimalRecord>, searchTerm: string): (r: string)
    ensures animals == [] ==> r == ErrorMessage(searchTerm)
    ensures animals != [] ==> r == Cards(animals)
  {
    if |animals| == 0 then ErrorMessage(searchTerm) else Cards(animals)
  }

  /** One record gives exactly its card. */
  lemma ContentSingle(a: AnimalRecord, searchTerm: string)
    ensures GenerateHtmlContent([a], searchTerm) == Card(a)
  {
    assert CardsOf([a]) == [Card(a)];
  }

  /** With results, record `i`'s card comes after the cards of the records before it and before
      the cards of the records after it; the search term plays no part. */
  lemma ContentInOrder(animals: seq<AnimalRecord>, i: nat, searchTerm: string, otherTerm: string)
    requires i < |animals|
    ensures GenerateHtmlContent(animals, searchTerm)
         == Cards(animals[..i]) + Card(animals[i]) + Cards(animals[i + 1..])
    ensures GenerateHtmlContent(animals, searchTerm) == GenerateHtmlContent(animals, otherTerm)
  {
    var cards := CardsOf(animals);
    ConcatAllAt(cards, i);
    CardsOfAround(animals, i);
    assert Cards(animals) == Join([], cards);
  }

  /** The cards before and after record `i` are the cards of the records before and after it. */
  lemma CardsOfAround(animals: seq<AnimalRecord>, i: nat)
    requires i < |animals|
    ensures CardsOf(animals)[..i] == CardsOf(animals[..i])
    ensures CardsOf(animals)[i + 1..] == CardsOf(animals[i + 1..])
  {
  }

  /** Content for several results splits into the content for any non-empty front part and
      the content for the rest. */
  lemma ContentConcat(xs: seq<AnimalRecord>, ys: seq<AnimalRecord>, searchTerm: string)
    requires xs != [] && ys != []
    ensures GenerateHtmlContent(xs + ys, searchTerm)
         == GenerateHtmlContent(xs, searchTerm) + GenerateHtmlContent(ys, searchTerm)
  {
    CardsConcat(xs, ys);
  }

  /** The record of a lion with only a scientific name and one location: every missing
      value becomes "Not available" on its own, the present ones are kept. */
  lemma LionCard()
    ensures var lion := AnimalRecord(Some("Lion"), Some(Taxonomy(Some("Panthera leo"), None)), None, Some(["Africa"]));
            CardValues(lion) == ["Lion", "Panthera leo", NotAvailable, NotAvailable, NotAvailable, "Africa"]
  {
  }
}
