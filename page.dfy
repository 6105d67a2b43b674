/**
 * The part of `main` after the prompt: the two early exits (a blank animal name, a missing or
 * empty template), the fetch, and filling the template's marker with the generated content.
 * Reading the template file, the fetch itself and writing the output file are parameters and
 * results here.
 */
module Page {
  import opened Wrappers
  import opened PyStr
  import opened Records
  import opened Render

  /** The placeholder the template carries where the cards go. */
  const Marker := "__REPLACE_ANIMALS_INFO__"

  /** `template.replace('__REPLACE_ANIMALS_INFO__', content)`. */
  function FillTemplate(template: string, content: string): string
  {
    ReplaceAll(template, Marker, content)
  }

  /** How one run ends. */
  datatype Outcome =
    | BlankName               // only whitespace was typed: stop before the template is read
    | MissingTemplate         // the template is absent or empty: stop before anything is fetched
    | Written(html: string)   // the page written to the output file

  /** One run of `main` on the typed `input`, the template file's contents (None when the file
      does not exist) and the data fetcher, which is asked for the stripped name. */
  function Run(input: string, template: Option<string>, fetch: string -> seq<AnimalRecord>): (o: Outcome)
    ensures o.BlankName? <==> forall i :: 0 <= i < |input| ==> IsSpace(input[i])
    ensures o.MissingTemplate? <==> Strip(input) != [] && (template == None || template == Some([]))
    ensures o.Written? ==>
      && template.Some? && template.value != []
      && o.html == FillTemplate(template.value, GenerateHtmlContent(fetch(Strip(input)), Strip(input)))
  {
    var animalName := Strip(input);
    if animalName == [] then BlankName
    else if template.None? || template.value == [] then MissingTemplate
    else
      var animals := fetch(animalName);
      Written(FillTemplate(template.value, GenerateHtmlContent(animals, animalName)))
  }

  /** Whitespace around the typed name changes nothing: a run on the stripped input ends as the
      run on the raw input does. */
  lemma RunOnStripped(input: string, template: Option<string>, fetch: string -> seq<AnimalRecord>)
    ensures Run(Strip(input), template, fetch) == Run(input, template, fetch)
  {
    StripIdempotent(input);
  }

  /** The template holds the marker exactly once, at `k`. */
  ghost predicate SingleMarkerAt(template: string, k: int)
  {
    OccursAt(template, Marker, k) && forall i :: OccursAt(template, Marker, i) ==> i == k
  }

  /** A template without the marker is written out unchanged. */
  lemma FillWithoutMarker(template: string, content: string)
    requires !Contains(template, Marker)
    ensures FillTemplate(template, content) == template
  {
    ReplaceAllWithoutPattern(template, Marker, content);
  }

  /** With the marker exactly once in the template, the content takes its place and the rest
      of the template is kept. */
  lemma FillSingleMarker(template: string, content: string, k: nat)
    requires SingleMarkerAt(template, k)
    ensures FillTemplate(template, content) == template[..k] + content + template[k + |Marker|..]
  {
    ReplaceAllSingle(template, Marker, content, k);
  }

  /** Every occurrence is replaced, not only the first: a template with the marker twice
      gets the content twice. */
  lemma FillEveryMarker(before: string, between: string, after: string, content: string)
    requires !Contains(before, Marker) && !Contains(between, Marker) && !Contains(after, Marker)
    requires |before| == 0 || before[|before| - 1] !in Marker
    requires |between| == 0 || between[|between| - 1] !in Marker
    ensures FillTemplate(before + Marker + between + Marker + after, content)
         == before + content + between + content + after
  {
    ReplaceAllTwice(before, Marker, between, after, content);
  }

  /** The template of FillCanRecreateMarker: the front of the marker, then the marker. */
  const SplitMarkerTemplate := "__REPLACE_ANIMALS" + Marker

  /** That template holds the marker once only: the marker's `O` is at index 21 and the template's
      only `O` is at index 38. */
  lemma SplitMarkerTemplateHasOneMarker()
    ensures SingleMarkerAt(SplitMarkerTemplate, 17)
  {
    var t := SplitMarkerTemplate;
    assert t[17..17 + |Marker|] == Marker;
    forall i | OccursAt(t, Marker, i) ensures i == 17 {
      assert t[i..i + |Marker|][21] == t[i + 21] == 'O';
    }
  }

  /** `str.replace` does not look at the text it inserts: a template with the marker exactly
      once can still yield a page holding the marker, even though the content lacks it. */
  lemma FillCanRecreateMarker()
    ensures SingleMarkerAt(SplitMarkerTemplate, 17)
    ensures !Contains("_INFO__", Marker)
    ensures FillTemplate(SplitMarkerTemplate, "_INFO__") == Marker
  {
    SplitMarkerTemplateHasOneMarker();
    MissingCharAvoids("_INFO__", Marker, 2);
    FillSingleMarker(SplitMarkerTemplate, "_INFO__", 17);
    assert SplitMarkerTemplate[..17] + "_INFO__" == Marker;
  }

  /** A piece of fixed markup that can sit next to anything without forming the marker. */
  predicate Guarded(p: string)
  {
    !Contains(p, Marker) && |p| > 0 && p[0] !in Marker && p[|p| - 1] !in Marker
  }

  /** Markup without an `R` and with outer characters outside the marker is guarded. */
  lemma GuardedByMissingR(p: string)
    requires 'R' !in p && |p| > 0 && p[0] in "\n<\"" && p[|p| - 1] in " >\""
    ensures Guarded(p)
  {
    SeamsOutsideMarker();
    MissingCharAvoids(p, Marker, 2);
  }

  /** The characters at the ends of the fixed markup are not in the marker. */
  lemma SeamsOutsideMarker()
    ensures forall c :: c in "\n<\" >" ==> c !in Marker
  {
  }

  // The marker's third character is an `R`, which no fixed markup of the page holds; each
  // literal is checked on its own.

  lemma IndentHasNoR()
    ensures 'R' !in Nl4 && 'R' !in Nl8 && 'R' !in Nl12 && 'R' !in Nl16 && 'R' !in Nl20
  {
  }

  lemma ItemHasNoR()
    ensures 'R' !in "<li class=\"cards__item\">" && 'R' !in "</li>"
  {
  }

  lemma ContentDivHasNoR()
    ensures 'R' !in "<div class=\"card__content\">" && 'R' !in CloseDiv
  {
  }

  lemma TitleDivHasNoR()
    ensures 'R' !in "<div class=\"card__title\">"
  {
  }

  lemma TextHasNoR()
    ensures 'R' !in "<p class=\"card__text\">" && 'R' !in "</p>"
  {
  }

  lemma CardMarkupHasNoR()
    ensures 'R' !in CardOpen && 'R' !in TextOpen && 'R' !in CardClose
  {
    IndentHasNoR();
    ItemHasNoR();
    ContentDivHasNoR();
    TitleDivHasNoR();
    TextHasNoR();
  }

  lemma NoteHasNoR()
    ensures 'R' !in "<strong>Note:</strong> The animal " && 'R' !in NotFoundTitle
  {
  }

  lemma NotFoundHasNoR()
    ensures 'R' !in " could not be found in the database.<br>"
  {
  }

  lemma SuggestionHasNoR()
    ensures 'R' !in "Please try another animal name"
  {
  }

  lemma ExamplesHaveNoR()
    ensures 'R' !in " (e.g., \"Lion\", \"Elephant\", \"Penguin\")."
  {
  }

  lemma ErrorMarkupHasNoR()
    ensures 'R' !in ErrorHead && 'R' !in ErrorTail
  {
    CardMarkupHasNoR();
    IndentHasNoR();
    NoteHasNoR();
    NotFoundHasNoR();
    SuggestionHasNoR();
    ExamplesHaveNoR();
  }

  lemma ScientificNameCaptionHasNoR()
    ensures 'R' !in "<strong>Scientific Name:</strong> " && 'R' !in "<br>"
  {
  }

  lemma FamilyDietCaptionsHaveNoR()
    ensures 'R' !in "<strong>Family:</strong> " && 'R' !in "<strong>Diet:</strong> "
  {
  }

  lemma HabitatCaptionHasNoR()
    ensures 'R' !in "<strong>Habitat:</strong> "
  {
  }

  lemma DistributionCaptionHasNoR()
    ensures 'R' !in "<strong>Distribution:</strong><br> "
  {
  }

  /** Every literal piece of the card is guarded. */
  lemma CardPiecesGuarded()
    ensures forall i :: 0 <= i < |CardPieces| ==> Guarded(CardPieces[i])
  {
    CardMarkupHasNoR();
    IndentHasNoR();
    ScientificNameCaptionHasNoR();
    FamilyDietCaptionsHaveNoR();
    HabitatCaptionHasNoR();
    DistributionCaptionHasNoR();
    GuardedByMissingR(CardOpen);
    CaptionGuarded(TextOpen, "<strong>Scientific Name:</strong> ");
    CaptionGuarded("<br>" + Nl20, "<strong>Family:</strong> ");
    CaptionGuarded("<br>" + Nl20, "<strong>Diet:</strong> ");
    CaptionGuarded("<br>" + Nl20, "<strong>Habitat:</strong> ");
    CaptionGuarded("<br>" + Nl20, "<strong>Distribution:</strong><br> ");
    GuardedByMissingR(CardClose);
  }

  /** A caption piece: the markup ending the previous value, then the caption. */
  lemma CaptionGuarded(lead: string, caption: string)
    requires 'R' !in lead && |lead| > 0 && lead[0] in "<\n" && 'R' !in caption
    requires |caption| > 0 && caption[|caption| - 1] == ' '
    ensures Guarded(lead + caption)
  {
    GuardedByMissingR(lead + caption);
  }

  /** Neither placeholder holds the marker. */
  lemma PlaceholdersAvoidMarker()
    ensures !Contains(Unknown, Marker) && !Contains(NotAvailable, Marker)
  {
    MissingCharAvoids(Unknown, Marker, 2);
    MissingCharAvoids(NotAvailable, Marker, 2);
  }

  /** The joined locations lack the marker when each location does. */
  lemma LocationsAvoidMarker(a: AnimalRecord)
    requires ValuesAvoid(a, Marker)
    ensures !Contains(LocationsHtml(a), Marker)
  {
    PlaceholdersAvoidMarker();
    if a.locations.Some? && a.locations.value != [] {
      GuardedByMissingR(LocationSeparator);
      JoinAvoids(LocationSeparator, a.locations.value, Marker);
    }
  }

  /** The values shown on a card lack the marker when the record's values do: the placeholders
      and the location separator never form it. */
  lemma CardValuesAvoidMarker(a: AnimalRecord)
    requires ValuesAvoid(a, Marker)
    ensures forall i :: 0 <= i < |CardValues(a)| ==> !Contains(CardValues(a)[i], Marker)
  {
    PlaceholdersAvoidMarker();
    LocationsAvoidMarker(a);
    forall f ensures !Contains(Extract(a, f), Marker) {
    }
  }

  /** A card lacks the marker when the record's values do. */
  lemma CardAvoidsMarker(a: AnimalRecord)
    requires ValuesAvoid(a, Marker)
    ensures Guarded(Card(a))
  {
    CardPiecesGuarded();
    CardValuesAvoidMarker(a);
    InterpolateAvoids(CardPieces, CardValues(a), Marker);
    CardEnds(a);
    SeamsOutsideMarker();
  }

  /** A card starts with a line break and ends with a space of the indentation. */
  lemma CardEnds(a: AnimalRecord)
    ensures |Card(a)| > 0 && Card(a)[0] == '\n' && Card(a)[|Card(a)| - 1] == ' '
  {
    CardFrame(a);
    assert Card(a)[0] == CardOpen[0];
    assert Card(a)[|Card(a)| - 1] == CardClose[|CardClose| - 1];
  }

  /** The error card lacks the marker when the search term does. */
  lemma ErrorMessageAvoidsMarker(searchTerm: string)
    requires !Contains(searchTerm, Marker)
    ensures Guarded(ErrorMessage(searchTerm))
  {
    ErrorMarkupHasNoR();
    GuardedByMissingR(ErrorHead);
    GuardedByMissingR(ErrorTail);
    ConcatAvoids(ErrorHead, searchTerm, Marker);
    ConcatAvoids(ErrorHead + searchTerm, ErrorTail, Marker);
  }

  /** The cards of records whose values lack the marker lack it too. */
  lemma CardsAvoidMarker(animals: seq<AnimalRecord>)
    requires |animals| > 0 && forall a :: a in animals ==> ValuesAvoid(a, Marker)
    ensures Guarded(Cards(animals))
  {
    var cards := CardsOf(animals);
    forall i | 0 <= i < |cards| ensures Guarded(cards[i]) {
      CardAvoidsMarker(animals[i]);
    }
    ConcatAllAvoids(cards, Marker);
    JoinStartsWithFirst([], cards);
    JoinEndsWithLast([], cards);
    var content, last := Join([], cards), cards[|cards| - 1];
    assert content[0] == cards[0][0];
    assert content[|content| - 1] == last[|last| - 1];
  }

  /** The generated content lacks the marker when the fetched values do (or, with nothing
      found, the search term does), and it starts and ends with markup outside the marker. */
  lemma ContentAvoidsMarker(animals: seq<AnimalRecord>, searchTerm: string)
    requires forall a :: a in animals ==> ValuesAvoid(a, Marker)
    requires animals == [] ==> !Contains(searchTerm, Marker)
    ensures Guarded(GenerateHtmlContent(animals, searchTerm))
  {
    if animals == [] {
      ErrorMessageAvoidsMarker(searchTerm);
    } else {
      CardsAvoidMarker(animals);
    }
  }

  /** Filling a single-marker template with content that lacks the marker and begins and ends
      outside it leaves no marker in the page. */
  lemma FillLeavesNoMarker(template: string, content: string, k: nat)
    requires SingleMarkerAt(template, k) && Guarded(content)
    ensures !Contains(FillTemplate(template, content), Marker)
  {
    ReplaceSingleAvoids(template, Marker, content, k);
  }

  /** When no record is found, a page is still written: the template with the error card for
      the stripped name in place of its marker. */
  lemma RunNothingFound(input: string, template: string, fetch: string -> seq<AnimalRecord>, k: nat)
    requires Strip(input) != [] && fetch(Strip(input)) == [] && SingleMarkerAt(template, k)
    ensures Run(input, Some(template), fetch)
         == Written(template[..k] + ErrorMessage(Strip(input)) + template[k + |Marker|..])
  {
    FillSingleMarker(template, ErrorMessage(Strip(input)), k);
  }

  /** For a template holding the marker once, the written page is the template with the
      generated content in the marker's place, and no marker is left, provided no fetched value
      (nor the name, when nothing is found) contains the marker. */
  lemma RunPageHasNoMarker(input: string, template: string, fetch: string -> seq<AnimalRecord>, k: nat)
    requires Strip(input) != [] && SingleMarkerAt(template, k)
    requires forall a :: a in fetch(Strip(input)) ==> ValuesAvoid(a, Marker)
    requires fetch(Strip(input)) == [] ==> !Contains(Strip(input), Marker)
    ensures var content := GenerateHtmlContent(fetch(Strip(input)), Strip(input));
            && Run(input, Some(template), fetch)
               == Written(template[..k] + content + template[k + |Marker|..])
            && !Contains(Run(input, Some(template), fetch).html, Marker)
  {
    var content := GenerateHtmlContent(fetch(Strip(input)), Strip(input));
    FillSingleMarker(template, content, k);
    ContentAvoidsMarker(fetch(Strip(input)), Strip(input));
    FillLeavesNoMarker(template, content, k);
  }
}
