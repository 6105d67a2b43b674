# Zootopia animal page generator — Dafny model

`animals_web_generator.py` asks for an animal name and strips the surrounding whitespace. It
reads an HTML template and fetches the matching animal records from the API Ninjas service.
It then writes a page: the template's `__REPLACE_ANIMALS_INFO__` marker is replaced with one
HTML card per animal, or with an "Animal Not Found" card when nothing matched.

This project models the string-building core of that program as pure Dafny functions and
proves properties about them:

- `Wrappers`: `Option` and `dict.get`-style defaulting.
- `PyStr`: the Python string operations the program calls, each as its own function:
  - `sep.join(xs)` (`'<br>'.join` and `''.join`);
  - f-string interpolation of values between literal pieces;
  - `s.strip()`, with the whitespace set of `str.isspace`;
  - `s.replace(old, new)`, which replaces every non-overlapping occurrence from left to right
    and never rescans the inserted text.

  Beside these, `Find` (leftmost occurrence, as `s.find`), `Split` (as `s.split(sep)`) and
  `Contains` (as `pat in s`) are reference definitions. The program does not call them: they
  state what `replace` does (`replace` is `join` of `split`) and what the marker lemmas need.
- `Records`: an animal record with optional keys, and the null-safe extraction of the six
  values a card shows. Each value falls back to its placeholder.
- `Render`: `create_animal_card`, `create_error_message` and `generate_html_content`. The
  card skeleton is the source's literal text, its indentation included.
- `Page`: the part of `main` from the stripped input to the filled template. `Run` takes:
  - the typed line;
  - the template file's contents, `None` when the file is missing;
  - the fetcher, as a function.

  It returns how the run ends: a blank name, a missing or empty template, or the page that
  is written.

## Model

| member | source | states |
|---|---|---|
| Records.Extract | animals_web_generator.py:40-50 | each shown value is the record's value when its whole key path is present. Otherwise it is its own placeholder ("Unknown" for the name, "Not available" for the rest), whatever the other fields hold |
| Records.LocationsHtml | animals_web_generator.py:53-54 | an absent or empty `locations` gives "Not available"; one entry gives that entry; several give the entries in order with `<br>` between neighbours |
| Records.LocationsSeparators | animals_web_generator.py:53-54 | k > 0 locations give their characters plus exactly k - 1 separators |
| PyStr.JoinLength | animals_web_generator.py:54 | a join of k > 0 entries has the entries' total length plus k - 1 separators |
| PyStr.InterpolateAt | animals_web_generator.py:56-69 | in an f-string, value k sits verbatim between the rendering of everything before it and of everything after it |
| PyStr.InterpolateBetween | animals_web_generator.py:56-69 | value k is immediately preceded by the whole of literal piece k and followed by the whole of literal piece k + 1 |
| PyStr.InterpolateFrame | animals_web_generator.py:56-69 | an f-string begins with its first literal piece and ends with its last |
| Render.CardFrame | animals_web_generator.py:56-69 | every card opens with the list-item and title markup and closes with `</p>`, `</div>`, `</li>` |
| Render.CardValueInPlace | animals_web_generator.py:56-69 | each of the six values appears verbatim (unescaped) between its caption and the next piece of the fixed skeleton |
| Render.CardTitle | animals_web_generator.py:59 | the card's title reads back as the record's name, or "Unknown" when absent, provided the name holds no `</div>` |
| Render.CardTitleUnescaped | animals_web_generator.py:59 | names are not escaped: a name holding `</div>` has its title cut at the first one |
| Render.LionCard | animals_web_generator.py:40-54 | a lion with only a scientific name and one location shows those two and the name, with "Not available" for each missing value on its own |
| Render.ErrorMessage | animals_web_generator.py:81-91 | the error card is the fixed head, the search term and the fixed tail; the term sits between double quotes |
| Render.ErrorTitle | animals_web_generator.py:84 | the error card's title is exactly "Animal Not Found", whatever the search term |
| Render.ErrorMessageRoundTrip | animals_web_generator.py:81-91 | the search term can be read back out of the error card, so distinct terms give distinct cards |
| Render.CardsConcat | animals_web_generator.py:106 | the cards of a concatenated list are the cards of each part, one after the other, with no separator |
| Render.GenerateHtmlContent | animals_web_generator.py:104-106 | no records give the error card for the search term; otherwise the content is the cards |
| Render.ContentSingle | animals_web_generator.py:106 | one record gives exactly its card |
| Render.ContentInOrder | animals_web_generator.py:106 | with results, record i's card follows the cards of the records before it and precedes those after it, and the search term plays no part |
| Render.ContentConcat | animals_web_generator.py:106 | for non-empty a and b, the content of a ++ b is the content of a followed by the content of b |
| PyStr.Strip | animals_web_generator.py:144 | `strip()` returns a substring with only whitespace around it, whose ends are not whitespace; it is empty exactly when the input is all whitespace |
| PyStr.StripIdempotent | animals_web_generator.py:144 | stripping the stripped name changes nothing |
| Page.Run | animals_web_generator.py:144-164 | a run stops with a blank name exactly when the input is all whitespace. It stops with a missing template exactly when the name is not blank and the template is `None` or empty. Otherwise it writes the template filled with the content generated from the records fetched for the stripped name |
| Page.RunOnStripped | animals_web_generator.py:144 | surrounding whitespace in the typed name changes nothing about the run |
| PyStr.FindSound | animals_web_generator.py:164 | the search reports the leftmost occurrence at or after its start, and reports nothing only when there is no occurrence there |
| PyStr.SplitJoin | animals_web_generator.py:164 | joining the pieces of a split with the separator gives the string back |
| PyStr.SplitPartsAvoidSeparator | animals_web_generator.py:164 | no piece of a split contains the separator |
| PyStr.ReplaceAllIsJoinSplit | animals_web_generator.py:164 | `s.replace(pat, r) == r.join(s.split(pat))`: the text between occurrences is kept and every occurrence is replaced |
| PyStr.ReplaceAllWithoutPattern | animals_web_generator.py:164 | a string without the pattern is returned unchanged |
| PyStr.ReplaceAllSingle | animals_web_generator.py:164 | a string with the pattern exactly once gets the replacement in its place and is otherwise kept |
| PyStr.ReplaceAllTwice | animals_web_generator.py:164 | a string with the pattern twice, at guarded seams, has both occurrences replaced |
| Page.FillWithoutMarker | animals_web_generator.py:164 | a template without the marker is written unchanged |
| Page.FillSingleMarker | animals_web_generator.py:164 | with the marker exactly once, the content takes its place and the rest of the template is kept |
| Page.FillEveryMarker | animals_web_generator.py:164 | the marker is replaced at every occurrence, not only the first: a template with it twice gets the content twice |
| Page.FillCanRecreateMarker | animals_web_generator.py:164 | the inserted text is not rescanned: a template holding the marker once, filled with content that lacks it, can still yield a page that is the marker |
| Page.CardAvoidsMarker | animals_web_generator.py:29-69 | a card holds no marker, and starts and ends outside it, when none of the record's values holds the marker |
| Page.ErrorMessageAvoidsMarker | animals_web_generator.py:71-91 | the error card holds no marker, and starts and ends outside it, when the search term lacks the marker |
| Page.ContentAvoidsMarker | animals_web_generator.py:93-106 | the generated content holds no marker, and starts and ends with markup outside it, when no fetched value holds the marker (nor the search term, when nothing is found) |
| Page.FillLeavesNoMarker | animals_web_generator.py:164 | filling a single-marker template with content that lacks the marker and starts and ends outside it leaves no marker |
| Page.RunNothingFound | animals_web_generator.py:144-164 | when nothing is found a page is still written: the template with the error card for the stripped name in the marker's place |
| Page.RunPageHasNoMarker | animals_web_generator.py:144-164 | for a single-marker template, the page is the template with the content in the marker's place and holds no marker, provided no fetched value (nor the name, when nothing is found) holds it |

## Left out

- `read_template` and `write_output_file` (file I/O and its exception handling) are left out. The template is an `Option<string>` argument of `Page.Run`, and the written page is its result.
- `fetch_data` is a network client that is not part of this model. It is the `fetch` parameter of `Page.Run`, a function from the stripped name to a list of records.
- The prompts, `print` messages and the `KeyboardInterrupt` handler are console I/O with no bearing on the page.
- Non-string field values are left out: the model's fields are absent or strings, so the `str()` conversion that f-strings apply to other values is not modelled.
- A nested mapping that is present but `None` is left out. Calling `.get` on it raises an error in the program, and the model has no such record.
- PyStr.ReplaceAll and PyStr.Split require a non-empty pattern. Python's rules for an empty pattern are not modelled, because the program only uses the fixed 24-character marker.
- Page.FillLeavesNoMarker: "a single marker filled with marker-free content leaves no marker" is false as stated, as Page.FillCanRecreateMarker shows. The lemma therefore also requires the content to start and end with characters that are not in the marker. Page.ContentAvoidsMarker proves that every content the program generates meets this.
- Page.RunPageHasNoMarker: proved for templates holding the marker exactly once and for fetched values that do not themselves contain the marker. A template with several markers gets the content once per marker (Page.FillEveryMarker). A fetched value holding the marker is copied into the page verbatim, because values are not escaped.
- `str.replace` replaces every occurrence of the marker, not only the first, and the model follows the code (Page.FillEveryMarker).
