/**
 * One animal record as the API returns it, restricted to the keys the card shows, and the
 * null-safe extraction of each shown value with its placeholder
 * (create_animal_card in animals_web_generator.py, before the HTML is built).
 */
module Records {
  import opened Wrappers
  import opened PyStr

  /** Placeholder for a missing name. */
  const Unknown := "Unknown"
  /** Placeholder for every other missing value. */
  const NotAvailable := "Not available"
  /** What separates the locations of an animal on its card. */
  const LocationSeparator := "<br>"

  /** The `taxonomy` mapping; each key may be absent. */
  datatype Taxonomy = Taxonomy(scientificName: Option<string>, family: Option<string>)

  /** The `characteristics` mapping; each key may be absent. */
  datatype Characteristics = Characteristics(diet: Option<string>, habitat: Option<string>)

  /** An animal record: every key may be absent, and so may every key of a nested mapping. */
  datatype AnimalRecord = AnimalRecord(
    name: Option<string>,
    taxonomy: Option<Taxonomy>,
    characteristics: Option<Characteristics>,
    locations: Option<seq<string>>)

  /** The single-valued fields a card shows. */
  datatype Field = Name | ScientificName | Family | Diet | Habitat

  /** The value at the field's key path (`name`, `taxonomy.family`, ...), present only when
      every key on the path is present. */
  function Lookup(a: AnimalRecord, f: Field): Option<string>
  {
    match f
    case Name => a.name
    case ScientificName => if a.taxonomy.Some? then a.taxonomy.value.scientificName else None
    case Family => if a.taxonomy.Some? then a.taxonomy.value.family else None
    case Diet => if a.characteristics.Some? then a.characteristics.value.diet else None
    case Habitat => if a.characteristics.Some? then a.characteristics.value.habitat else None
  }

  /** What the card shows for a field whose path is incomplete. */
  function Placeholder(f: Field): string
  {
    if f == Name then Unknown else NotAvailable
  }

  /** The source's extraction: `animal.get('name', 'Unknown')`, and for the nested fields
      `animal.get(group, {})` followed by `.get(key, 'Not available')`. Each field falls back to
      its placeholder exactly when its own path is incomplete, whatever the other fields hold. */
  function Extract(a: AnimalRecord, f: Field): (r: string)
    ensures Lookup(a, f).Some? ==> r == Lookup(a, f).value
    ensures Lookup(a, f).None? ==> r == Placeholder(f)
  {
    var taxonomy := a.taxonomy.GetOr(Taxonomy(None, None));
    var characteristics := a.characteristics.GetOr(Characteristics(None, None));
    match f
    case Name => a.name.GetOr(Unknown)
    case ScientificName => taxonomy.scientificName.GetOr(NotAvailable)
    case Family => taxonomy.family.GetOr(NotAvailable)
    case Diet => characteristics.diet.GetOr(NotAvailable)
    case Habitat => characteristics.habitat.GetOr(NotAvailable)
  }

  /** The source's `animal.get('locations', ['Not available'])` followed by
      `'<br>'.join(locations) if locations else 'Not available'`. */
  function LocationsHtml(a: AnimalRecord): (r: string)
    ensures a.locations.None? || a.locations.value == [] ==> r == NotAvailable
    ensures a.locations.Some? && |a.locations.value| == 1 ==> r == a.locations.value[0]
    ensures a.locations.Some? && |a.locations.value| > 1 ==>
      var xs := a.locations.value;
      r == Join(LocationSeparator, xs[..|xs| - 1]) + LocationSeparator + xs[|xs| - 1]
  {
    var locations := a.locations.GetOr([NotAvailable]);
    var r := if |locations| > 0 then Join(LocationSeparator, locations) else NotAvailable;
    if a.locations.Some? && |a.locations.value| > 1 then
      var xs := a.locations.value;
      JoinConcat(LocationSeparator, xs[..|xs| - 1], [xs[|xs| - 1]]);
      assert xs[..|xs| - 1] + [xs[|xs| - 1]] == xs;
      r
    else r
  }

  /** A record with `k > 0` locations shows their characters and exactly `k - 1` separators. */
  lemma LocationsSeparators(a: AnimalRecord)
    requires a.locations.Some? && a.locations.value != []
    ensures |LocationsHtml(a)|
         == TotalLength(a.locations.value) + (|a.locations.value| - 1) * |LocationSeparator|
  {
    JoinLength(LocationSeparator, a.locations.value);
  }

  /** No value present in the record contains `pat`. */
  predicate ValuesAvoid(a: AnimalRecord, pat: string)
  {
    && (forall f :: Lookup(a, f).Some? ==> !Contains(Lookup(a, f).value, pat))
    && (a.locations.Some? ==> forall i :: 0 <= i < |a.locations.value| ==> !Contains(a.locations.value[i], pat))
  }
}
