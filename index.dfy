/** The index store's records and their normalisation on load: each record of
    `/index.json` gains lower-cased searchable copies of its title, `desc` and
    section, the empty string standing in for a missing field. */
module SearchIndex {
  import opened Wrappers
  import opened Text

  /** One element of the index; a field the JSON leaves out (or sets to null) is None. */
  datatype Record = Record(
    title: Option<string>,
    desc: Option<string>,
    section: Option<string>,
    permalink: Option<string>,
    date: Option<string>)

  /** A record as held by the loaded index: the record itself plus its projections. */
  datatype Entry = Entry(item: Record, searchableTitle: string, searchableDesc: string, searchableSection: string)

  /** `field?.toLowerCase() || ''`. */
  function Searchable(field: Option<string>): string {
    if field.Some? then Lower(field.value) else []
  }

  function Normalize(item: Record): Entry {
    Entry(item, Searchable(item.title), Searchable(item.desc), Searchable(item.section))
  }

  /** The three projections of `e` are those computed from its own record. */
  predicate IsNormalized(e: Entry) {
    && e.searchableTitle == Searchable(e.item.title)
    && e.searchableDesc == Searchable(e.item.desc)
    && e.searchableSection == Searchable(e.item.section)
  }

  /** `data.map(item => ({ ...item, searchableTitle: ..., ... }))`. */
  function NormalizeIndex(data: seq<Record>): (index: seq<Entry>)
    ensures |index| == |data|
    ensures forall i :: 0 <= i < |data| ==> index[i].item == data[i] && IsNormalized(index[i])
  {
    seq(|data|, i requires 0 <= i < |data| => Normalize(data[i]))
  }

  /** A projection is empty exactly when its field is missing or empty, has the
      field's length otherwise, and is already lower-case, so folding it again
      would change nothing. */
  lemma SearchableProperties(field: Option<string>)
    ensures |Searchable(field)| == |field.GetOr([])|
    ensures IsLowerCase(Searchable(field))
    ensures Lower(Searchable(field)) == Searchable(field)
  {
    LowerOfLowerCase(Searchable(field));
  }
}
