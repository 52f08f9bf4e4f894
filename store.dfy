/**
 * The session's memory store: an ordered list of entries, each either a
 * `{"fact": text}` record or, in the legacy shape, the bare text itself.
 */
module Store {

  datatype Entry = Record(fact: string) | Bare(text: string)

  /** The text an entry carries, whatever its shape. */
  function EntryText(e: Entry): string {
    match e
    case Record(f) => f
    case Bare(t) => t
  }

  predicate AllRecords(db: seq<Entry>) {
    forall k :: 0 <= k < |db| ==> db[k].Record?
  }

  /**
   * The store after the legacy shapes are wrapped: same length, same order,
   * every entry a record carrying the text it had, records left as they were.
   */
  function Normalised(db: seq<Entry>): (r: seq<Entry>)
    ensures |r| == |db|
    ensures AllRecords(r)
    ensures forall k :: 0 <= k < |db| ==> r[k].fact == EntryText(db[k])
    ensures forall k :: 0 <= k < |db| && db[k].Record? ==> r[k] == db[k]
  {
    if db == [] then []
    else
      var head := if db[0].Record? then db[0] else Record(db[0].text);
      [head] + Normalised(db[1..])
  }

  /** Normalising a store that is already normalised changes nothing. */
  lemma NormalisedIdempotent(db: seq<Entry>)
    ensures Normalised(Normalised(db)) == Normalised(db)
  {
    var once := Normalised(db);
    assert forall k :: 0 <= k < |once| ==> Normalised(once)[k] == once[k];
  }

  /** The fact texts of a normalised store, in store order. */
  function Facts(db: seq<Entry>): (r: seq<string>)
    requires AllRecords(db)
    ensures |r| == |db|
  {
    seq(|db|, k requires 0 <= k < |db| => db[k].fact)
  }
}
