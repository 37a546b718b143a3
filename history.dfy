/**
 * The translation history list of frontend/src/TranslationPlatform.jsx: a new
 * entry goes in front, delete removes by id, clear empties it. The entry's id
 * (`Date.now()`) and timestamp (`toLocaleString`) are supplied values.
 */
module History {

  datatype Entry = Entry(
    id: int,
    sourceText: string,
    translatedText: string,
    sourceLang: string,
    targetLang: string,
    timestamp: string)

  /** `[newEntry, ...prev]` */
  function Prepend(entry: Entry, history: seq<Entry>): seq<Entry> {
    [entry] + history
  }

  /** `history.filter((h) => h.id !== id)` */
  function DeleteById(history: seq<Entry>, id: int): (r: seq<Entry>)
    ensures forall e :: e in r ==> e in history && e.id != id
    ensures forall e :: e in history && e.id != id ==> e in r
    ensures |r| <= |history|
  {
    if history == [] then []
    else if history[0].id != id then [history[0]] + DeleteById(history[1..], id)
    else DeleteById(history[1..], id)
  }

  /** Deleting works piecewise, so the survivors keep their relative order. */
  lemma {:induction false} DeleteByIdKeepsOrder(a: seq<Entry>, b: seq<Entry>, id: int)
    ensures DeleteById(a + b, id) == DeleteById(a, id) + DeleteById(b, id)
  {
    if a == [] {
      assert a + b == b;
    } else {
      assert (a + b)[0] == a[0];
      assert (a + b)[1..] == a[1..] + b;
      DeleteByIdKeepsOrder(a[1..], b, id);
    }
  }

  /** A history without the id is left exactly as it was. */
  lemma {:induction false} DeleteAbsentId(history: seq<Entry>, id: int)
    requires forall e :: e in history ==> e.id != id
    ensures DeleteById(history, id) == history
  {
    if history != [] {
      assert history[0] in history;
      assert forall e :: e in history[1..] ==> e in history;
      DeleteAbsentId(history[1..], id);
    }
  }

  /** Deleting the same id twice is deleting it once. */
  lemma DeleteByIdIdempotent(history: seq<Entry>, id: int)
    ensures DeleteById(DeleteById(history, id), id) == DeleteById(history, id)
  {
    DeleteAbsentId(DeleteById(history, id), id);
  }

  /** Deleting a freshly prepended entry by its (fresh) id restores the history. */
  lemma DeleteUndoesPrepend(entry: Entry, history: seq<Entry>)
    requires forall e :: e in history ==> e.id != entry.id
    ensures DeleteById(Prepend(entry, history), entry.id) == history
  {
    assert Prepend(entry, history)[1..] == history;
    DeleteAbsentId(history, entry.id);
  }
}
