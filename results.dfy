/** The dictionary both extraction functions build, and what the chunked
    CSV reader hands them. */
module Results {
  import opened Frame

  /** One `(category, value)` tuple of a country's list; the value is
      missing when every value of its group was. */
  datatype Entry<V> = Entry(category: string, value: Option<V>)

  /** A Python `dict` from country to list of entries: `lists` holds the
      items and `order` the keys in insertion order. */
  datatype Mapping<V> = Mapping(order: seq<string>, lists: map<string, seq<Entry<V>>>)

  /** `{}`. */
  function Empty<V>(): Mapping<V> {
    Mapping([], map[])
  }

  /** The shape every dictionary the pipeline builds keeps: keys in
      insertion order without repetition, and no empty list, since a key
      is created together with its first entry. */
  ghost predicate WellFormed<V>(m: Mapping<V>) {
    && (forall i, j :: 0 <= i < j < |m.order| ==> m.order[i] != m.order[j])
    && (forall c :: c in m.lists <==> c in m.order)
    && (forall c :: c in m.lists ==> |m.lists[c]| > 0)
  }

  /** `if country not in result: result[country] = [e]
      else: result[country].append(e)`. */
  function AddEntry<V>(m: Mapping<V>, c: string, e: Entry<V>): (r: Mapping<V>)
    ensures c in r.lists && r.lists[c] == (if c in m.lists then m.lists[c] else []) + [e]
    ensures forall c' :: c' != c ==> (c' in r.lists <==> c' in m.lists)
    ensures forall c' :: c' != c && c' in m.lists ==> r.lists[c'] == m.lists[c']
    ensures r.order == if c in m.lists then m.order else m.order + [c]
    ensures WellFormed(m) ==> WellFormed(r)
  {
    if c !in m.lists then Mapping(m.order + [c], m.lists[c := [e]])
    else Mapping(m.order, m.lists[c := m.lists[c] + [e]])
  }

  /** The list of `c`, or the empty list when `c` is not a key. */
  function ListOf<V>(m: Mapping<V>, c: string): seq<Entry<V>> {
    if c in m.lists then m.lists[c] else []
  }

  /** `any(edu[0] == category for edu in entries)`. */
  predicate HasLabel<V>(entries: seq<Entry<V>>, category: string) {
    exists i :: 0 <= i < |entries| && entries[i].category == category
  }

  /** `m'` is `m` with entries appended: no key is removed, keys keep
      their insertion order, and every list keeps its old entries, in
      order, as a prefix. */
  ghost predicate Extends<V>(m: Mapping<V>, m': Mapping<V>) {
    && m.order <= m'.order
    && (forall c :: c in m.lists ==> c in m'.lists && m.lists[c] <= m'.lists[c])
  }

  lemma ExtendsReflexive<V>(m: Mapping<V>)
    ensures Extends(m, m)
  {
  }

  lemma ExtendsTransitive<V>(a: Mapping<V>, b: Mapping<V>, c: Mapping<V>)
    requires Extends(a, b) && Extends(b, c)
    ensures Extends(a, c)
  {
    forall k | k in a.lists ensures k in c.lists && a.lists[k] <= c.lists[k] {
      assert a.lists[k] <= b.lists[k] <= c.lists[k];
    }
  }

  lemma AddEntryExtends<V>(m: Mapping<V>, c: string, e: Entry<V>)
    ensures Extends(m, AddEntry(m, c, e))
  {
  }

  /** The three failures the extraction functions catch. */
  datatype ErrorKind =
    | FileNotFound   // FileNotFoundError
    | ParseError     // pandas.errors.ParserError
    | Unexpected     // any other Exception

  /** What iterating `pd.read_csv(..., chunksize=...)` produces: the chunks
      it yielded, then either its normal end or the error it raised. */
  datatype Read<R> = Read(chunks: seq<seq<R>>, failure: Option<ErrorKind>)
}
