/** `extract_countries_and_values` of the life-expectancy script: each
    chunk of the CSV file is narrowed to the accepted countries and age
    groups, optionally to one sex, and to the year 2020; its value column
    is converted to numbers, duplicates are removed, the rows are grouped
    by (country, sex), and every grouped row is appended to its country's
    list, with no check for an entry already there. */
module LifeExpectancy {
  import opened Frame
  import opened Results

  /** One row of a chunk, restricted to the columns the function reads.
      The parameter names of the source do not match the columns they
      name at the call sites: the one called `sex` names the value column
      `OBS_VALUE`, the one called `age` names the sex column `Sex`. */
  datatype Row = Row(
    country: Option<string>,    // the `countries` column
    value: Option<string>,      // the `sex` column (`OBS_VALUE`), as text
    category: Option<string>,   // the `age` column (`Sex`)
    ageGroup: Option<string>,   // the `age_column` column (`Age`)
    period: Option<int>)        // the 'TIME_PERIOD' column

  /** The call-site arguments that decide which rows count; `choose` is
      the one sex wanted, empty for "every sex". */
  datatype Criteria = Criteria(countries: seq<string>, ageGroups: seq<string>, choose: string)

  const PERIODS: seq<int> := [2020]

  /** The `isin` selections every row must pass; the one on the sex column
      applies only when `choose` is not empty. */
  predicate Selected(q: Criteria, r: Row) {
    && IsIn(r.country, q.countries)
    && IsIn(r.ageGroup, q.ageGroups)
    && (q.choose != "" ==> IsIn(r.category, [q.choose]))
    && IsIn(r.period, PERIODS)
  }

  function SelectedMask(q: Criteria): Row -> bool {
    (r: Row) => Selected(q, r)
  }

  /** The deduplication key, read after `pd.to_numeric` has converted the
      value column: country and converted value, and the sex as well when
      `choose` is set; without it the sex takes no part, which the
      constant `None` stands for. */
  function DedupKey<V>(parse: string -> Option<V>, choose: string): Row -> (Option<string>, Option<V>, Option<string>) {
    (r: Row) => (r.country, ToNumeric(parse, r.value), if choose != "" then r.category else None)
  }

  /** The rows of one chunk that reach the `groupby`. */
  function Survivors<V(==)>(q: Criteria, parse: string -> Option<V>, chunk: seq<Row>): (rows: seq<Row>)
    ensures forall i :: 0 <= i < |rows| ==> rows[i] in chunk && Selected(q, rows[i])
  {
    DropDuplicates(Filter(chunk, SelectedMask(q)), DedupKey(parse, q.choose))
  }

  /** The surviving rows as the `groupby` sees them, the value column
      converted. */
  function ToKeyed<V>(parse: string -> Option<V>, rows: seq<Row>): seq<Keyed<V>>
  {
    seq(|rows|, i requires 0 <= i < |rows| => Keyed(rows[i].country, rows[i].category, ToNumeric(parse, rows[i].value)))
  }

  /** `chunk_result`: one row per (country, sex) of the surviving rows, in
      key order, with the first non-missing value. */
  function Grouped<V(==)>(q: Criteria, parse: string -> Option<V>, chunk: seq<Row>): seq<Group<V>> {
    GroupFirst(ToKeyed(parse, Survivors(q, parse, chunk)))
  }

  /** Each chunk's grouped result has one row per (country, sex), each
      with the first non-missing value among that pair's surviving rows. */
  lemma GroupedOnePerKey<V>(q: Criteria, parse: string -> Option<V>, chunk: seq<Row>)
    ensures DistinctGroupKeys(Grouped(q, parse, chunk))
    ensures forall i :: 0 <= i < |Grouped(q, parse, chunk)| ==>
              Grouped(q, parse, chunk)[i].value ==
              FirstValue(ToKeyed(parse, Survivors(q, parse, chunk)), GroupKey(Grouped(q, parse, chunk)[i]))
  {
    GroupFirstDistinct(ToKeyed(parse, Survivors(q, parse, chunk)));
  }

  /** A selected row with no earlier selected row of the same
      deduplication key reaches the `groupby`. */
  lemma SurvivorsKeep<V>(q: Criteria, parse: string -> Option<V>, xs: seq<Row>, r: Row, ys: seq<Row>)
    requires Selected(q, r)
    requires forall x :: x in xs && Selected(q, x) ==> DedupKey(parse, q.choose)(x) != DedupKey(parse, q.choose)(r)
    ensures r in Survivors(q, parse, xs + [r] + ys)
  {
    var mask := SelectedMask(q);
    var fx, fy := Filter(xs, mask), Filter(ys, mask);
    var sel := fx + [r] + fy;
    assert Filter(xs + [r] + ys, mask) == sel by {
      FilterAppend(xs + [r], ys, mask);
      FilterAppend(xs, [r], mask);
      FilterSingle(r, mask);
    }
    var key := DedupKey(parse, q.choose);
    assert sel[|fx|] == r;
    forall j | 0 <= j < |fx| ensures key(sel[j]) != key(sel[|fx|]) {
      assert sel[j] == fx[j];
    }
    DropDuplicatesKeepsFirst(sel, key, |fx|);
  }

  /** Such a row, with its sex cell present, has its (country, sex)
      grouped. */
  lemma GroupedComplete<V>(q: Criteria, parse: string -> Option<V>, xs: seq<Row>, r: Row, ys: seq<Row>)
    requires Selected(q, r) && r.category.Some?
    requires forall x :: x in xs && Selected(q, x) ==> DedupKey(parse, q.choose)(x) != DedupKey(parse, q.choose)(r)
    ensures (r.country.value, r.category.value) in Keys(Grouped(q, parse, xs + [r] + ys))
  {
    SurvivorsKeep(q, parse, xs, r, ys);
    var sv := Survivors(q, parse, xs + [r] + ys);
    var j :| 0 <= j < |sv| && sv[j] == r;
    var ks := ToKeyed(parse, sv);
    assert KeyOf(ks[j]) == Some((r.country.value, r.category.value));
    assert HasKey(ks, (r.country.value, r.category.value));
  }

  /** Some row of `chunk` that passes the selections is behind the entry
      `e` of country `c`, and a present value is the converted value of
      such a row. */
  ghost predicate Sourced<V>(q: Criteria, parse: string -> Option<V>, chunk: seq<Row>, c: string, e: Entry<V>) {
    && (exists r :: r in chunk && Selected(q, r) && r.country == Some(c) && r.category == Some(e.category))
    && (e.value.Some? ==>
          exists r :: r in chunk && Selected(q, r) && r.country == Some(c) && r.category == Some(e.category) &&
                      ToNumeric(parse, r.value) == e.value)
  }

  lemma GroupedSource<V>(q: Criteria, parse: string -> Option<V>, chunk: seq<Row>, g: Group<V>)
    requires g in Grouped(q, parse, chunk)
    ensures Sourced(q, parse, chunk, g.country, Entry(g.category, g.value))
  {
    var rows := Survivors(q, parse, chunk);
    var ks := ToKeyed(parse, rows);
    GroupFirstSource(ks, g);
    assert |ks| == |rows|;
    var i :| 0 <= i < |ks| && KeyOf(ks[i]) == Some(GroupKey(g));
    assert ks[i] == Keyed(rows[i].country, rows[i].category, ToNumeric(parse, rows[i].value));
    assert rows[i] in chunk && Selected(q, rows[i]);
    if g.value.Some? {
      var j :| 0 <= j < |ks| && KeyOf(ks[j]) == Some(GroupKey(g)) && ks[j].value == g.value;
      assert ks[j] == Keyed(rows[j].country, rows[j].category, ToNumeric(parse, rows[j].value));
      assert rows[j] in chunk && Selected(q, rows[j]);
    }
  }

  /** Without `choose`, deduplication ignores the sex: a later row of the
      same country with the same value is dropped even when it is for
      another sex. */
  lemma SameValueOtherSexDropped<V>(q: Criteria, parse: string -> Option<V>, a: Row, b: Row)
    requires q.choose == "" && Selected(q, a) && Selected(q, b)
    requires a.country == b.country && ToNumeric(parse, a.value) == ToNumeric(parse, b.value)
    ensures Survivors(q, parse, [a, b]) == [a]
  {
    assert Filter([a, b], SelectedMask(q)) == [a, b] by {
      assert [a, b][1..] == [b];
      FilterSingle(b, SelectedMask(q));
    }
    assert [a, b][..1] == [a];
    DropDuplicatesSingle(a, DedupKey(parse, q.choose));
  }

  // ---------------------------------------------------------------------
  // The merge.

  /** One pass of the inner loop: the entry is appended to its country's
      list, which is created when the country is new. */
  function MergeGroup<V>(m: Mapping<V>, g: Group<V>): Mapping<V> {
    AddEntry(m, g.country, Entry(g.category, g.value))
  }

  /** The inner loop over `chunk_result.iterrows()`. */
  function MergeGroups<V>(m: Mapping<V>, gs: seq<Group<V>>): Mapping<V>
    decreases |gs|
  {
    if gs == [] then m else MergeGroup(MergeGroups(m, gs[..|gs| - 1]), gs[|gs| - 1])
  }

  /** The outer loop over the chunks, given each chunk's grouped result. */
  function MergeAll<V>(gss: seq<seq<Group<V>>>): Mapping<V>
    decreases |gss|
  {
    if gss == [] then Empty() else MergeGroups(MergeAll(gss[..|gss| - 1]), gss[|gss| - 1])
  }

  /** The grouped result of every chunk, in reading order. */
  function GroupedChunks<V(==)>(q: Criteria, parse: string -> Option<V>, chunks: seq<seq<Row>>): seq<seq<Group<V>>>
  {
    seq(|chunks|, i requires 0 <= i < |chunks| => Grouped(q, parse, chunks[i]))
  }

  /** The value of the whole call: any error raised while reading
      discards everything merged so far. */
  function Extract<V(==)>(q: Criteria, parse: string -> Option<V>, read: Read<Row>): (m: Mapping<V>)
    ensures read.failure.Some? ==> m.order == [] && m.lists == map[]
  {
    if read.failure.Some? then Empty() else MergeAll(GroupedChunks(q, parse, read.chunks))
  }

  /** The inner loop: appends one chunk's grouped rows to `result`. */
  method MergeChunk<V>(m: Mapping<V>, chunkResult: seq<Group<V>>) returns (result: Mapping<V>)
    ensures result == MergeGroups(m, chunkResult)
  {
    result := m;
    var j := 0;
    while j < |chunkResult|
      invariant j <= |chunkResult|
      invariant result == MergeGroups(m, chunkResult[..j])
    {
      var g := chunkResult[j];
      if g.country !in result.lists {
        result := Mapping(result.order + [g.country], result.lists[g.country := [Entry(g.category, g.value)]]);
      } else {
        result := Mapping(result.order, result.lists[g.country := result.lists[g.country] + [Entry(g.category, g.value)]]);
      }
      assert chunkResult[..j + 1][..j] == chunkResult[..j];
      j := j + 1;
    }
    assert chunkResult[..j] == chunkResult;
  }

  lemma MergeAllSnoc<V>(gss: seq<seq<Group<V>>>, i: nat)
    requires i < |gss|
    ensures MergeAll(gss[..i + 1]) == MergeGroups(MergeAll(gss[..i]), gss[i])
  {
    assert gss[..i + 1][..i] == gss[..i];
  }

  /** `extract_countries_and_values`: the outer loop over the chunks the
      reader yields, inside the `try` whose handlers return `{}`. */
  method ExtractCountriesAndValues<V(==)>(q: Criteria, parse: string -> Option<V>, read: Read<Row>)
    returns (result: Mapping<V>)
    ensures result == Extract(q, parse, read)
  {
    ghost var gss := GroupedChunks(q, parse, read.chunks);
    result := Empty();
    var i := 0;
    while i < |read.chunks|
      invariant i <= |read.chunks|
      invariant result == MergeAll(gss[..i])
    {
      var chunkResult := Grouped(q, parse, read.chunks[i]);
      MergeAllSnoc(gss, i);
      result := MergeChunk(result, chunkResult);
      i := i + 1;
    }
    assert gss[..i] == gss;
    if read.failure.Some? {
      result := Empty();
    }
  }

  // ---------------------------------------------------------------------
  // What each country's list holds.

  function CountryMask<V>(c: string): Group<V> -> bool {
    (g: Group<V>) => g.country == c
  }

  function AsEntry<V>(g: Group<V>): Entry<V> {
    Entry(g.category, g.value)
  }

  /** The entries one chunk's grouped result contributes to country `c`:
      its rows for `c`, in order. */
  function EntriesOf<V>(c: string, gs: seq<Group<V>>): seq<Entry<V>> {
    Map(Filter(gs, CountryMask(c)), AsEntry)
  }

  /** The entries of every chunk for country `c`, chunk after chunk. */
  function AllEntriesOf<V>(c: string, gss: seq<seq<Group<V>>>): seq<Entry<V>>
    decreases |gss|
  {
    if gss == [] then [] else AllEntriesOf(c, gss[..|gss| - 1]) + EntriesOf(c, gss[|gss| - 1])
  }

  /** The number of grouped rows for country `c`, summed over the chunks. */
  function GroupedCount<V>(c: string, gss: seq<seq<Group<V>>>): nat
    decreases |gss|
  {
    if gss == [] then 0 else GroupedCount(c, gss[..|gss| - 1]) + |Filter(gss[|gss| - 1], CountryMask(c))|
  }

  lemma EntriesOfSnoc<V>(c: string, gs: seq<Group<V>>)
    requires gs != []
    ensures EntriesOf(c, gs) == EntriesOf(c, gs[..|gs| - 1]) + (if gs[|gs| - 1].country == c then [AsEntry(gs[|gs| - 1])] else [])
  {
    var init, g := gs[..|gs| - 1], gs[|gs| - 1];
    assert gs == init + [g];
    FilterAppend(init, [g], CountryMask(c));
    FilterSingle(g, CountryMask(c));
    MapAppend(Filter(init, CountryMask(c)), Filter([g], CountryMask(c)), AsEntry);
  }

  lemma MergeGroupList<V>(m: Mapping<V>, g: Group<V>, c: string)
    ensures ListOf(MergeGroup(m, g), c) == ListOf(m, c) + (if g.country == c then [AsEntry(g)] else [])
    ensures c in MergeGroup(m, g).lists <==> c in m.lists || g.country == c
  {
  }

  lemma {:induction false} MergeGroupsContents<V>(m: Mapping<V>, gs: seq<Group<V>>, c: string)
    ensures ListOf(MergeGroups(m, gs), c) == ListOf(m, c) + EntriesOf(c, gs)
    ensures c in MergeGroups(m, gs).lists <==> c in m.lists || EntriesOf(c, gs) != []
    decreases |gs|
  {
    if gs == [] {
      assert ListOf(m, c) + [] == ListOf(m, c);
    } else {
      var init, g := gs[..|gs| - 1], gs[|gs| - 1];
      var before := MergeGroups(m, init);
      var extra := if g.country == c then [AsEntry(g)] else [];
      assert EntriesOf(c, gs) == EntriesOf(c, init) + extra by {
        EntriesOfSnoc(c, gs);
      }
      assert ListOf(before, c) == ListOf(m, c) + EntriesOf(c, init) &&
             (c in before.lists <==> c in m.lists || EntriesOf(c, init) != []) by {
        MergeGroupsContents(m, init, c);
      }
      assert ListOf(MergeGroups(m, gs), c) == ListOf(before, c) + extra &&
             (c in MergeGroups(m, gs).lists <==> c in before.lists || g.country == c) by {
        MergeGroupList(before, g, c);
      }
      AppendAssociative(ListOf(m, c), EntriesOf(c, init), extra);
    }
  }

  /** Every grouped row is appended: a country's list is exactly its
      grouped rows, chunk after chunk and in each chunk's key order, and a
      country is a key once one chunk has a grouped row for it. */
  lemma {:induction false} MergeAllContents<V>(gss: seq<seq<Group<V>>>, c: string)
    ensures ListOf(MergeAll(gss), c) == AllEntriesOf(c, gss)
    ensures c in MergeAll(gss).lists <==> AllEntriesOf(c, gss) != []
    decreases |gss|
  {
    if gss != [] {
      var init := gss[..|gss| - 1];
      MergeAllContents(init, c);
      MergeGroupsContents(MergeAll(init), gss[|gss| - 1], c);
    }
  }

  lemma {:induction false} AllEntriesCount<V>(gss: seq<seq<Group<V>>>, c: string)
    ensures |AllEntriesOf(c, gss)| == GroupedCount(c, gss)
    decreases |gss|
  {
    if gss != [] {
      AllEntriesCount(gss[..|gss| - 1], c);
    }
  }

  // ---------------------------------------------------------------------
  // The merge only appends.

  lemma {:induction false} MergeGroupsExtends<V>(m: Mapping<V>, gs: seq<Group<V>>)
    ensures Extends(m, MergeGroups(m, gs))
    ensures WellFormed(m) ==> WellFormed(MergeGroups(m, gs))
    decreases |gs|
  {
    if gs == [] {
      ExtendsReflexive(m);
    } else {
      var mid := MergeGroups(m, gs[..|gs| - 1]);
      MergeGroupsExtends(m, gs[..|gs| - 1]);
      AddEntryExtends(mid, gs[|gs| - 1].country, Entry(gs[|gs| - 1].category, gs[|gs| - 1].value));
      ExtendsTransitive(m, mid, MergeGroups(m, gs));
    }
  }

  /** Merging more chunks never removes a country, never reorders the
      keys, and keeps every country's earlier entries, in order, as a
      prefix of its list. */
  lemma {:induction false} MergeAllExtends<V>(gss: seq<seq<Group<V>>>, n: nat)
    requires n <= |gss|
    ensures Extends(MergeAll(gss[..n]), MergeAll(gss))
    ensures WellFormed(MergeAll(gss))
    decreases |gss|
  {
    if gss == [] {
      ExtendsReflexive(MergeAll(gss[..n]));
    } else {
      var init := gss[..|gss| - 1];
      MergeGroupsExtends(MergeAll(init), gss[|gss| - 1]);
      if n == |gss| {
        assert gss[..n] == gss;
        ExtendsReflexive(MergeAll(gss));
      } else {
        assert init[..n] == gss[..n];
        MergeAllExtends(init, n);
        ExtendsTransitive(MergeAll(gss[..n]), MergeAll(init), MergeAll(gss));
      }
      MergeAllExtends(init, 0);
    }
  }

  // ---------------------------------------------------------------------
  // The properties of the whole call.

  /** Every entry of the result is a row of some chunk's grouped result. */
  lemma EntrySource<V>(gss: seq<seq<Group<V>>>, c: string, e: Entry<V>)
    requires c in MergeAll(gss).lists && e in MergeAll(gss).lists[c]
    ensures exists i :: 0 <= i < |gss| && Group(c, e.category, e.value) in gss[i]
  {
    MergeAllContents(gss, c);
    AllEntriesSource(gss, c, e);
  }

  lemma {:induction false} AllEntriesSource<V>(gss: seq<seq<Group<V>>>, c: string, e: Entry<V>)
    requires e in AllEntriesOf(c, gss)
    ensures exists i :: 0 <= i < |gss| && Group(c, e.category, e.value) in gss[i]
    decreases |gss|
  {
    var init, last := gss[..|gss| - 1], gss[|gss| - 1];
    if e in AllEntriesOf(c, init) {
      AllEntriesSource(init, c, e);
      var i :| 0 <= i < |init| && Group(c, e.category, e.value) in init[i];
      assert init[i] == gss[i];
    } else {
      var es := EntriesOf(c, last);
      var fs := Filter(last, CountryMask(c));
      assert es == Map(fs, AsEntry);
      var k :| 0 <= k < |es| && es[k] == e;
      assert es[k] == AsEntry(fs[k]);
      assert fs[k] in last && fs[k].country == c;
      assert fs[k] == Group(c, e.category, e.value);
      assert gss[|gss| - 1] == last;
    }
  }

  /** Every country of the result is one of the accepted countries; with
      `choose` set every sex listed is `choose`; and each entry goes back
      to a row of some chunk for an accepted age group and for 2020. A
      failed read gives the empty dictionary. */
  lemma ExtractSound<V>(q: Criteria, parse: string -> Option<V>, read: Read<Row>, c: string, e: Entry<V>)
    requires c in Extract(q, parse, read).lists && e in Extract(q, parse, read).lists[c]
    ensures read.failure.None?
    ensures c in q.countries
    ensures q.choose != "" ==> e.category == q.choose
    ensures exists i :: 0 <= i < |read.chunks| && Sourced(q, parse, read.chunks[i], c, e)
  {
    assert read.failure.None?;
    var gss := GroupedChunks(q, parse, read.chunks);
    var g := Group(c, e.category, e.value);
    assert exists i :: 0 <= i < |gss| && g in gss[i] by { EntrySource(gss, c, e); }
    var i :| 0 <= i < |gss| && g in gss[i];
    assert Sourced(q, parse, read.chunks[i], c, e) by { GroupedSource(q, parse, read.chunks[i], g); }
    SourcedAccepted(q, parse, read.chunks[i], c, e);
  }

  /** An entry traced to a selected row has an accepted country and, with
      `choose` set, the chosen sex. */
  lemma SourcedAccepted<V>(q: Criteria, parse: string -> Option<V>, chunk: seq<Row>, c: string, e: Entry<V>)
    requires Sourced(q, parse, chunk, c, e)
    ensures c in q.countries
    ensures q.choose != "" ==> e.category == q.choose
  {
    var r :| r in chunk && Selected(q, r) && r.country == Some(c) && r.category == Some(e.category);
    assert IsIn(r.country, q.countries);
    if q.choose != "" {
      assert IsIn(r.category, [q.choose]);
    }
  }

  /** The keys of the result, in insertion order, are accepted countries,
      each once. */
  lemma ExtractShape<V>(q: Criteria, parse: string -> Option<V>, read: Read<Row>)
    ensures WellFormed(Extract(q, parse, read))
    ensures forall c :: c in Extract(q, parse, read).order ==> c in q.countries
  {
    if read.failure.None? {
      var gss := GroupedChunks(q, parse, read.chunks);
      MergeAllExtends(gss, 0);
      var m := Extract(q, parse, read);
      forall c | c in m.order ensures c in q.countries {
        ExtractSound(q, parse, read, c, m.lists[c][0]);
      }
    }
  }

  /** With a full read, a country's list is every grouped row for it, over
      all chunks in order, and its length their number. */
  lemma ExtractContents<V>(q: Criteria, parse: string -> Option<V>, chunks: seq<seq<Row>>, c: string)
    ensures ListOf(Extract(q, parse, Read(chunks, None)), c) == AllEntriesOf(c, GroupedChunks(q, parse, chunks))
    ensures |ListOf(Extract(q, parse, Read(chunks, None)), c)| == GroupedCount(c, GroupedChunks(q, parse, chunks))
    ensures c in Extract(q, parse, Read(chunks, None)).lists <==> GroupedCount(c, GroupedChunks(q, parse, chunks)) > 0
  {
    var gss := GroupedChunks(q, parse, chunks);
    MergeAllContents(gss, c);
    AllEntriesCount(gss, c);
  }

  /** Every grouped row of every chunk is among its country's entries. */
  lemma {:induction false} AllEntriesComplete<V>(gss: seq<seq<Group<V>>>, i: nat, g: Group<V>)
    requires i < |gss| && g in gss[i]
    ensures AsEntry(g) in AllEntriesOf(g.country, gss)
    decreases |gss|
  {
    var init, last := gss[..|gss| - 1], gss[|gss| - 1];
    if i < |init| {
      assert init[i] == gss[i];
      AllEntriesComplete(init, i, g);
    } else {
      var fs := Filter(last, CountryMask(g.country));
      assert g in fs;
      var k :| 0 <= k < |fs| && fs[k] == g;
      assert EntriesOf(g.country, last)[k] == AsEntry(g);
    }
  }

  /** A selected row of some chunk, with its sex cell present and no
      earlier selected row of the same deduplication key in its chunk,
      has its sex listed for its country. */
  lemma ExtractListsSelected<V>(q: Criteria, parse: string -> Option<V>, chunks: seq<seq<Row>>, i: nat,
                                xs: seq<Row>, r: Row, ys: seq<Row>)
    requires i < |chunks| && chunks[i] == xs + [r] + ys
    requires Selected(q, r) && r.category.Some?
    requires forall x :: x in xs && Selected(q, x) ==> DedupKey(parse, q.choose)(x) != DedupKey(parse, q.choose)(r)
    ensures r.country.value in Extract(q, parse, Read(chunks, None)).lists
    ensures HasLabel(Extract(q, parse, Read(chunks, None)).lists[r.country.value], r.category.value)
  {
    var gss := GroupedChunks(q, parse, chunks);
    var c, sex := r.country.value, r.category.value;
    var gs := gss[i];
    assert (c, sex) in Keys(gs) by { GroupedComplete(q, parse, xs, r, ys); }
    var n :| 0 <= n < |Keys(gs)| && Keys(gs)[n] == (c, sex);
    var g := gs[n];
    assert g.country == c && g.category == sex by { assert GroupKey(g) == (c, sex); }
    var m := Extract(q, parse, Read(chunks, None));
    assert AsEntry(g) in ListOf(m, c) by {
      AllEntriesComplete(gss, i, g);
      ExtractContents(q, parse, chunks, c);
    }
    var k :| 0 <= k < |ListOf(m, c)| && ListOf(m, c)[k] == AsEntry(g);
  }

  lemma GroupedChunksPrefix<V>(q: Criteria, parse: string -> Option<V>, chunks: seq<seq<Row>>, n: nat)
    requires n <= |chunks|
    ensures GroupedChunks(q, parse, chunks[..n]) == GroupedChunks(q, parse, chunks)[..n]
  {
  }

  /** Reading further chunks only appends: the dictionary built from the
      first `n` chunks is extended, never altered, by the rest. */
  lemma ExtractAppends<V>(q: Criteria, parse: string -> Option<V>, chunks: seq<seq<Row>>, n: nat)
    requires n <= |chunks|
    ensures Extends(Extract(q, parse, Read(chunks[..n], None)), Extract(q, parse, Read(chunks, None)))
  {
    GroupedChunksPrefix(q, parse, chunks, n);
    MergeAllExtends(GroupedChunks(q, parse, chunks), n);
  }

  /** No uniqueness check: a chunk read again appends its grouped rows a
      second time. */
  lemma ExtractRepeatedChunk<V>(q: Criteria, parse: string -> Option<V>, chunks: seq<seq<Row>>, i: nat, c: string)
    requires i < |chunks|
    ensures ListOf(Extract(q, parse, Read(chunks + [chunks[i]], None)), c) ==
            ListOf(Extract(q, parse, Read(chunks, None)), c) + EntriesOf(c, Grouped(q, parse, chunks[i]))
  {
    var more := chunks + [chunks[i]];
    ExtractContents(q, parse, more, c);
    ExtractContents(q, parse, chunks, c);
    var gss := GroupedChunks(q, parse, more);
    assert gss[..|gss| - 1] == GroupedChunks(q, parse, chunks);
  }

  // ---------------------------------------------------------------------
  // Rows the selections reject.

  /** A row outside the accepted countries or age groups, of another sex
      than `choose`, or not for 2020 has no effect on its chunk's grouped
      result, whatever its other cells hold. */
  lemma UnselectedRowIgnored<V>(q: Criteria, parse: string -> Option<V>, xs: seq<Row>, r: Row, ys: seq<Row>)
    requires !Selected(q, r)
    ensures Grouped(q, parse, xs + [r] + ys) == Grouped(q, parse, xs + ys)
  {
    assert Filter(xs + [r] + ys, SelectedMask(q)) == Filter(xs + ys, SelectedMask(q)) by {
      FilterSkipsRejected(xs, r, ys, SelectedMask(q));
    }
  }

  /** The same, for the whole call. */
  lemma ExtractIgnoresUnselected<V>(q: Criteria, parse: string -> Option<V>, read: Read<Row>, i: nat,
                                    xs: seq<Row>, r: Row, ys: seq<Row>)
    requires i < |read.chunks| && read.chunks[i] == xs + [r] + ys
    requires !Selected(q, r)
    ensures Extract(q, parse, read) == Extract(q, parse, read.(chunks := read.chunks[i := xs + ys]))
  {
    var chunks := read.chunks[i := xs + ys];
    var before, after := GroupedChunks(q, parse, read.chunks), GroupedChunks(q, parse, chunks);
    forall j | 0 <= j < |before| ensures before[j] == after[j] {
      if j == i {
        UnselectedRowIgnored(q, parse, xs, r, ys);
      }
    }
    assert before == after;
  }
}
