/** `extract_countries_and_values` of the education-and-income script:
    each chunk of the CSV file is narrowed to the accepted countries and
    education levels, to women and to the year 2020, deduplicated,
    stripped of incomplete rows, optionally restricted to one income
    bracket, grouped by (country, education level), and folded into a
    dictionary in which every country lists each education level once,
    with the value seen first. */
module EducationIncome {
  import opened Text
  import opened Frame
  import opened Results

  /** One row of a chunk, already restricted to the columns the
      function reads (`usecols`). */
  datatype Row = Row(
    country: Option<string>,    // the `countries` column
    category: Option<string>,   // the `education_type` column
    value: Option<string>,      // the `column_values` column, as text
    income: Option<string>,     // the `income` column; only read when that name is not empty
    sex: Option<string>,        // the 'Sex' column
    period: Option<int>)        // the `period` column

  /** The call-site arguments that decide which rows count; `income` is
      the name of the income column, empty for "no income filter". */
  datatype Criteria = Criteria(countries: seq<string>, categories: seq<string>, income: string)

  const SEXES: seq<string> := ["Female"]
  const PERIODS: seq<int> := [2020]
  const INCOME_QUALIFIER: string := Lower("above 100% of median income")

  /** The four `isin` selections every row must pass. */
  predicate Selected(q: Criteria, r: Row) {
    && IsIn(r.country, q.countries)
    && IsIn(r.category, q.categories)
    && IsIn(r.sex, SEXES)
    && IsIn(r.period, PERIODS)
  }

  /** `dropna` on the education level, the value and, when there is an
      income column, the income. */
  predicate Complete(q: Criteria, r: Row) {
    r.category.Some? && r.value.Some? && (q.income != "" ==> r.income.Some?)
  }

  /** The income bracket test, applied only when there is an income column. */
  predicate Qualified(q: Criteria, r: Row) {
    q.income == "" || (r.income.Some? && Normalize(r.income.value) == INCOME_QUALIFIER)
  }

  /** A row that passes every test of the pipeline. */
  predicate Contributes(q: Criteria, r: Row) {
    Selected(q, r) && Complete(q, r) && Qualified(q, r)
  }

  function SelectedMask(q: Criteria): Row -> bool {
    (r: Row) => Selected(q, r)
  }

  function CompleteMask(q: Criteria): Row -> bool {
    (r: Row) => Complete(q, r)
  }

  function QualifiedMask(q: Criteria): Row -> bool {
    (r: Row) => Qualified(q, r)
  }

  /** The deduplication key before `pd.to_numeric`: the value as text. */
  function TextKey(r: Row): (Option<string>, Option<string>, Option<string>) {
    (r.country, r.category, r.value)
  }

  /** The deduplication key after `pd.to_numeric`: the converted value. */
  function NumericKey<V>(parse: string -> Option<V>): Row -> (Option<string>, Option<string>, Option<V>) {
    (r: Row) => (r.country, r.category, ToNumeric(parse, r.value))
  }

  /** The rows of one chunk that pass the `isin` selections, with the
      duplicates of their text cells removed. */
  function Unique(q: Criteria, chunk: seq<Row>): (rows: seq<Row>)
    ensures forall i :: 0 <= i < |rows| ==> rows[i] in chunk && Selected(q, rows[i])
  {
    DropDuplicates(Filter(chunk, SelectedMask(q)), TextKey)
  }

  /** Those rows, without missing cells and in the wanted income bracket. */
  function Cleaned(q: Criteria, chunk: seq<Row>): (rows: seq<Row>)
    ensures forall i :: 0 <= i < |rows| ==> rows[i] in chunk && Contributes(q, rows[i])
  {
    Filter(Filter(Unique(q, chunk), CompleteMask(q)), QualifiedMask(q))
  }

  /** The rows of one chunk that reach the `groupby`. */
  function Survivors<V(==)>(q: Criteria, parse: string -> Option<V>, chunk: seq<Row>): (rows: seq<Row>)
    ensures forall i :: 0 <= i < |rows| ==> rows[i] in chunk && Contributes(q, rows[i])
  {
    DropDuplicates(Cleaned(q, chunk), NumericKey(parse))
  }

  /** The surviving rows as the `groupby` sees them, the value column
      converted by `pd.to_numeric`. */
  function ToKeyed<V>(parse: string -> Option<V>, rows: seq<Row>): seq<Keyed<V>>
  {
    seq(|rows|, i requires 0 <= i < |rows| => Keyed(rows[i].country, rows[i].category, ToNumeric(parse, rows[i].value)))
  }

  /** `chunk_result`: one row per (country, education level) of the
      surviving rows, in key order, with the first non-missing value. */
  function Grouped<V(==)>(q: Criteria, parse: string -> Option<V>, chunk: seq<Row>): seq<Group<V>> {
    GroupFirst(ToKeyed(parse, Survivors(q, parse, chunk)))
  }

  /** Each chunk's grouped result has one row per (country, education
      level), each with the first non-missing value among that pair's
      surviving rows. */
  lemma GroupedOnePerKey<V>(q: Criteria, parse: string -> Option<V>, chunk: seq<Row>)
    ensures DistinctGroupKeys(Grouped(q, parse, chunk))
    ensures forall i :: 0 <= i < |Grouped(q, parse, chunk)| ==>
              Grouped(q, parse, chunk)[i].value ==
              FirstValue(ToKeyed(parse, Survivors(q, parse, chunk)), GroupKey(Grouped(q, parse, chunk)[i]))
  {
    GroupFirstDistinct(ToKeyed(parse, Survivors(q, parse, chunk)));
  }

  /** A selected row with no earlier selected row of the same country,
      education level and value text survives the first deduplication. */
  lemma UniqueKeeps(q: Criteria, xs: seq<Row>, r: Row, ys: seq<Row>)
    requires Selected(q, r)
    requires forall x :: x in xs && Selected(q, x) ==> TextKey(x) != TextKey(r)
    ensures r in Unique(q, xs + [r] + ys)
  {
    var mask := SelectedMask(q);
    var fx, fy := Filter(xs, mask), Filter(ys, mask);
    var sel := fx + [r] + fy;
    assert Filter(xs + [r] + ys, mask) == sel by {
      FilterAppend(xs + [r], ys, mask);
      FilterAppend(xs, [r], mask);
      FilterSingle(r, mask);
    }
    assert sel[|fx|] == r;
    forall j | 0 <= j < |fx| ensures TextKey(sel[j]) != TextKey(sel[|fx|]) {
      assert sel[j] == fx[j];
    }
    DropDuplicatesKeepsFirst(sel, TextKey, |fx|);
  }

  /** Such a row, if it passes every test, also passes `dropna` and the
      bracket test. */
  lemma CleanedKeeps(q: Criteria, chunk: seq<Row>, r: Row)
    requires r in Unique(q, chunk) && Contributes(q, r)
    ensures r in Cleaned(q, chunk)
  {
    var u := Unique(q, chunk);
    var i :| 0 <= i < |u| && u[i] == r;
    var c := Filter(u, CompleteMask(q));
    assert r in c;
    var j :| 0 <= j < |c| && c[j] == r;
    assert c[j] in Filter(c, QualifiedMask(q));
  }

  /** A row that passes every test, with no earlier selected row of the
      same country, education level and value text in its chunk, has its
      (country, education level) grouped. */
  lemma GroupedComplete<V>(q: Criteria, parse: string -> Option<V>, xs: seq<Row>, r: Row, ys: seq<Row>)
    requires Contributes(q, r)
    requires forall x :: x in xs && Selected(q, x) ==> TextKey(x) != TextKey(r)
    ensures (r.country.value, r.category.value) in Keys(Grouped(q, parse, xs + [r] + ys))
  {
    var chunk := xs + [r] + ys;
    UniqueKeeps(q, xs, r, ys);
    CleanedKeeps(q, chunk, r);
    var cl := Cleaned(q, chunk);
    var i :| 0 <= i < |cl| && cl[i] == r;
    var sv := Survivors(q, parse, chunk);
    assert KeyIn(sv, NumericKey(parse), NumericKey(parse)(cl[i]));
    var j :| 0 <= j < |sv| && NumericKey(parse)(sv[j]) == NumericKey(parse)(r);
    var ks := ToKeyed(parse, sv);
    assert KeyOf(ks[j]) == Some((r.country.value, r.category.value));
    assert HasKey(ks, (r.country.value, r.category.value));
  }

  /** Some row of `chunk` that passes every test is behind the entry `e`
      of country `c`, and a present value is the converted value of such
      a row. */
  ghost predicate Sourced<V>(q: Criteria, parse: string -> Option<V>, chunk: seq<Row>, c: string, e: Entry<V>) {
    && (exists r :: r in chunk && Contributes(q, r) && r.country == Some(c) && r.category == Some(e.category))
    && (e.value.Some? ==>
          exists r :: r in chunk && Contributes(q, r) && r.country == Some(c) && r.category == Some(e.category) &&
                      ToNumeric(parse, r.value) == e.value)
  }

  lemma GroupedSource<V>(q: Criteria, parse: string -> Option<V>, chunk: seq<Row>, g: Group<V>)
    requires g in Grouped(q, parse, chunk)
    ensures Sourced(q, parse, chunk, g.country, Entry(g.category, g.value))
  {
    var rows := Survivors(q, parse, chunk);
    var ks := ToKeyed(parse, rows);
    GroupFirstSource(ks, g);
    assert |ks| == |rows|;
    var i :| 0 <= i < |ks| && KeyOf(ks[i]) == Some(GroupKey(g));
    assert ks[i] == Keyed(rows[i].country, rows[i].category, ToNumeric(parse, rows[i].value));
    assert rows[i] in chunk && Contributes(q, rows[i]);
    if g.value.Some? {
      var j :| 0 <= j < |ks| && KeyOf(ks[j]) == Some(GroupKey(g)) && ks[j].value == g.value;
      assert ks[j] == Keyed(rows[j].country, rows[j].category, ToNumeric(parse, rows[j].value));
      assert rows[j] in chunk && Contributes(q, rows[j]);
    }
  }

  /** One pass of the inner loop: the first entry for a country creates
      its list; a later one is appended only if the country has no entry
      with that education level yet. */
  function MergeGroup<V>(m: Mapping<V>, g: Group<V>): Mapping<V> {
    if g.country in m.lists && HasLabel(m.lists[g.country], g.category) then m
    else AddEntry(m, g.country, Entry(g.category, g.value))
  }

  /** The inner loop over `chunk_result.iterrows()`. */
  function MergeGroups<V>(m: Mapping<V>, gs: seq<Group<V>>): Mapping<V>
    decreases |gs|
  {
    if gs == [] then m else MergeGroup(MergeGroups(m, gs[..|gs| - 1]), gs[|gs| - 1])
  }

  /** The outer loop over the chunks, given each chunk's grouped result. */
  function MergeAll<V>(gss: seq<seq<Group<V>>>): Mapping<V>
    decreases |gss|
  {
    if gss == [] then Empty() else MergeGroups(MergeAll(gss[..|gss| - 1]), gss[|gss| - 1])
  }

  /** The grouped result of every chunk, in reading order. */
  function GroupedChunks<V(==)>(q: Criteria, parse: string -> Option<V>, chunks: seq<seq<Row>>): seq<seq<Group<V>>>
  {
    seq(|chunks|, i requires 0 <= i < |chunks| => Grouped(q, parse, chunks[i]))
  }

  /** The value of the whole call: any error raised while reading
      discards everything merged so far. */
  function Extract<V(==)>(q: Criteria, parse: string -> Option<V>, read: Read<Row>): (m: Mapping<V>)
    ensures read.failure.Some? ==> m.order == [] && m.lists == map[]
  {
    if read.failure.Some? then Empty() else MergeAll(GroupedChunks(q, parse, read.chunks))
  }

  /** The inner loop: merges one chunk's grouped rows into `result`. */
  method MergeChunk<V>(m: Mapping<V>, chunkResult: seq<Group<V>>) returns (result: Mapping<V>)
    ensures result == MergeGroups(m, chunkResult)
  {
    result := m;
    var j := 0;
    while j < |chunkResult|
      invariant j <= |chunkResult|
      invariant result == MergeGroups(m, chunkResult[..j])
    {
      var g := chunkResult[j];
      if g.country !in result.lists {
        result := Mapping(result.order + [g.country], result.lists[g.country := [Entry(g.category, g.value)]]);
      } else if !HasLabel(result.lists[g.country], g.category) {
        result := Mapping(result.order, result.lists[g.country := result.lists[g.country] + [Entry(g.category, g.value)]]);
      }
      assert chunkResult[..j + 1][..j] == chunkResult[..j];
      j := j + 1;
    }
    assert chunkResult[..j] == chunkResult;
  }

  lemma MergeAllSnoc<V>(gss: seq<seq<Group<V>>>, i: nat)
    requires i < |gss|
    ensures MergeAll(gss[..i + 1]) == MergeGroups(MergeAll(gss[..i]), gss[i])
  {
    assert gss[..i + 1][..i] == gss[..i];
  }

  /** `extract_countries_and_values`: the outer loop over the chunks the
      reader yields, inside the `try` whose handlers return `{}`. */
  method ExtractCountriesAndValues<V(==)>(q: Criteria, parse: string -> Option<V>, read: Read<Row>)
    returns (result: Mapping<V>)
    ensures result == Extract(q, parse, read)
  {
    ghost var gss := GroupedChunks(q, parse, read.chunks);
    result := Empty();
    var i := 0;
    while i < |read.chunks|
      invariant i <= |read.chunks|
      invariant result == MergeAll(gss[..i])
    {
      var chunkResult := Grouped(q, parse, read.chunks[i]);
      MergeAllSnoc(gss, i);
      result := MergeChunk(result, chunkResult);
      i := i + 1;
    }
    assert gss[..i] == gss;
    if read.failure.Some? {
      result := Empty();
    }
  }

  // ---------------------------------------------------------------------
  // The merge only appends.

  lemma {:induction false} MergeGroupsExtends<V>(m: Mapping<V>, gs: seq<Group<V>>)
    ensures Extends(m, MergeGroups(m, gs))
    ensures WellFormed(m) ==> WellFormed(MergeGroups(m, gs))
    decreases |gs|
  {
    if gs == [] {
      ExtendsReflexive(m);
    } else {
      var mid := MergeGroups(m, gs[..|gs| - 1]);
      MergeGroupsExtends(m, gs[..|gs| - 1]);
      AddEntryExtends(mid, gs[|gs| - 1].country, Entry(gs[|gs| - 1].category, gs[|gs| - 1].value));
      ExtendsReflexive(mid);
      ExtendsTransitive(m, mid, MergeGroups(m, gs));
    }
  }

  lemma {:induction false} MergeGroupsAppend<V>(m: Mapping<V>, a: seq<Group<V>>, b: seq<Group<V>>)
    ensures MergeGroups(m, a + b) == MergeGroups(MergeGroups(m, a), b)
    decreases |b|
  {
    if b == [] {
      assert a + b == a;
    } else {
      assert (a + b)[..|a + b| - 1] == a + b[..|b| - 1];
      MergeGroupsAppend(m, a, b[..|b| - 1]);
    }
  }

  lemma MergeGroupsPrefix<V>(m: Mapping<V>, gs: seq<Group<V>>, n: nat)
    requires n <= |gs|
    ensures Extends(MergeGroups(m, gs[..n]), MergeGroups(m, gs))
  {
    var before := MergeGroups(m, gs[..n]);
    assert MergeGroups(m, gs) == MergeGroups(before, gs[n..]) by {
      TakeDrop(gs, n);
      MergeGroupsAppend(m, gs[..n], gs[n..]);
    }
    MergeGroupsExtends(before, gs[n..]);
  }

  /** Merging more chunks never removes a country, never reorders the
      keys, and keeps every country's earlier entries, in order, as a
      prefix of its list. */
  lemma {:induction false} MergeAllExtends<V>(gss: seq<seq<Group<V>>>, n: nat)
    requires n <= |gss|
    ensures Extends(MergeAll(gss[..n]), MergeAll(gss))
    ensures WellFormed(MergeAll(gss))
    decreases |gss|
  {
    if gss == [] {
      ExtendsReflexive(MergeAll(gss[..n]));
    } else {
      var init := gss[..|gss| - 1];
      MergeGroupsExtends(MergeAll(init), gss[|gss| - 1]);
      if n == |gss| {
        assert gss[..n] == gss;
        ExtendsReflexive(MergeAll(gss));
      } else {
        assert init[..n] == gss[..n];
        MergeAllExtends(init, n);
        ExtendsTransitive(MergeAll(gss[..n]), MergeAll(init), MergeAll(gss));
      }
      MergeAllExtends(init, 0);
    }
  }

  lemma ExtendsKeepsLabel<V>(m: Mapping<V>, m': Mapping<V>, c: string, category: string)
    requires Extends(m, m') && c in m.lists && HasLabel(m.lists[c], category)
    ensures c in m'.lists && HasLabel(m'.lists[c], category)
  {
    var i :| 0 <= i < |m.lists[c]| && m.lists[c][i].category == category;
    assert m'.lists[c][i] == m.lists[c][i];
  }

  lemma ExtendsKeepsEntry<V>(m: Mapping<V>, m': Mapping<V>, c: string, e: Entry<V>)
    requires Extends(m, m') && c in m.lists && e in m.lists[c]
    ensures c in m'.lists && e in m'.lists[c]
  {
    var i :| 0 <= i < |m.lists[c]| && m.lists[c][i] == e;
    assert m'.lists[c][i] == m.lists[c][i];
  }

  // ---------------------------------------------------------------------
  // Each country lists each education level at most once.

  ghost predicate UniqueLabels<V>(m: Mapping<V>) {
    forall c, i, j :: c in m.lists && 0 <= i < j < |m.lists[c]| ==> m.lists[c][i].category != m.lists[c][j].category
  }

  lemma {:induction false} MergeGroupsUnique<V>(m: Mapping<V>, gs: seq<Group<V>>)
    requires UniqueLabels(m)
    ensures UniqueLabels(MergeGroups(m, gs))
    decreases |gs|
  {
    if gs != [] {
      MergeGroupsUnique(m, gs[..|gs| - 1]);
      var mid := MergeGroups(m, gs[..|gs| - 1]);
      var g := gs[|gs| - 1];
      var r := MergeGroups(m, gs);
      if !(g.country in mid.lists && HasLabel(mid.lists[g.country], g.category)) {
        forall c, i, j | c in r.lists && 0 <= i < j < |r.lists[c]|
          ensures r.lists[c][i].category != r.lists[c][j].category
        {
          if c == g.country && j == |r.lists[c]| - 1 && c in mid.lists {
            assert r.lists[c][i] == mid.lists[c][i];
          }
        }
      }
    }
  }

  lemma {:induction false} MergeAllUnique<V>(gss: seq<seq<Group<V>>>)
    ensures UniqueLabels(MergeAll(gss))
    decreases |gss|
  {
    if gss != [] {
      MergeAllUnique(gss[..|gss| - 1]);
      MergeGroupsUnique(MergeAll(gss[..|gss| - 1]), gss[|gss| - 1]);
    }
  }

  // ---------------------------------------------------------------------
  // Where entries come from, and which one wins.

  lemma {:induction false} MergeGroupsSource<V>(m: Mapping<V>, gs: seq<Group<V>>, c: string, e: Entry<V>)
    requires c in MergeGroups(m, gs).lists && e in MergeGroups(m, gs).lists[c]
    ensures (c in m.lists && e in m.lists[c]) || Group(c, e.category, e.value) in gs
    decreases |gs|
  {
    if gs != [] {
      var init := gs[..|gs| - 1];
      var mid := MergeGroups(m, init);
      var g := gs[|gs| - 1];
      if c in mid.lists && e in mid.lists[c] {
        MergeGroupsSource(m, init, c, e);
        if !(c in m.lists && e in m.lists[c]) {
          assert Group(c, e.category, e.value) in init;
        }
      } else {
        assert g == Group(c, e.category, e.value);
      }
    }
  }

  /** Every entry of the result is a row of some chunk's grouped result. */
  lemma {:induction false} MergeAllSource<V>(gss: seq<seq<Group<V>>>, c: string, e: Entry<V>)
    requires c in MergeAll(gss).lists && e in MergeAll(gss).lists[c]
    ensures exists i :: 0 <= i < |gss| && Group(c, e.category, e.value) in gss[i]
    decreases |gss|
  {
    var init := gss[..|gss| - 1];
    MergeGroupsSource(MergeAll(init), gss[|gss| - 1], c, e);
    if c in MergeAll(init).lists && e in MergeAll(init).lists[c] {
      MergeAllSource(init, c, e);
      var i :| 0 <= i < |init| && Group(c, e.category, e.value) in init[i];
      assert init[i] == gss[i];
    }
  }

  /** After the inner loop, every grouped row's education level is listed
      for its country. */
  lemma MergeGroupsHasLabel<V>(m: Mapping<V>, gs: seq<Group<V>>, k: nat)
    requires k < |gs|
    ensures gs[k].country in MergeGroups(m, gs).lists && HasLabel(MergeGroups(m, gs).lists[gs[k].country], gs[k].category)
  {
    var g := gs[k];
    var upto := MergeGroups(m, gs[..k + 1]);
    assert gs[..k + 1][..k] == gs[..k];
    var mid := MergeGroups(m, gs[..k]);
    if !(g.country in mid.lists && HasLabel(mid.lists[g.country], g.category)) {
      var l := upto.lists[g.country];
      assert l[|l| - 1].category == g.category;
    }
    MergeGroupsPrefix(m, gs, k + 1);
    ExtendsKeepsLabel(upto, MergeGroups(m, gs), g.country, g.category);
  }

  lemma MergeAllComplete<V>(gss: seq<seq<Group<V>>>, i: nat, g: Group<V>)
    requires i < |gss| && g in gss[i]
    ensures g.country in MergeAll(gss).lists && HasLabel(MergeAll(gss).lists[g.country], g.category)
  {
    var gs := gss[i];
    var k :| 0 <= k < |gs| && gs[k] == g;
    assert gss[..i + 1][..i] == gss[..i];
    MergeGroupsHasLabel(MergeAll(gss[..i]), gs, k);
    MergeAllExtends(gss, i + 1);
    ExtendsKeepsLabel(MergeAll(gss[..i + 1]), MergeAll(gss), g.country, g.category);
  }

  /** A country without an education level keeps lacking it while no
      grouped row brings that (country, level) pair. */
  lemma {:induction false} MergeGroupsKeepsAbsent<V>(m: Mapping<V>, gs: seq<Group<V>>, c: string, category: string)
    requires !(c in m.lists && HasLabel(m.lists[c], category))
    requires forall h :: h in gs ==> GroupKey(h) != (c, category)
    ensures !(c in MergeGroups(m, gs).lists && HasLabel(MergeGroups(m, gs).lists[c], category))
    decreases |gs|
  {
    if gs != [] {
      MergeGroupsKeepsAbsent(m, gs[..|gs| - 1], c, category);
      var mid := MergeGroups(m, gs[..|gs| - 1]);
      var g := gs[|gs| - 1];
      var r := MergeGroups(m, gs);
      if g.country == c && c in r.lists {
        assert GroupKey(g) != (c, category);
        var old' := if c in mid.lists then mid.lists[c] else [];
        assert r.lists[c] == old' || r.lists[c] == old' + [Entry(g.category, g.value)];
        forall j | 0 <= j < |r.lists[c]| ensures r.lists[c][j].category != category {
          if j < |old'| {
            assert r.lists[c][j] == old'[j];
          }
        }
      }
    }
  }

  /** No chunk before the `i`-th grouped `g`'s key, so the dictionary built
      from those chunks lacks that (country, education level) pair. */
  lemma MergeAllLacks<V>(gss: seq<seq<Group<V>>>, i: nat, g: Group<V>)
    requires i <= |gss|
    requires forall j, h :: 0 <= j < i && h in gss[j] ==> GroupKey(h) != GroupKey(g)
    ensures !(g.country in MergeAll(gss[..i]).lists && HasLabel(MergeAll(gss[..i]).lists[g.country], g.category))
  {
    var before := MergeAll(gss[..i]);
    if g.country in before.lists {
      forall k | 0 <= k < |before.lists[g.country]| ensures before.lists[g.country][k].category != g.category {
        var e := before.lists[g.country][k];
        assert e in before.lists[g.country];
        MergeAllSource(gss[..i], g.country, e);
        var j :| 0 <= j < i && Group(g.country, e.category, e.value) in gss[..i][j];
        assert gss[..i][j] == gss[j];
        assert GroupKey(Group(g.country, e.category, e.value)) != GroupKey(g);
      }
    }
  }

  /** Within one chunk, whose grouped keys are distinct, a pair the
      dictionary lacks gets exactly the entry of its grouped row. */
  lemma MergeGroupsFirstSeen<V>(m: Mapping<V>, gs: seq<Group<V>>, k: nat)
    requires k < |gs| && DistinctGroupKeys(gs)
    requires !(gs[k].country in m.lists && HasLabel(m.lists[gs[k].country], gs[k].category))
    ensures gs[k].country in MergeGroups(m, gs).lists
    ensures Entry(gs[k].category, gs[k].value) in MergeGroups(m, gs).lists[gs[k].country]
  {
    var g := gs[k];
    var upto := MergeGroups(m, gs[..k + 1]);
    assert g.country in upto.lists && Entry(g.category, g.value) in upto.lists[g.country] by {
      forall h | h in gs[..k] ensures GroupKey(h) != GroupKey(g) {
        var a :| 0 <= a < k && gs[a] == h;
      }
      MergeGroupsKeepsAbsent(m, gs[..k], g.country, g.category);
      assert gs[..k + 1][..k] == gs[..k];
      var l := upto.lists[g.country];
      assert l[|l| - 1] == Entry(g.category, g.value);
    }
    MergeGroupsPrefix(m, gs, k + 1);
    ExtendsKeepsEntry(upto, MergeGroups(m, gs), g.country, Entry(g.category, g.value));
  }

  /** First seen wins: the grouped row of the first chunk that has a
      (country, education level) pair is the entry listed for it. */
  lemma MergeAllFirstSeen<V>(gss: seq<seq<Group<V>>>, i: nat, g: Group<V>)
    requires i < |gss| && g in gss[i] && DistinctGroupKeys(gss[i])
    requires !(g.country in MergeAll(gss[..i]).lists && HasLabel(MergeAll(gss[..i]).lists[g.country], g.category))
    ensures g.country in MergeAll(gss).lists
    ensures Entry(g.category, g.value) in MergeAll(gss).lists[g.country]
  {
    var upto := MergeAll(gss[..i + 1]);
    assert g.country in upto.lists && Entry(g.category, g.value) in upto.lists[g.country] by {
      var k :| 0 <= k < |gss[i]| && gss[i][k] == g;
      MergeGroupsFirstSeen(MergeAll(gss[..i]), gss[i], k);
      MergeAllSnoc(gss, i);
    }
    MergeAllExtends(gss, i + 1);
    ExtendsKeepsEntry(upto, MergeAll(gss), g.country, Entry(g.category, g.value));
  }

  // ---------------------------------------------------------------------
  // The properties of the whole call.

  /** Every country of the result is one of the accepted countries, every
      education level one of the accepted levels, and each entry goes
      back to a row of some chunk for a woman, for 2020, with its value
      and (with an income column) the wanted income bracket present. A
      failed read gives the empty dictionary. */
  lemma ExtractSound<V>(q: Criteria, parse: string -> Option<V>, read: Read<Row>, c: string, e: Entry<V>)
    requires c in Extract(q, parse, read).lists && e in Extract(q, parse, read).lists[c]
    ensures read.failure.None?
    ensures c in q.countries && e.category in q.categories
    ensures exists i :: 0 <= i < |read.chunks| && Sourced(q, parse, read.chunks[i], c, e)
  {
    var gss := GroupedChunks(q, parse, read.chunks);
    MergeAllSource(gss, c, e);
    var i :| 0 <= i < |gss| && Group(c, e.category, e.value) in gss[i];
    GroupedSource(q, parse, read.chunks[i], Group(c, e.category, e.value));
  }

  /** The keys of the result, in insertion order, are accepted countries,
      each once, and within a country no education level repeats. */
  lemma ExtractShape<V>(q: Criteria, parse: string -> Option<V>, read: Read<Row>)
    ensures WellFormed(Extract(q, parse, read)) && UniqueLabels(Extract(q, parse, read))
    ensures forall c :: c in Extract(q, parse, read).order ==> c in q.countries
  {
    if read.failure.None? {
      var gss := GroupedChunks(q, parse, read.chunks);
      MergeAllExtends(gss, 0);
      MergeAllUnique(gss);
      var m := Extract(q, parse, read);
      forall c | c in m.order ensures c in q.countries {
        ExtractSound(q, parse, read, c, m.lists[c][0]);
      }
    }
  }

  lemma GroupedChunksPrefix<V>(q: Criteria, parse: string -> Option<V>, chunks: seq<seq<Row>>, n: nat)
    requires n <= |chunks|
    ensures GroupedChunks(q, parse, chunks[..n]) == GroupedChunks(q, parse, chunks)[..n]
  {
  }

  /** Reading further chunks only appends: the dictionary built from the
      first `n` chunks is extended, never altered, by the rest. */
  lemma ExtractAppends<V>(q: Criteria, parse: string -> Option<V>, chunks: seq<seq<Row>>, n: nat)
    requires n <= |chunks|
    ensures Extends(Extract(q, parse, Read(chunks[..n], None)), Extract(q, parse, Read(chunks, None)))
  {
    GroupedChunksPrefix(q, parse, chunks, n);
    MergeAllExtends(GroupedChunks(q, parse, chunks), n);
  }

  /** Every (country, education level) grouped in some chunk is listed;
      the entry listed is the one of the first chunk that grouped it. */
  lemma ExtractFirstSeenWins<V>(q: Criteria, parse: string -> Option<V>, chunks: seq<seq<Row>>, i: nat, g: Group<V>)
    requires i < |chunks| && g in Grouped(q, parse, chunks[i])
    requires forall j, h :: 0 <= j < i && h in Grouped(q, parse, chunks[j]) ==> GroupKey(h) != GroupKey(g)
    ensures g.country in Extract(q, parse, Read(chunks, None)).lists
    ensures Entry(g.category, g.value) in Extract(q, parse, Read(chunks, None)).lists[g.country]
  {
    var gss := GroupedChunks(q, parse, chunks);
    GroupFirstDistinct(ToKeyed(parse, Survivors(q, parse, chunks[i])));
    MergeAllLacks(gss, i, g);
    MergeAllFirstSeen(gss, i, g);
  }

  lemma ExtractComplete<V>(q: Criteria, parse: string -> Option<V>, chunks: seq<seq<Row>>, i: nat, g: Group<V>)
    requires i < |chunks| && g in Grouped(q, parse, chunks[i])
    ensures g.country in Extract(q, parse, Read(chunks, None)).lists
    ensures HasLabel(Extract(q, parse, Read(chunks, None)).lists[g.country], g.category)
  {
    MergeAllComplete(GroupedChunks(q, parse, chunks), i, g);
  }

  /** A row of some chunk that passes every test, with no earlier selected
      row of the same country, education level and value text in its
      chunk, has its education level listed for its country. */
  lemma ExtractListsContributing<V>(q: Criteria, parse: string -> Option<V>, chunks: seq<seq<Row>>, i: nat,
                                    xs: seq<Row>, r: Row, ys: seq<Row>)
    requires i < |chunks| && chunks[i] == xs + [r] + ys
    requires Contributes(q, r)
    requires forall x :: x in xs && Selected(q, x) ==> TextKey(x) != TextKey(r)
    ensures r.country.value in Extract(q, parse, Read(chunks, None)).lists
    ensures HasLabel(Extract(q, parse, Read(chunks, None)).lists[r.country.value], r.category.value)
  {
    GroupedComplete(q, parse, xs, r, ys);
    var gs := Grouped(q, parse, chunks[i]);
    var n :| 0 <= n < |Keys(gs)| && Keys(gs)[n] == (r.country.value, r.category.value);
    ExtractComplete(q, parse, chunks, i, gs[n]);
  }

  /** Grouped rows whose education level their country already lists
      change nothing. */
  lemma {:induction false} MergeGroupsNoop<V>(m: Mapping<V>, hs: seq<Group<V>>)
    requires forall h :: h in hs ==> h.country in m.lists && HasLabel(m.lists[h.country], h.category)
    ensures MergeGroups(m, hs) == m
    decreases |hs|
  {
    if hs != [] {
      assert forall h :: h in hs[..|hs| - 1] ==> h in hs;
      MergeGroupsNoop(m, hs[..|hs| - 1]);
      assert hs[|hs| - 1] in hs;
    }
  }

  lemma MergeAllRepeat<V>(gss: seq<seq<Group<V>>>, i: nat)
    requires i < |gss|
    ensures MergeAll(gss + [gss[i]]) == MergeAll(gss)
  {
    var more := gss + [gss[i]];
    assert more[..|more| - 1] == gss;
    forall h | h in gss[i] ensures h.country in MergeAll(gss).lists && HasLabel(MergeAll(gss).lists[h.country], h.category) {
      MergeAllComplete(gss, i, h);
    }
    MergeGroupsNoop(MergeAll(gss), gss[i]);
  }

  /** Thanks to the uniqueness check, a chunk read again changes nothing. */
  lemma ExtractIgnoresRepeatedChunk<V>(q: Criteria, parse: string -> Option<V>, chunks: seq<seq<Row>>, i: nat)
    requires i < |chunks|
    ensures Extract(q, parse, Read(chunks + [chunks[i]], None)) == Extract(q, parse, Read(chunks, None))
  {
    var gss := GroupedChunks(q, parse, chunks);
    assert GroupedChunks(q, parse, chunks + [chunks[i]]) == gss + [gss[i]] by {
      GroupedChunksSnoc(q, parse, chunks, chunks[i]);
    }
    MergeAllRepeat(gss, i);
  }

  /** Reading one more chunk adds its grouped result at the end. */
  lemma GroupedChunksSnoc<V>(q: Criteria, parse: string -> Option<V>, chunks: seq<seq<Row>>, chunk: seq<Row>)
    ensures GroupedChunks(q, parse, chunks + [chunk]) == GroupedChunks(q, parse, chunks) + [Grouped(q, parse, chunk)]
  {
    var longer := chunks + [chunk];
    var gl := GroupedChunks(q, parse, longer);
    assert gl[..|chunks|] == GroupedChunks(q, parse, chunks) by {
      assert longer[..|chunks|] == chunks;
      GroupedChunksPrefix(q, parse, longer, |chunks|);
    }
    assert gl[|chunks|] == Grouped(q, parse, chunk);
    AppendSplitLast([], gl);
  }

  // ---------------------------------------------------------------------
  // Rows the selections reject, and the income column when there is none.

  /** A row outside the accepted countries or education levels, not for a
      woman, or not for 2020 has no effect on its chunk's grouped result,
      whatever its other cells hold. */
  lemma UnselectedRowIgnored<V>(q: Criteria, parse: string -> Option<V>, xs: seq<Row>, r: Row, ys: seq<Row>)
    requires !Selected(q, r)
    ensures Grouped(q, parse, xs + [r] + ys) == Grouped(q, parse, xs + ys)
  {
    assert Filter(xs + [r] + ys, SelectedMask(q)) == Filter(xs + ys, SelectedMask(q)) by {
      FilterSkipsRejected(xs, r, ys, SelectedMask(q));
    }
  }

  /** The same, for the whole call: dropping such a row from any chunk of
      the file leaves the returned dictionary unchanged. */
  lemma ExtractIgnoresUnselected<V>(q: Criteria, parse: string -> Option<V>, read: Read<Row>, i: nat,
                                    xs: seq<Row>, r: Row, ys: seq<Row>)
    requires i < |read.chunks| && read.chunks[i] == xs + [r] + ys
    requires !Selected(q, r)
    ensures Extract(q, parse, read) == Extract(q, parse, read.(chunks := read.chunks[i := xs + ys]))
  {
    var chunks := read.chunks[i := xs + ys];
    var before, after := GroupedChunks(q, parse, read.chunks), GroupedChunks(q, parse, chunks);
    forall j | 0 <= j < |before| ensures before[j] == after[j] {
      if j == i {
        UnselectedRowIgnored(q, parse, xs, r, ys);
      }
    }
    assert before == after;
  }

  function ClearIncome(r: Row): Row {
    r.(income := None)
  }

  lemma IncomeUnreadCleared<V>(q: Criteria, parse: string -> Option<V>, chunk: seq<Row>)
    requires q.income == ""
    ensures Grouped(q, parse, chunk) == Grouped(q, parse, Map(chunk, ClearIncome))
  {
    var rows := Survivors(q, parse, chunk);
    assert Survivors(q, parse, Map(chunk, ClearIncome)) == Map(rows, ClearIncome) by {
      FilterMap(chunk, SelectedMask(q), SelectedMask(q), ClearIncome);
      var selected := Filter(chunk, SelectedMask(q));
      DropDuplicatesMap(selected, TextKey, TextKey, ClearIncome);
      var unique := DropDuplicates(selected, TextKey);
      FilterMap(unique, CompleteMask(q), CompleteMask(q), ClearIncome);
      var complete := Filter(unique, CompleteMask(q));
      FilterMap(complete, QualifiedMask(q), QualifiedMask(q), ClearIncome);
      var qualified := Filter(complete, QualifiedMask(q));
      DropDuplicatesMap(qualified, NumericKey(parse), NumericKey(parse), ClearIncome);
    }
    assert ToKeyed(parse, Map(rows, ClearIncome)) == ToKeyed(parse, rows) by {
      ToKeyedIgnoresIncome(parse, rows);
    }
  }

  /** The income cell takes no part in the rows the `groupby` sees. */
  lemma ToKeyedIgnoresIncome<V>(parse: string -> Option<V>, rows: seq<Row>)
    ensures ToKeyed(parse, Map(rows, ClearIncome)) == ToKeyed(parse, rows)
  {
    var cleared := Map(rows, ClearIncome);
    assert |cleared| == |rows|;
    forall i | 0 <= i < |rows| ensures ToKeyed(parse, cleared)[i] == ToKeyed(parse, rows)[i] {
      assert cleared[i] == ClearIncome(rows[i]);
    }
  }

  /** Without an income column there is no income filter: two chunks that
      differ only in their income cells group the same way. */
  lemma IncomeUnreadWithoutColumn<V>(q: Criteria, parse: string -> Option<V>, a: seq<Row>, b: seq<Row>)
    requires q.income == ""
    requires |a| == |b| && forall i :: 0 <= i < |a| ==> ClearIncome(a[i]) == ClearIncome(b[i])
    ensures Grouped(q, parse, a) == Grouped(q, parse, b)
  {
    IncomeUnreadCleared(q, parse, a);
    IncomeUnreadCleared(q, parse, b);
    assert Map(a, ClearIncome) == Map(b, ClearIncome);
  }

  // ---------------------------------------------------------------------
  // The income bracket test.

  /** The bracket test ignores letter case and surrounding whitespace:
      any income cell that lower-cases to the bracket's name, padded with
      whitespace, qualifies. */
  lemma QualifierSpellings(q: Criteria, r: Row, pre: string, s: string, post: string)
    requires AllSpace(pre) && AllSpace(post) && Lower(s) == INCOME_QUALIFIER
    requires r.income == Some(pre + s + post)
    ensures Qualified(q, r)
  {
    NormalizeInsensitive(pre, s, post, INCOME_QUALIFIER);
    assert Lower(INCOME_QUALIFIER) == INCOME_QUALIFIER;
    assert Trim(INCOME_QUALIFIER) == INCOME_QUALIFIER by {
      TrimPadded([], INCOME_QUALIFIER, []);
      assert [] + INCOME_QUALIFIER + [] == INCOME_QUALIFIER;
    }
  }

  /** The call of the income script, restricted to one country and one
      education level of its lists. */
  const EXAMPLE: Criteria := Criteria(["Austria"], ["Upper secondary education"], "Income")
  /** The bracket's name as an income cell may spell it: capitalised
      ("Above 100% of median income") and padded with spaces. */
  const CAPITALISED: string := "A" + INCOME_QUALIFIER[1..]
  const WANTED_INCOME: string := " " + CAPITALISED + " "
  const OTHER_INCOME: string := "Below 100% of median income"
  const OTHER_BRACKET: Row :=
    Row(Some("Austria"), Some("Upper secondary education"), Some("7"), Some(OTHER_INCOME), Some("Female"), Some(2020))
  const WANTED_BRACKET: Row := OTHER_BRACKET.(income := Some(WANTED_INCOME))

  /** The bracket's name is its own normal form. */
  lemma QualifierNormal()
    ensures INCOME_QUALIFIER == "above 100% of median income"
    ensures Normalize(INCOME_QUALIFIER) == INCOME_QUALIFIER
  {
    var n := INCOME_QUALIFIER;
    assert n == "above 100% of median income";
    TrimPadded([], n, []);
    assert [] + n + [] == n;
    assert Lower(n) == n;
  }

  /** The capitalised spelling lower-cases to the bracket's name. */
  lemma CapitalisedSpelling()
    ensures INCOME_QUALIFIER[0] == 'a'
    ensures Lower(CAPITALISED) == INCOME_QUALIFIER
  {
    var n := INCOME_QUALIFIER;
    QualifierNormal();
    assert n[0] == 'a';
    LowerAppend("A", n[1..]);
    assert Lower(n[1..]) == n[1..];
    assert n == [n[0]] + n[1..];
  }

  /** The padded, capitalised spelling passes the bracket test. */
  lemma WantedBracketContributes()
    ensures Contributes(EXAMPLE, WANTED_BRACKET)
  {
    CapitalisedSpelling();
    QualifierSpellings(EXAMPLE, WANTED_BRACKET, " ", CAPITALISED, " ");
  }

  lemma OtherBracketRejected()
    ensures !Qualified(EXAMPLE, OTHER_BRACKET)
  {
    var income := OTHER_INCOME;
    TrimPadded([], income, []);
    assert [] + income + [] == income;
    assert Normalize(income)[0] == 'b';
    QualifierNormal();
  }

  /** A chunk of one row that passes every test groups to that row. */
  lemma SingleRowSurvives<V>(q: Criteria, parse: string -> Option<V>, r: Row)
    requires Contributes(q, r)
    ensures Survivors(q, parse, [r]) == [r]
  {
    FilterSingle(r, SelectedMask(q));
    DropDuplicatesSingle(r, TextKey);
    FilterSingle(r, CompleteMask(q));
    FilterSingle(r, QualifiedMask(q));
    DropDuplicatesSingle(r, NumericKey(parse));
  }

  lemma SingleRowGrouped<V>(q: Criteria, parse: string -> Option<V>, r: Row)
    requires Contributes(q, r)
    ensures Grouped(q, parse, [r]) == [Group(r.country.value, r.category.value, ToNumeric(parse, r.value))]
  {
    var k := Keyed(r.country, r.category, ToNumeric(parse, r.value));
    assert ToKeyed(parse, Survivors(q, parse, [r])) == [k] by {
      SingleRowSurvives(q, parse, r);
    }
    assert GroupFirst([k]) == [Group(r.country.value, r.category.value, ToNumeric(parse, r.value))] by {
      GroupFirstSingle(k);
    }
  }

  /** The first deduplication keeps only the first of two selected rows
      whose text cells agree. */
  lemma ShadowedUnique(q: Criteria, o: Row, w: Row)
    requires Selected(q, o) && Selected(q, w) && TextKey(o) == TextKey(w)
    ensures Unique(q, [o, w]) == [o]
  {
    assert Filter([o, w], SelectedMask(q)) == [o, w] by {
      assert [o, w][1..] == [w];
      FilterSingle(w, SelectedMask(q));
    }
    assert [o, w][..1] == [o];
    DropDuplicatesSingle(o, TextKey);
  }

  /** The first deduplication runs before the bracket test and its key
      leaves the income out: a row of another bracket followed by a row
      of the wanted bracket with the same country, education level and
      value leaves nothing to group, although the second row alone would
      be grouped. */
  lemma ShadowedByOtherBracket<V>(q: Criteria, parse: string -> Option<V>, other: Row, wanted: Row)
    requires Selected(q, other) && Complete(q, other) && !Qualified(q, other)
    requires wanted == other.(income := wanted.income) && Qualified(q, wanted)
    ensures Grouped(q, parse, [wanted]) == [Group(wanted.country.value, wanted.category.value, ToNumeric(parse, wanted.value))]
    ensures Grouped(q, parse, [other, wanted]) == []
  {
    SingleRowGrouped(q, parse, wanted);
    assert Survivors(q, parse, [other, wanted]) == [] by {
      ShadowedUnique(q, other, wanted);
      FilterSingle(other, CompleteMask(q));
      FilterSingle(other, QualifiedMask(q));
    }
    assert ToKeyed(parse, []) == [];
    assert GroupKeys<V>([]) == [];
  }

  /** On concrete rows for Austria: the row of the wanted bracket, spelt
      with capitals and padding, is grouped when alone and dropped after
      a row of another bracket with the same value. */
  lemma QualifierAfterDedup<V>(parse: string -> Option<V>)
    ensures Grouped(EXAMPLE, parse, [WANTED_BRACKET]) == [Group("Austria", "Upper secondary education", parse("7"))]
    ensures Grouped(EXAMPLE, parse, [OTHER_BRACKET, WANTED_BRACKET]) == []
  {
    WantedBracketContributes();
    OtherBracketRejected();
    ShadowedByOtherBracket(EXAMPLE, parse, OTHER_BRACKET, WANTED_BRACKET);
  }
}
