/** The pandas operations the extraction pipeline applies to each chunk,
    stated on sequences of rows: boolean-mask selection (`isin`,
    `dropna`, comparisons), `drop_duplicates` keeping the first row of
    each key, and `groupby([country, category]).agg({value: 'first'})`
    with pandas' default sorting of the group keys. */
module Frame {
  import opened Text

  /** A cell of a data frame; `None` is pandas' missing value (NaN). */
  datatype Option<T> = None | Some(value: T)

  /** `Series.isin(values)` on one cell: a missing cell is never in the list. */
  predicate IsIn<T(==)>(cell: Option<T>, values: seq<T>) {
    cell.Some? && cell.value in values
  }

  /** `pd.to_numeric(cell, errors='coerce')`: `parse` stands for pandas'
      number parser, and anything it rejects becomes missing. */
  function ToNumeric<V>(parse: string -> Option<V>, cell: Option<string>): Option<V> {
    if cell.Some? then parse(cell.value) else None
  }

  /** `df[mask]`: the rows for which `keep` holds, in their original order. */
  function Filter<T>(rows: seq<T>, keep: T -> bool): (r: seq<T>)
    ensures |r| <= |rows|
    ensures forall i :: 0 <= i < |r| ==> r[i] in rows && keep(r[i])
    ensures forall i :: 0 <= i < |rows| && keep(rows[i]) ==> rows[i] in r
    decreases |rows|
  {
    if rows == [] then []
    else (if keep(rows[0]) then [rows[0]] else []) + Filter(rows[1..], keep)
  }

  /** Selection distributes over concatenation: it looks at each row alone. */
  lemma {:induction false} FilterAppend<T>(a: seq<T>, b: seq<T>, keep: T -> bool)
    ensures Filter(a + b, keep) == Filter(a, keep) + Filter(b, keep)
    decreases |a|
  {
    if a == [] {
      assert a + b == b;
    } else {
      assert (a + b)[0] == a[0];
      assert (a + b)[1..] == a[1..] + b;
      FilterAppend(a[1..], b, keep);
    }
  }

  /** A row the mask rejects can be removed before selecting. */
  lemma FilterSkipsRejected<T>(xs: seq<T>, x: T, ys: seq<T>, keep: T -> bool)
    requires !keep(x)
    ensures Filter(xs + [x] + ys, keep) == Filter(xs + ys, keep)
  {
    FilterAppend(xs + [x], ys, keep);
    FilterAppend(xs, [x], keep);
    FilterAppend(xs, ys, keep);
    assert [x][1..] == [];
    calc {
      Filter(xs + [x] + ys, keep);
      Filter(xs + [x], keep) + Filter(ys, keep);
      Filter(xs, keep) + Filter([x], keep) + Filter(ys, keep);
      { assert Filter([x], keep) == []; }
      Filter(xs, keep) + Filter(ys, keep);
      Filter(xs + ys, keep);
    }
  }

  /** Applies `f` to every row, as a column assignment does. */
  function Map<T, U>(rows: seq<T>, f: T -> U): seq<U>
  {
    seq(|rows|, i requires 0 <= i < |rows| => f(rows[i]))
  }

  lemma MapAppend<T, U>(a: seq<T>, b: seq<T>, f: T -> U)
    ensures Map(a + b, f) == Map(a, f) + Map(b, f)
  {
  }

  /** A selection that cannot tell `x` from `f(x)` commutes with `f`. */
  lemma {:induction false} FilterMap<T, U>(rows: seq<T>, keep: T -> bool, keep': U -> bool, f: T -> U)
    requires forall x :: keep'(f(x)) == keep(x)
    ensures Filter(Map(rows, f), keep') == Map(Filter(rows, keep), f)
    decreases |rows|
  {
    if rows != [] {
      assert Map(rows, f)[1..] == Map(rows[1..], f);
      FilterMap(rows[1..], keep, keep', f);
    }
  }

  /** Nor does deduplication, when `f` keeps the key of every row. */
  lemma {:induction false} DropDuplicatesMap<T, U, K>(rows: seq<T>, key: T -> K, key': U -> K, f: T -> U)
    requires forall x :: key'(f(x)) == key(x)
    ensures DropDuplicates(Map(rows, f), key') == Map(DropDuplicates(rows, key), f)
    decreases |rows|
  {
    if rows != [] {
      var init := rows[..|rows| - 1];
      var last := rows[|rows| - 1];
      var frows := Map(rows, f);
      assert frows[..|frows| - 1] == Map(init, f);
      assert frows[|frows| - 1] == f(last);
      DropDuplicatesMap(init, key, key', f);
      var kept := DropDuplicates(init, key);
      var fkept := Map(kept, f);
      assert KeyIn(kept, key, key(last)) <==> KeyIn(fkept, key', key'(f(last))) by {
        if KeyIn(kept, key, key(last)) {
          var j :| 0 <= j < |kept| && key(kept[j]) == key(last);
          assert key'(fkept[j]) == key'(f(last));
        }
        if KeyIn(fkept, key', key'(f(last))) {
          var j :| 0 <= j < |fkept| && key'(fkept[j]) == key'(f(last));
          assert fkept[j] == f(kept[j]);
          assert key(kept[j]) == key(last);
        }
      }
      assert Map(kept + [last], f) == fkept + [f(last)];
    }
  }

  lemma FilterSingle<T>(x: T, keep: T -> bool)
    ensures Filter([x], keep) == if keep(x) then [x] else []
  {
    assert [x][1..] == [];
  }

  lemma DropDuplicatesSingle<T, K>(x: T, key: T -> K)
    ensures DropDuplicates([x], key) == [x]
  {
    assert [x][..0] == [];
  }

  /** Some row of `rows` has key `k`. */
  predicate KeyIn<T, K(==)>(rows: seq<T>, key: T -> K, k: K) {
    exists j :: 0 <= j < |rows| && key(rows[j]) == k
  }

  /** No two rows of `rows` have the same key. */
  ghost predicate DistinctKeys<T, K>(rows: seq<T>, key: T -> K) {
    forall i, j :: 0 <= i < j < |rows| ==> key(rows[i]) != key(rows[j])
  }

  /** `df.drop_duplicates(subset=...)` with the default `keep='first'`:
      rows are compared through `key` (two missing cells compare equal,
      as in pandas), and a row is dropped when an earlier row has the
      same key. */
  function DropDuplicates<T, K(==)>(rows: seq<T>, key: T -> K): (r: seq<T>)
    ensures |r| <= |rows|
    ensures forall i :: 0 <= i < |r| ==> r[i] in rows
    ensures forall i :: 0 <= i < |rows| ==> KeyIn(r, key, key(rows[i]))
    ensures DistinctKeys(r, key)
    decreases |rows|
  {
    if rows == [] then []
    else
      var init := rows[..|rows| - 1];
      var kept := DropDuplicates(init, key);
      var last := rows[|rows| - 1];
      assert forall i :: 0 <= i < |init| ==> rows[i] == init[i];
      if KeyIn(kept, key, key(last)) then
        kept
      else
        assert DistinctKeys(kept + [last], key) by { SnocDistinct(kept, last, key); }
        assert forall i :: 0 <= i < |rows| ==> KeyIn(kept + [last], key, key(rows[i])) by {
          SnocCovers(rows, kept, key);
        }
        kept + [last]
  }

  lemma SnocCovers<T, K>(rows: seq<T>, kept: seq<T>, key: T -> K)
    requires rows != []
    requires forall i :: 0 <= i < |rows| - 1 ==> KeyIn(kept, key, key(rows[i]))
    ensures forall i :: 0 <= i < |rows| ==> KeyIn(kept + [rows[|rows| - 1]], key, key(rows[i]))
  {
    var r := kept + [rows[|rows| - 1]];
    forall i | 0 <= i < |rows| ensures KeyIn(r, key, key(rows[i])) {
      if i < |rows| - 1 {
        var j :| 0 <= j < |kept| && key(kept[j]) == key(rows[i]);
        assert r[j] == kept[j];
      } else {
        assert r[|kept|] == rows[i];
      }
    }
  }

  lemma SnocDistinct<T, K>(kept: seq<T>, last: T, key: T -> K)
    requires DistinctKeys(kept, key) && !KeyIn(kept, key, key(last))
    ensures DistinctKeys(kept + [last], key)
  {
    var r := kept + [last];
    forall i, j | 0 <= i < j < |r| ensures key(r[i]) != key(r[j]) {
      assert r[i] == kept[i];
      if j < |kept| {
        assert r[j] == kept[j];
      }
    }
  }

  /** A row whose key no earlier row carries survives deduplication. */
  lemma {:induction false} DropDuplicatesKeepsFirst<T, K>(rows: seq<T>, key: T -> K, i: nat)
    requires i < |rows|
    requires forall j :: 0 <= j < i ==> key(rows[j]) != key(rows[i])
    ensures rows[i] in DropDuplicates(rows, key)
    decreases |rows|
  {
    var init := rows[..|rows| - 1];
    var x := rows[|rows| - 1];
    var kept := DropDuplicates(init, key);
    assert DropDuplicates(rows, key) == if KeyIn(kept, key, key(x)) then kept else kept + [x] by {
      assert init + [x] == rows;
      DropDuplicatesSnoc(init, x, key);
    }
    if i == |rows| - 1 {
      assert !KeyIn(kept, key, key(x)) by {
        forall a | 0 <= a < |kept| ensures key(kept[a]) != key(x) {
          var j :| 0 <= j < |init| && init[j] == kept[a];
          assert init[j] == rows[j];
        }
      }
    } else {
      assert rows[i] in kept by {
        assert forall j :: 0 <= j <= i ==> init[j] == rows[j];
        DropDuplicatesKeepsFirst(init, key, i);
      }
    }
  }

  /** In a sequence of distinct keys, a member is the only element with its key. */
  lemma DistinctKeysOnly<T, K>(r: seq<T>, key: T -> K, x: T, a: nat)
    requires DistinctKeys(r, key) && x in r
    requires a < |r| && key(r[a]) == key(x)
    ensures r[a] == x
  {
    var b :| 0 <= b < |r| && r[b] == x;
    assert !(a < b) && !(b < a);
  }

  /** The rows whose key does not occur among `seen`. */
  function NewKeyMask<T, K(==)>(seen: seq<T>, key: T -> K): T -> bool {
    (x: T) => !KeyIn(seen, key, key(x))
  }

  lemma KeyInAppend<T, K>(a: seq<T>, b: seq<T>, key: T -> K, k: K)
    ensures KeyIn(a + b, key, k) <==> KeyIn(a, key, k) || KeyIn(b, key, k)
  {
    if KeyIn(a + b, key, k) {
      var j :| 0 <= j < |a + b| && key((a + b)[j]) == k;
      if j >= |a| { assert (a + b)[j] == b[j - |a|]; }
    }
    if KeyIn(a, key, k) {
      var j :| 0 <= j < |a| && key(a[j]) == k;
      assert (a + b)[j] == a[j];
    }
    if KeyIn(b, key, k) {
      var j :| 0 <= j < |b| && key(b[j]) == k;
      assert (a + b)[|a| + j] == b[j];
    }
  }

  /** One more row is kept exactly when no kept row has its key. */
  lemma DropDuplicatesSnoc<T, K>(rows: seq<T>, x: T, key: T -> K)
    ensures DropDuplicates(rows + [x], key) ==
            if KeyIn(DropDuplicates(rows, key), key, key(x)) then DropDuplicates(rows, key)
            else DropDuplicates(rows, key) + [x]
  {
    assert (rows + [x])[..|rows|] == rows;
  }

  lemma AppendAssociative<T>(a: seq<T>, b: seq<T>, c: seq<T>)
    ensures a + b + c == a + (b + c)
  {
  }

  lemma TakeDrop<T>(s: seq<T>, n: nat)
    requires n <= |s|
    ensures s[..n] + s[n..] == s
  {
  }

  lemma AppendSplitLast<T>(a: seq<T>, b: seq<T>)
    requires b != []
    ensures b == b[..|b| - 1] + [b[|b| - 1]]
    ensures a + b == (a + b[..|b| - 1]) + [b[|b| - 1]]
  {
    assert b == b[..|b| - 1] + [b[|b| - 1]];
    AppendAssociative(a, b[..|b| - 1], [b[|b| - 1]]);
  }

  /** Deduplication keeps every key and adds none. */
  lemma DropDuplicatesKeys<T, K>(rows: seq<T>, key: T -> K, k: K)
    ensures KeyIn(DropDuplicates(rows, key), key, k) <==> KeyIn(rows, key, k)
  {
    var r := DropDuplicates(rows, key);
    if KeyIn(r, key, k) {
      var j :| 0 <= j < |r| && key(r[j]) == k;
      var p :| 0 <= p < |rows| && rows[p] == r[j];
    }
  }

  /** Deduplication keeps the input order: deduplicating `a + b` keeps the
      deduplicated rows of `a`, followed by the deduplicated rows of `b`
      whose key `a` does not already have, in the order of `b`. */
  lemma {:induction false} DropDuplicatesAppend<T, K>(a: seq<T>, b: seq<T>, key: T -> K)
    ensures DropDuplicates(a + b, key) ==
            DropDuplicates(a, key) + DropDuplicates(Filter(b, NewKeyMask(a, key)), key)
    decreases |b|
  {
    var isNew := NewKeyMask(a, key);
    if b == [] {
      assert a + b == a;
    } else {
      var init, x := b[..|b| - 1], b[|b| - 1];
      var da, fi := DropDuplicates(a, key), Filter(init, isNew);
      var di := DropDuplicates(fi, key);
      assert DropDuplicates(a + init, key) == da + di by {
        DropDuplicatesAppend(a, init, key);
      }
      assert Filter(b, isNew) == fi + (if isNew(x) then [x] else []) by {
        AppendSplitLast(a, b);
        FilterAppend(init, [x], isNew);
        FilterSingle(x, isNew);
      }
      assert DropDuplicates(a + b, key) ==
             if KeyIn(da + di, key, key(x)) then da + di else da + di + [x] by {
        var ai := a + init;
        assert a + b == ai + [x] by { AppendSplitLast(a, b); }
        DropDuplicatesSnoc(ai, x, key);
      }
      assert KeyIn(da + di, key, key(x)) <==> KeyIn(a, key, key(x)) || KeyIn(di, key, key(x)) by {
        KeyInAppend(da, di, key, key(x));
        DropDuplicatesKeys(a, key, key(x));
      }
      if isNew(x) {
        DropDuplicatesSnoc(fi, x, key);
        if !KeyIn(di, key, key(x)) {
          AppendAssociative(da, di, [x]);
        }
      } else {
        assert fi + [] == fi;
      }
    }
  }

  /** One row as `groupby([country, category]).agg({value: 'first'})` sees
      it: the two key cells and the already numeric value cell. */
  datatype Keyed<V> = Keyed(country: Option<string>, category: Option<string>, value: Option<V>)

  /** One row of the grouped result after `reset_index()`. */
  datatype Group<V> = Group(country: string, category: string, value: Option<V>)

  type Key = (string, string)

  /** The group key of a row; `None` when a key cell is missing, since
      `groupby` drops such rows (`dropna=True`). */
  function KeyOf<V>(r: Keyed<V>): Option<Key> {
    if r.country.Some? && r.category.Some? then Some((r.country.value, r.category.value)) else None
  }

  function GroupKey<V>(g: Group<V>): Key {
    (g.country, g.category)
  }

  predicate HasKey<V>(rows: seq<Keyed<V>>, k: Key) {
    exists i :: 0 <= i < |rows| && KeyOf(rows[i]) == Some(k)
  }

  /** The order of the group keys: lexicographic on (country, category). */
  predicate KeyLess(a: Key, b: Key) {
    StrLess(a.0, b.0) || (a.0 == b.0 && StrLess(a.1, b.1))
  }

  lemma KeyLessIrreflexive(a: Key)
    ensures !KeyLess(a, a)
  {
    StrLessIrreflexive(a.0);
    StrLessIrreflexive(a.1);
  }

  lemma KeyLessTransitive(a: Key, b: Key, c: Key)
    requires KeyLess(a, b) && KeyLess(b, c)
    ensures KeyLess(a, c)
  {
    if StrLess(a.0, b.0) && StrLess(b.0, c.0) {
      StrLessTransitive(a.0, b.0, c.0);
    } else if a.0 == b.0 && b.0 == c.0 {
      StrLessTransitive(a.1, b.1, c.1);
    }
  }

  lemma KeyLessTotal(a: Key, b: Key)
    requires a != b
    ensures KeyLess(a, b) || KeyLess(b, a)
  {
    if a.0 != b.0 {
      StrLessTotal(a.0, b.0);
    } else {
      StrLessTotal(a.1, b.1);
    }
  }

  predicate StrictlySorted(ks: seq<Key>) {
    forall i, j :: 0 <= i < j < |ks| ==> KeyLess(ks[i], ks[j])
  }

  /** Inserts a key into a strictly increasing sequence of keys, unless it
      is already there. */
  function InsertKey(ks: seq<Key>, k: Key): (r: seq<Key>)
    requires StrictlySorted(ks)
    ensures StrictlySorted(r)
    ensures forall x :: x in r <==> x in ks || x == k
    decreases |ks|
  {
    if ks == [] then [k]
    else if k == ks[0] then ks
    else if KeyLess(k, ks[0]) then
      assert StrictlySorted([k] + ks) by {
        forall j | 0 <= j < |ks| ensures KeyLess(k, ks[j]) {
          if j > 0 { KeyLessTransitive(k, ks[0], ks[j]); }
        }
      }
      [k] + ks
    else
      var tail := InsertKey(ks[1..], k);
      assert StrictlySorted([ks[0]] + tail) by {
        KeyLessTotal(k, ks[0]);
        forall j | 0 <= j < |tail| ensures KeyLess(ks[0], tail[j]) {
          assert tail[j] in ks[1..] || tail[j] == k;
        }
      }
      [ks[0]] + tail
  }

  /** The set of group keys of `rows`, in ascending order: pandas' groupby
      sorts its keys by default. */
  function GroupKeys<V>(rows: seq<Keyed<V>>): (ks: seq<Key>)
    ensures StrictlySorted(ks)
    ensures forall k :: k in ks <==> HasKey(rows, k)
    decreases |rows|
  {
    if rows == [] then []
    else
      var init := rows[..|rows| - 1];
      var ks := GroupKeys(init);
      assert forall k :: HasKey(rows, k) <==> HasKey(init, k) || KeyOf(rows[|rows| - 1]) == Some(k) by {
        forall k | HasKey(rows, k) ensures HasKey(init, k) || KeyOf(rows[|rows| - 1]) == Some(k) {
          var i :| 0 <= i < |rows| && KeyOf(rows[i]) == Some(k);
          if i < |init| { assert init[i] == rows[i]; }
        }
        forall k | HasKey(init, k) ensures HasKey(rows, k) {
          var i :| 0 <= i < |init| && KeyOf(init[i]) == Some(k);
          assert rows[i] == init[i];
        }
      }
      match KeyOf(rows[|rows| - 1])
      case None => ks
      case Some(k) => InsertKey(ks, k)
  }

  /** `'first'` aggregation: the first non-missing value among the rows
      with key `k`, or missing when all of them are missing. */
  function FirstValue<V>(rows: seq<Keyed<V>>, k: Key): (v: Option<V>)
    ensures v.None? <==> forall i :: 0 <= i < |rows| && KeyOf(rows[i]) == Some(k) ==> rows[i].value.None?
    ensures v.Some? ==> exists i :: 0 <= i < |rows| && KeyOf(rows[i]) == Some(k) && rows[i].value == v &&
                          forall j :: 0 <= j < i && KeyOf(rows[j]) == Some(k) ==> rows[j].value.None?
    decreases |rows|
  {
    if rows == [] then None
    else if KeyOf(rows[0]) == Some(k) && rows[0].value.Some? then rows[0].value
    else
      var v := FirstValue(rows[1..], k);
      assert forall i :: 1 <= i < |rows| ==> rows[1..][i - 1] == rows[i];
      assert v.Some? ==> exists i :: 0 <= i < |rows| && KeyOf(rows[i]) == Some(k) && rows[i].value == v &&
                          forall j :: 0 <= j < i && KeyOf(rows[j]) == Some(k) ==> rows[j].value.None? by {
        if v.Some? {
          var i :| 0 <= i < |rows[1..]| && KeyOf(rows[1..][i]) == Some(k) && rows[1..][i].value == v &&
                   forall j :: 0 <= j < i && KeyOf(rows[1..][j]) == Some(k) ==> rows[1..][j].value.None?;
          assert rows[i + 1] == rows[1..][i];
          forall j | 0 <= j < i + 1 && KeyOf(rows[j]) == Some(k) ensures rows[j].value.None? {
            if j > 0 { assert rows[j] == rows[1..][j - 1]; }
          }
        }
      }
      v
  }

  function Keys<V>(gs: seq<Group<V>>): seq<Key>
  {
    seq(|gs|, i requires 0 <= i < |gs| => GroupKey(gs[i]))
  }

  /** `groupby([country, category]).agg({value: 'first'}).reset_index()`:
      one row per key present among the rows, in ascending key order,
      each with the first non-missing value of its group. */
  function GroupFirst<V>(rows: seq<Keyed<V>>): (r: seq<Group<V>>)
    ensures StrictlySorted(Keys(r))
    ensures forall k :: k in Keys(r) <==> HasKey(rows, k)
    ensures forall i :: 0 <= i < |r| ==> r[i].value == FirstValue(rows, GroupKey(r[i]))
  {
    var ks := GroupKeys(rows);
    var r := seq(|ks|, i requires 0 <= i < |ks| => Group(ks[i].0, ks[i].1, FirstValue(rows, ks[i])));
    assert Keys(r) == ks;
    r
  }

  /** The grouped result holds at most one row per (country, category). */
  lemma GroupFirstOnePerKey<V>(rows: seq<Keyed<V>>, i: nat, j: nat)
    requires i < j < |GroupFirst(rows)|
    ensures GroupKey(GroupFirst(rows)[i]) != GroupKey(GroupFirst(rows)[j])
  {
    var ks := Keys(GroupFirst(rows));
    assert KeyLess(ks[i], ks[j]);
    KeyLessIrreflexive(ks[i]);
  }

  /** A single row with both key cells present forms a single group. */
  lemma GroupFirstSingle<V>(k: Keyed<V>)
    requires KeyOf(k).Some?
    ensures GroupFirst([k]) == [Group(k.country.value, k.category.value, k.value)]
  {
    assert [k][..0] == [];
    assert GroupKeys([k]) == [KeyOf(k).value];
    assert FirstValue([k], KeyOf(k).value) == k.value;
  }

  ghost predicate DistinctGroupKeys<V>(gs: seq<Group<V>>) {
    forall a, b :: 0 <= a < b < |gs| ==> GroupKey(gs[a]) != GroupKey(gs[b])
  }

  lemma GroupFirstDistinct<V>(rows: seq<Keyed<V>>)
    ensures DistinctGroupKeys(GroupFirst(rows))
  {
    forall a, b | 0 <= a < b < |GroupFirst(rows)| ensures GroupKey(GroupFirst(rows)[a]) != GroupKey(GroupFirst(rows)[b]) {
      GroupFirstOnePerKey(rows, a, b);
    }
  }

  /** Every grouped row names a key of the input and carries either the
      first non-missing value of that key's rows or, when all of them are
      missing, a missing value. */
  lemma GroupFirstSource<V>(rows: seq<Keyed<V>>, g: Group<V>)
    requires g in GroupFirst(rows)
    ensures exists i :: 0 <= i < |rows| && KeyOf(rows[i]) == Some(GroupKey(g))
    ensures g.value.Some? ==> exists i :: 0 <= i < |rows| && KeyOf(rows[i]) == Some(GroupKey(g)) && rows[i].value == g.value
  {
    var r := GroupFirst(rows);
    var n :| 0 <= n < |r| && r[n] == g;
    assert GroupKey(g) in Keys(r);
  }
}
