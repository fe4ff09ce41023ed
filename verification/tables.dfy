/** The tabular data the pipeline passes between stages: a data frame whose
    cells are text or missing. */
module Tables {
  import opened Wrappers

  /** One cell: text, or missing (`NaN` / `pd.NA`). */
  type Cell = Option<string>

  /** One row, by column name. */
  type Row = map<string, Cell>

  /** A data frame: its column names and its rows in index order (the index
      is the default `RangeIndex`, so row `i` has label `i`). */
  datatype Table = Table(columns: set<string>, rows: seq<Row>)

  /** The cell of column `c`; a column the row does not hold reads as missing,
      as the source does when it creates an absent column filled with `pd.NA`. */
  function Get(r: Row, c: string): Cell {
    if c in r then r[c] else None
  }

  /** `df.empty`: the frame has no rows or no columns. */
  predicate IsEmptyFrame(t: Table) {
    |t.rows| == 0 || t.columns == {}
  }

  /** How `astype(str)` renders a missing cell of an object column. */
  const MissingText: string := "nan"

  /** `astype(str)` of one cell. */
  function AsText(c: Cell): string {
    c.GetOr(MissingText)
  }

  /** Removes the listed columns, as `drop(columns=..., errors='ignore')`. */
  function DropColumns(t: Table, cols: set<string>): (r: Table)
    ensures r.columns == t.columns - cols
    ensures |r.rows| == |t.rows|
    ensures forall i, c :: 0 <= i < |r.rows| && c !in cols ==> Get(r.rows[i], c) == Get(t.rows[i], c)
    ensures forall i :: 0 <= i < |r.rows| ==> r.rows[i].Keys !! cols
  {
    Table(t.columns - cols, seq(|t.rows|, i requires 0 <= i < |t.rows| => t.rows[i] - cols))
  }

  /** Rewrites column `col` row by row with `f` when the frame has that
      column, and leaves the frame as it is otherwise. */
  function MapColumn(t: Table, col: string, f: Row -> Cell): (r: Table)
    ensures r.columns == t.columns && |r.rows| == |t.rows|
    ensures col !in t.columns ==> r == t
    ensures col in t.columns ==>
      forall i :: 0 <= i < |r.rows| ==> Get(r.rows[i], col) == f(t.rows[i])
    ensures forall i, c :: 0 <= i < |r.rows| && c != col ==> Get(r.rows[i], c) == Get(t.rows[i], c)
  {
    if col !in t.columns then t
    else Table(t.columns, seq(|t.rows|, i requires 0 <= i < |t.rows| => t.rows[i][col := f(t.rows[i])]))
  }

  /** Row `i` holds the first occurrence of its key. */
  predicate IsFirstOccurrence<K(==)>(keys: seq<K>, i: nat)
    requires i < |keys|
  {
    forall j :: 0 <= j < i ==> keys[j] != keys[i]
  }

  /** Some kept row holds key `v`. */
  predicate KeptKey<K(==)>(keys: seq<K>, kept: seq<nat>, v: K)
    requires forall k :: 0 <= k < |kept| ==> kept[k] < |keys|
  {
    exists k :: 0 <= k < |kept| && keys[kept[k]] == v
  }

  /** `drop_duplicates(subset=..., keep='first')`, on the rows' key values:
      returns the positions of the rows kept, in row order. */
  method KeepFirst<K(==)>(keys: seq<K>) returns (kept: seq<nat>)
    ensures forall k :: 0 <= k < |kept| ==> kept[k] < |keys|
    ensures forall a, b :: 0 <= a < b < |kept| ==> kept[a] < kept[b]
    ensures forall k :: 0 <= k < |kept| ==> IsFirstOccurrence(keys, kept[k])
    ensures forall j :: 0 <= j < |keys| ==> KeptKey(keys, kept, keys[j])
    ensures forall a, b :: 0 <= a < b < |kept| ==> keys[kept[a]] != keys[kept[b]]
    ensures |kept| <= |keys|
  {
    kept := [];
    var seen: set<K> := {};
    ghost var keptKeys: seq<K> := [];
    var i := 0;
    while i < |keys|
      invariant 0 <= i <= |keys|
      invariant forall k :: 0 <= k < |kept| ==> kept[k] < i
      invariant forall a, b :: 0 <= a < b < |kept| ==> kept[a] < kept[b]
      invariant forall k :: 0 <= k < |kept| ==> IsFirstOccurrence(keys, kept[k])
      invariant |keptKeys| == |kept| && forall k :: 0 <= k < |kept| ==> keptKeys[k] == keys[kept[k]]
      invariant forall v :: v in seen <==> v in keptKeys
      invariant forall j :: 0 <= j < i ==> keys[j] in seen
    {
      if keys[i] !in seen {
        kept := kept + [i];
        keptKeys := keptKeys + [keys[i]];
        seen := seen + {keys[i]};
      }
      i := i + 1;
    }
    forall j | 0 <= j < |keys| ensures KeptKey(keys, kept, keys[j]) {
      assert keys[j] in keptKeys;
      var k :| 0 <= k < |keptKeys| && keptKeys[k] == keys[j];
      assert 0 <= k < |kept| && keys[kept[k]] == keys[j];
    }
    IncreasingBound(kept, |keys|);
  }

  /** A strictly increasing list of positions below `n` has at most `n`
      entries. */
  lemma {:induction false} IncreasingBound(s: seq<nat>, n: nat)
    requires forall k :: 0 <= k < |s| ==> s[k] < n
    requires forall a, b :: 0 <= a < b < |s| ==> s[a] < s[b]
    ensures |s| <= n
  {
    if s != [] {
      var last := s[|s| - 1];
      IncreasingBound(s[..|s| - 1], last);
    }
  }

  /** The smallest value `vals[j]` over the first `n` rows whose key is `v`,
      or `None` when none of them has that key: one group of
      `groupby(key)[vals].transform('min')`. */
  function GroupMin<K(==)>(keys: seq<K>, vals: seq<nat>, v: K, n: nat): Option<nat>
    requires |keys| == |vals| && n <= |keys|
  {
    if n == 0 then None
    else
      var rest := GroupMin(keys, vals, v, n - 1);
      if keys[n - 1] != v then rest
      else if rest.None? || vals[n - 1] < rest.value then Some(vals[n - 1])
      else rest
  }

  /** `GroupMin` is absent exactly when no row has key `v`, and otherwise is
      a value some such row holds and no larger than any of theirs. */
  lemma {:induction false} GroupMinIsMinimum<K>(keys: seq<K>, vals: seq<nat>, v: K, n: nat)
    requires |keys| == |vals| && n <= |keys|
    ensures var m := GroupMin(keys, vals, v, n);
      && (m.None? <==> forall j :: 0 <= j < n ==> keys[j] != v)
      && (m.Some? ==> exists j :: 0 <= j < n && keys[j] == v && vals[j] == m.value)
      && (m.Some? ==> forall j :: 0 <= j < n && keys[j] == v ==> m.value <= vals[j])
  {
    if n > 0 {
      GroupMinIsMinimum(keys, vals, v, n - 1);
    }
  }
}
