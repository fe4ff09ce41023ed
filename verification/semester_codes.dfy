/** The per-semester registration pass (`inscription_semestre_code_manager.py`):
    every row is exploded into one row per semester it is enrolled in, the
    exploded rows are de-duplicated keep-first on the semester constraint key,
    and each kept row receives its formatted registration code. */
module SemesterCodes {
  import opened Wrappers
  import opened Text
  import opened Tables

  // ---------------------------------------------------------------------------
  // Columns

  /** `S01` to `S16`, in order. */
  const SemesterColumns: seq<string> :=
    ["S01", "S02", "S03", "S04", "S05", "S06", "S07", "S08",
     "S09", "S10", "S11", "S12", "S13", "S14", "S15", "S16"]

  const StudentCodeColumn: string := "code_etudiant"
  const YearColumn: string := "annee_universitaire"
  const ParcoursColumn: string := "id_Parcours"
  const SemesterIdColumn: string := "semestre_id"
  const RegistrationCodeColumn: string := "code_inscription"

  /** The columns removed at the end: the temporary ones and the semester flags. */
  const DroppedColumns: set<string> :=
    {"cle_contrainte", "inscrit", "annee_courte"} + set k | 0 <= k < |SemesterColumns| :: SemesterColumns[k]

  predicate HasBaseColumns(cols: set<string>) {
    StudentCodeColumn in cols && YearColumn in cols && ParcoursColumn in cols
  }

  predicate HasSomeSemester(cols: set<string>) {
    exists k :: 0 <= k < |SemesterColumns| && SemesterColumns[k] in cols
  }

  predicate HasAllSemesters(cols: set<string>) {
    forall k :: 0 <= k < |SemesterColumns| ==> SemesterColumns[k] in cols
  }

  /** The guard of the pass: every base column and at least one semester column. */
  predicate Applies(t: Table) {
    HasBaseColumns(t.columns) && HasSomeSemester(t.columns)
  }

  /** The names of `names` the frame holds, in the order of `names`. */
  function Present(names: seq<string>, cols: set<string>): (r: seq<string>)
    ensures forall s :: s in r <==> s in names && s in cols
    ensures |r| <= |names|
  {
    if names == [] then []
    else (if names[0] in cols then [names[0]] else []) + Present(names[1..], cols)
  }

  lemma {:induction false} PresentAll(names: seq<string>, cols: set<string>)
    requires forall k :: 0 <= k < |names| ==> names[k] in cols
    ensures Present(names, cols) == names
  {
    if names != [] {
      PresentAll(names[1..], cols);
    }
  }

  /** The semester columns the corrected pass melts: those the frame holds. */
  function PresentSemesters(cols: set<string>): (sems: seq<string>)
    ensures forall s :: s in sems <==> s in SemesterColumns && s in cols
    ensures sems != [] <==> HasSomeSemester(cols)
  {
    var sems := Present(SemesterColumns, cols);
    assert HasSomeSemester(cols) <==> sems != [] by {
      if HasSomeSemester(cols) {
        var k :| 0 <= k < |SemesterColumns| && SemesterColumns[k] in cols;
        assert SemesterColumns[k] in sems;
      }
      if sems != [] {
        assert sems[0] in SemesterColumns;
      }
    }
    sems
  }

  /** With every semester column present, the corrected selection is the
      full list the source melts. */
  lemma PresentSemestersWhenComplete(cols: set<string>)
    requires HasAllSemesters(cols)
    ensures PresentSemesters(cols) == SemesterColumns
  {
    PresentAll(SemesterColumns, cols);
  }

  /** The `value_vars` the source hands to `melt`: all sixteen semester
      columns, which fails (`KeyError`) unless the frame holds every one. */
  function MeltColumnsAsWritten(cols: set<string>): (r: Result<seq<string>, string>)
    ensures r.Success? <==> HasAllSemesters(cols)
    ensures r.Success? ==> r.value == SemesterColumns
  {
    if HasAllSemesters(cols) then Success(SemesterColumns)
    else Failure("KeyError: value_vars not present in the frame")
  }

  // ---------------------------------------------------------------------------
  // Explosion

  /** A semester flag counts when the cell holds `1`. */
  predicate IsEnrolled(c: Cell) {
    c == Some("1")
  }

  /** One melted row: input row `row` read at semester column `sems[sem]`. */
  datatype Slot = Slot(row: nat, sem: nat)

  predicate ValidSlot(rows: seq<Row>, sems: seq<string>, p: Slot) {
    p.row < |rows| && p.sem < |sems| && IsEnrolled(Get(rows[p.row], sems[p.sem]))
  }

  /** The order `melt` produces: semester by semester, rows in order within one. */
  predicate Before(p: Slot, q: Slot) {
    p.sem < q.sem || (p.sem == q.sem && p.row < q.row)
  }

  predicate SortedSlots(ps: seq<Slot>) {
    forall a, b :: 0 <= a < b < |ps| ==> Before(ps[a], ps[b])
  }

  /** The enrolled rows from `i` on, for semester `k`. */
  function RowSlots(rows: seq<Row>, sems: seq<string>, k: nat, i: nat): seq<Slot>
    requires k < |sems| && i <= |rows|
    decreases |rows| - i
  {
    if i == |rows| then []
    else (if IsEnrolled(Get(rows[i], sems[k])) then [Slot(i, k)] else []) + RowSlots(rows, sems, k, i + 1)
  }

  lemma {:induction false} RowSlotsFacts(rows: seq<Row>, sems: seq<string>, k: nat, i: nat)
    requires k < |sems| && i <= |rows|
    decreases |rows| - i
    ensures var ps := RowSlots(rows, sems, k, i);
      && (forall p :: p in ps <==> ValidSlot(rows, sems, p) && p.sem == k && i <= p.row)
      && (forall a :: 0 <= a < |ps| ==> ps[a].sem == k && i <= ps[a].row)
      && SortedSlots(ps)
  {
    if i < |rows| {
      RowSlotsFacts(rows, sems, k, i + 1);
    }
  }

  /** The melted rows that are enrolled, for the semesters from `k` on. */
  function Slots(rows: seq<Row>, sems: seq<string>, k: nat): seq<Slot>
    requires k <= |sems|
    decreases |sems| - k
  {
    if k == |sems| then [] else RowSlots(rows, sems, k, 0) + Slots(rows, sems, k + 1)
  }

  /** The exploded rows are exactly the enrolled (row, semester) pairs, in
      the order `melt` produces them. */
  lemma {:induction false} SlotsFacts(rows: seq<Row>, sems: seq<string>, k: nat)
    requires k <= |sems|
    decreases |sems| - k
    ensures var ps := Slots(rows, sems, k);
      && (forall p :: p in ps <==> ValidSlot(rows, sems, p) && k <= p.sem)
      && (forall a :: 0 <= a < |ps| ==> ValidSlot(rows, sems, ps[a]) && k <= ps[a].sem)
      && SortedSlots(ps)
  {
    if k < |sems| {
      RowSlotsFacts(rows, sems, k, 0);
      SlotsFacts(rows, sems, k + 1);
      var head, tail := RowSlots(rows, sems, k, 0), Slots(rows, sems, k + 1);
      var ps := head + tail;
      forall a | 0 <= a < |ps| ensures ValidSlot(rows, sems, ps[a]) && k <= ps[a].sem {
        if a < |head| { assert ps[a] in head; } else { assert ps[a] == tail[a - |head|]; }
      }
      SortedAppend(head, tail);
    }
  }

  /** Two sorted lists, every entry of the first before every entry of the
      second, concatenate to a sorted list. */
  lemma SortedAppend(head: seq<Slot>, tail: seq<Slot>)
    requires SortedSlots(head) && SortedSlots(tail)
    requires forall a, b :: 0 <= a < |head| && 0 <= b < |tail| ==> Before(head[a], tail[b])
    ensures SortedSlots(head + tail)
  {
    var ps := head + tail;
    forall a, b | 0 <= a < b < |ps| ensures Before(ps[a], ps[b]) {
      if b < |head| {
        assert ps[a] == head[a] && ps[b] == head[b];
      } else if a >= |head| {
        assert ps[a] == tail[a - |head|] && ps[b] == tail[b - |head|];
      } else {
        assert ps[a] == head[a] && ps[b] == tail[b - |head|];
      }
    }
  }

  /** In a sorted list, `Before` between two entries is index order. */
  lemma SortedIndex(ps: seq<Slot>, m: nat, n: nat)
    requires SortedSlots(ps) && m < |ps| && n < |ps|
    requires Before(ps[m], ps[n])
    ensures m < n
  {
  }

  // ---------------------------------------------------------------------------
  // Keys and codes

  /** `cle_contrainte`: student code, academic year, programme and semester,
      concatenated without separator. */
  function ConstraintKey(rows: seq<Row>, sems: seq<string>, p: Slot): string
    requires p.row < |rows| && p.sem < |sems|
  {
    var r := rows[p.row];
    AsText(Get(r, StudentCodeColumn)) + AsText(Get(r, YearColumn)) + AsText(Get(r, ParcoursColumn)) + sems[p.sem]
  }

  /** The key ends with the semester, so two slots with equal keys and
      semester names of equal length are slots of the same semester. */
  lemma SameKeySameSemester(rows: seq<Row>, sems: seq<string>, p: Slot, q: Slot)
    requires p.row < |rows| && p.sem < |sems| && q.row < |rows| && q.sem < |sems|
    requires |sems[p.sem]| == |sems[q.sem]|
    requires ConstraintKey(rows, sems, p) == ConstraintKey(rows, sems, q)
    ensures sems[p.sem] == sems[q.sem]
  {
    var kp, kq := ConstraintKey(rows, sems, p), ConstraintKey(rows, sems, q);
    var n := |sems[p.sem]|;
    assert kp[|kp| - n..] == sems[p.sem];
    assert kq[|kq| - n..] == sems[q.sem];
  }

  /** `format_annee_courte`: `NA_A` for a missing year, `ERR_A` for a year
      without `'-'`, and otherwise the last two characters of the parts
      before and after the first `'-'`. */
  function ShortYear(c: Cell): (y: string)
    ensures c.None? ==> y == "NA_A"
    ensures y == "ERR_A" <==> (c.Some? && '-' !in c.value)
  {
    match c
    case None => "NA_A"
    case Some(s) =>
      var parts := Split(s, '-');
      SplitHasSeparator(s, '-');
      if |parts| < 2 then "ERR_A"
      else
        var y := Last(parts[0], 2) + "-" + Last(parts[1], 2);
        assert y[|Last(parts[0], 2)|] == '-';
        y
  }

  /** A year range `a-b` shortens to the last two characters of each year. */
  lemma ShortYearOfRange(a: string, b: string)
    requires '-' !in a && '-' !in b
    ensures ShortYear(Some(a + "-" + b)) == Last(a, 2) + "-" + Last(b, 2)
  {
    SplitAtSeparator(a, '-', b);
    SplitNoSeparator(b, '-');
    assert a + "-" + b == a + ['-'] + b;
  }

  /** `code_inscription`: student code, short year, programme and semester
      joined by `'_'`, that is
      `<code_etudiant>_<short year>_<id_Parcours>_<semester>`. */
  function RegistrationCode(r: Row, sem: string): (code: string)
    ensures EndsWith(code, "_" + sem)
    ensures StartsWith(code, AsText(Get(r, StudentCodeColumn)) + "_" + ShortYear(Get(r, YearColumn)) + "_")
  {
    var head := AsText(Get(r, StudentCodeColumn)) + "_" + ShortYear(Get(r, YearColumn)) + "_";
    var code := head + AsText(Get(r, ParcoursColumn)) + "_" + sem;
    assert code[..|head|] == head;
    assert code[|code| - |"_" + sem|..] == "_" + sem;
    code
  }

  /** Between its head and its `'_'`-semester tail, a registration code
      holds the programme. */
  lemma RegistrationCodeMiddle(r: Row, sem: string)
    ensures var h := |AsText(Get(r, StudentCodeColumn)) + "_" + ShortYear(Get(r, YearColumn)) + "_"|;
      var code := RegistrationCode(r, sem);
      h + 1 + |sem| <= |code| && code[h..|code| - 1 - |sem|] == AsText(Get(r, ParcoursColumn))
  {
    var head := AsText(Get(r, StudentCodeColumn)) + "_" + ShortYear(Get(r, YearColumn)) + "_";
    var mid := AsText(Get(r, ParcoursColumn));
    assert RegistrationCode(r, sem) == head + mid + "_" + sem;
    assert (head + mid + "_" + sem)[|head|..|head| + |mid|] == mid;
  }

  /** The columns of the result: the input's, less the semester flags and
      the temporary columns, plus the semester and the code. */
  function OutputColumns(cols: set<string>): set<string> {
    (cols - DroppedColumns) + {SemesterIdColumn, RegistrationCodeColumn}
  }

  /** The semester and code columns survive the final drop. */
  lemma OutputColumnsKept(cols: set<string>)
    ensures SemesterIdColumn in OutputColumns(cols) && RegistrationCodeColumn in OutputColumns(cols)
    ensures forall c :: c in DroppedColumns ==> c !in OutputColumns(cols)
  {
    assert forall k :: 0 <= k < |SemesterColumns| ==> |SemesterColumns[k]| == 3;
    assert SemesterIdColumn !in DroppedColumns;
    assert RegistrationCodeColumn !in DroppedColumns;
  }

  /** One output row: the input row without the dropped columns, with its
      semester and its code. */
  function OutputRow(rows: seq<Row>, sems: seq<string>, p: Slot): Row
    requires p.row < |rows| && p.sem < |sems|
  {
    var r := rows[p.row];
    (r - DroppedColumns)[SemesterIdColumn := Some(sems[p.sem])][RegistrationCodeColumn := Some(RegistrationCode(r, sems[p.sem]))]
  }

  /** Some kept slot has key `key`. */
  predicate KeyKept(rows: seq<Row>, sems: seq<string>, src: seq<Slot>, key: string) {
    exists j :: 0 <= j < |src| && src[j].row < |rows| && src[j].sem < |sems| && ConstraintKey(rows, sems, src[j]) == key
  }

  // ---------------------------------------------------------------------------
  // Keep-first on the exploded rows

  /** Every slot of `ps` is enrolled. */
  predicate AllValid(rows: seq<Row>, sems: seq<string>, ps: seq<Slot>) {
    forall a :: 0 <= a < |ps| ==> ValidSlot(rows, sems, ps[a])
  }

  /** The constraint key of every slot. */
  function SlotKeys(rows: seq<Row>, sems: seq<string>, ps: seq<Slot>): (keys: seq<string>)
    requires AllValid(rows, sems, ps)
    ensures |keys| == |ps|
    ensures forall a :: 0 <= a < |ps| ==> keys[a] == ConstraintKey(rows, sems, ps[a])
  {
    seq(|ps|, a requires 0 <= a < |ps| => ConstraintKey(rows, sems, ps[a]))
  }

  /** What `KeepFirst` promises about the positions it returns. */
  predicate KeepsFirst(keys: seq<string>, kept: seq<nat>) {
    && (forall k :: 0 <= k < |kept| ==> kept[k] < |keys|)
    && (forall a, b :: 0 <= a < b < |kept| ==> kept[a] < kept[b])
    && (forall k :: 0 <= k < |kept| ==> IsFirstOccurrence(keys, kept[k]))
    && (forall j :: 0 <= j < |keys| ==> KeptKey(keys, kept, keys[j]))
  }

  function Pick(ps: seq<Slot>, kept: seq<nat>): (src: seq<Slot>)
    requires forall k :: 0 <= k < |kept| ==> kept[k] < |ps|
    ensures |src| == |kept|
    ensures forall j :: 0 <= j < |kept| ==> src[j] == ps[kept[j]]
  {
    seq(|kept|, j requires 0 <= j < |kept| => ps[kept[j]])
  }

  lemma PickSorted(ps: seq<Slot>, kept: seq<nat>)
    requires forall k :: 0 <= k < |kept| ==> kept[k] < |ps|
    requires forall a, b :: 0 <= a < b < |kept| ==> kept[a] < kept[b]
    requires SortedSlots(ps)
    ensures SortedSlots(Pick(ps, kept))
  {
    var src := Pick(ps, kept);
    forall a, b | 0 <= a < b < |src| ensures Before(src[a], src[b]) {
      assert kept[a] < kept[b];
    }
  }

  lemma PickDistinct(rows: seq<Row>, sems: seq<string>, ps: seq<Slot>, kept: seq<nat>)
    requires AllValid(rows, sems, ps)
    requires KeepsFirst(SlotKeys(rows, sems, ps), kept)
    ensures forall a, b :: 0 <= a < b < |kept| ==>
      ConstraintKey(rows, sems, ps[kept[a]]) != ConstraintKey(rows, sems, ps[kept[b]])
  {
    var keys := SlotKeys(rows, sems, ps);
    forall a, b | 0 <= a < b < |kept|
      ensures ConstraintKey(rows, sems, ps[kept[a]]) != ConstraintKey(rows, sems, ps[kept[b]])
    {
      assert kept[a] < kept[b];
      assert IsFirstOccurrence(keys, kept[b]);
    }
  }

  lemma PickCovers(rows: seq<Row>, sems: seq<string>, ps: seq<Slot>, kept: seq<nat>, p: Slot)
    requires AllValid(rows, sems, ps)
    requires KeepsFirst(SlotKeys(rows, sems, ps), kept)
    requires p in ps
    ensures KeyKept(rows, sems, Pick(ps, kept), ConstraintKey(rows, sems, p))
  {
    var keys := SlotKeys(rows, sems, ps);
    var m :| 0 <= m < |ps| && ps[m] == p;
    assert KeptKey(keys, kept, keys[m]);
    var k :| 0 <= k < |kept| && keys[kept[k]] == keys[m];
    assert Pick(ps, kept)[k] == ps[kept[k]];
  }

  lemma PickFirst(rows: seq<Row>, sems: seq<string>, ps: seq<Slot>, kept: seq<nat>, j: nat, p: Slot)
    requires AllValid(rows, sems, ps) && SortedSlots(ps)
    requires KeepsFirst(SlotKeys(rows, sems, ps), kept)
    requires j < |kept| && p in ps && Before(p, ps[kept[j]])
    ensures ConstraintKey(rows, sems, p) != ConstraintKey(rows, sems, ps[kept[j]])
  {
    var keys := SlotKeys(rows, sems, ps);
    var m :| 0 <= m < |ps| && ps[m] == p;
    SortedIndex(ps, m, kept[j]);
    assert IsFirstOccurrence(keys, kept[j]);
    assert keys[m] != keys[kept[j]];
  }

  // ---------------------------------------------------------------------------
  // The pass

  /** Melts the frame over `sems`, keeps the enrolled rows, and de-duplicates
      them keep-first on the constraint key. `src[j]` is the melted row
      output row `j` comes from. The output rows are enrolled slots in melt
      order; no two share a key; every enrolled slot's key is kept; and each
      kept slot is the first, in melt order, with its key. */
  method ExplodeAndDeduplicate(t: Table, sems: seq<string>) returns (r: Table, src: seq<Slot>)
    ensures r.columns == OutputColumns(t.columns)
    ensures |r.rows| == |src|
    ensures forall j :: 0 <= j < |src| ==>
      ValidSlot(t.rows, sems, src[j]) && r.rows[j] == OutputRow(t.rows, sems, src[j])
    ensures SortedSlots(src)
    ensures forall a, b :: 0 <= a < b < |src| && ValidSlot(t.rows, sems, src[a]) && ValidSlot(t.rows, sems, src[b]) ==>
      ConstraintKey(t.rows, sems, src[a]) != ConstraintKey(t.rows, sems, src[b])
    ensures forall p :: ValidSlot(t.rows, sems, p) ==> KeyKept(t.rows, sems, src, ConstraintKey(t.rows, sems, p))
    ensures forall j, p :: 0 <= j < |src| && ValidSlot(t.rows, sems, src[j]) && ValidSlot(t.rows, sems, p) && Before(p, src[j]) ==>
      ConstraintKey(t.rows, sems, p) != ConstraintKey(t.rows, sems, src[j])
  {
    var slots := Slots(t.rows, sems, 0);
    SlotsFacts(t.rows, sems, 0);
    var keys := SlotKeys(t.rows, sems, slots);
    var kept := KeepFirst(keys);
    src := Pick(slots, kept);
    r := Table(OutputColumns(t.columns), seq(|kept|, j requires 0 <= j < |kept| => OutputRow(t.rows, sems, src[j])));
    PickSorted(slots, kept);
    PickDistinct(t.rows, sems, slots, kept);
    forall p | ValidSlot(t.rows, sems, p) ensures KeyKept(t.rows, sems, src, ConstraintKey(t.rows, sems, p)) {
      PickCovers(t.rows, sems, slots, kept, p);
    }
    forall j, p | 0 <= j < |src| && ValidSlot(t.rows, sems, src[j]) && ValidSlot(t.rows, sems, p) && Before(p, src[j])
      ensures ConstraintKey(t.rows, sems, p) != ConstraintKey(t.rows, sems, src[j])
    {
      PickFirst(t.rows, sems, slots, kept, j, p);
    }
  }

  /** `gerer_code_inscription_par_semestre` with the melt over the semester
      columns the frame holds. A frame the guard rejects comes back as it is;
      otherwise the result is `ExplodeAndDeduplicate` over those columns,
      keep-first included, and holds none of the semester flags or temporary
      columns. */
  method ManageSemesterCodes(t: Table) returns (r: Table, sems: seq<string>, src: seq<Slot>)
    ensures !Applies(t) ==> r == t && src == []
    ensures Applies(t) ==> sems == PresentSemesters(t.columns) && sems != []
    ensures Applies(t) ==> r.columns == OutputColumns(t.columns) && |r.rows| == |src|
    ensures Applies(t) ==> forall c :: c in DroppedColumns ==> c !in r.columns
    ensures Applies(t) ==> SemesterIdColumn in r.columns && RegistrationCodeColumn in r.columns
    ensures Applies(t) ==> forall j :: 0 <= j < |src| ==>
      ValidSlot(t.rows, sems, src[j]) && r.rows[j] == OutputRow(t.rows, sems, src[j])
    ensures Applies(t) ==> SortedSlots(src)
    ensures Applies(t) ==> forall a, b ::
      0 <= a < b < |src| && ValidSlot(t.rows, sems, src[a]) && ValidSlot(t.rows, sems, src[b]) ==>
        ConstraintKey(t.rows, sems, src[a]) != ConstraintKey(t.rows, sems, src[b])
    ensures Applies(t) ==> forall p :: ValidSlot(t.rows, sems, p) ==>
      KeyKept(t.rows, sems, src, ConstraintKey(t.rows, sems, p))
    ensures Applies(t) ==> forall j, p ::
      0 <= j < |src| && ValidSlot(t.rows, sems, src[j]) && ValidSlot(t.rows, sems, p) && Before(p, src[j]) ==>
        ConstraintKey(t.rows, sems, p) != ConstraintKey(t.rows, sems, src[j])
  {
    if !Applies(t) {
      return t, [], [];
    }
    sems := PresentSemesters(t.columns);
    r, src := ExplodeAndDeduplicate(t, sems);
    OutputColumnsKept(t.columns);
  }

  /** The pass as written: the melt names all sixteen semester columns, so a
      frame that passes the guard with only some of them fails. */
  method ManageSemesterCodesAsWritten(t: Table) returns (r: Result<Table, string>)
    ensures !Applies(t) ==> r == Success(t)
    ensures Applies(t) ==> (r.Failure? <==> !HasAllSemesters(t.columns))
    ensures Applies(t) && r.Success? ==> r.value.columns == OutputColumns(t.columns)
  {
    if !Applies(t) {
      return Success(t);
    }
    match MeltColumnsAsWritten(t.columns)
    case Failure(e) =>
      r := Failure(e);
    case Success(sems) =>
      var x, _ := ExplodeAndDeduplicate(t, sems);
      r := Success(x);
  }

  /** A frame with the base columns and only `S01` passes the guard, but the
      melt as written rejects it; the corrected pass melts `S01` alone. */
  lemma PartialSemestersRejected()
    ensures var cols := {StudentCodeColumn, YearColumn, ParcoursColumn, "S01"};
      && Applies(Table(cols, []))
      && MeltColumnsAsWritten(cols).Failure?
      && PresentSemesters(cols) == ["S01"]
  {
    var cols := {StudentCodeColumn, YearColumn, ParcoursColumn, "S01"};
    assert SemesterColumns[0] in cols;
    assert SemesterColumns[1] !in cols;
    PresentNone(SemesterColumns[1..], cols);
  }

  lemma {:induction false} PresentNone(names: seq<string>, cols: set<string>)
    requires forall k :: 0 <= k < |names| ==> names[k] !in cols
    ensures Present(names, cols) == []
  {
    if names != [] {
      PresentNone(names[1..], cols);
    }
  }
}
