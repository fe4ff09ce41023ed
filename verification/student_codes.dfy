/** Code assignment and field consolidation of the student entity-resolution
    engine (`gerer_code_etudiant_et_consolider`, steps 6 and 7): every group
    of rows gets the code `ETU<min start year>_<sequence>`, sequence numbers
    following the groups' oldest start year, and the listed identity fields
    take, within each group, the first filled value in row order. */
module StudentCodes {
  import opened Wrappers
  import opened Text
  import opened Tables

  // ---------------------------------------------------------------------------
  // Start years

  /** The start year used when `annee_universitaire` does not start with a
      number. */
  const FallbackYear: nat := 9999

  /** `annee_debut`: the part of `annee_universitaire` before the first `'-'`,
      read as a number, or `FallbackYear` when it is not one. A missing year
      reads as the text `nan`, which is not a number. */
  function StartYear(c: Cell): (y: nat)
    ensures c.None? ==> y == FallbackYear
  {
    SplitNoSeparator(MissingText, '-');
    assert !IsDigits(MissingText) by { assert MissingText[0] in MissingText; }
    var p := Split(AsText(c), '-')[0];
    if p != [] && IsDigits(p) then ParseDigits(p) else FallbackYear
  }

  /** An academic year `A-B` starts in year `A`. */
  lemma StartYearOfRange(a: nat, rest: string)
    ensures StartYear(Some(NatToString(a) + "-" + rest)) == a
  {
    var y := NatToString(a);
    assert '-' !in y;
    SplitAtSeparator(y, '-', rest);
    assert y + "-" + rest == y + ['-'] + rest;
    ParseNatToString(a);
  }

  /** `annee_universitaire_min` of row `i`: the smallest start year in its
      group (`groupby('id_groupe').transform('min')`). */
  function MinYear(ids: seq<nat>, years: seq<nat>, i: nat): nat
    requires |ids| == |years| && i < |ids|
  {
    GroupMin(ids, years, ids[i], |ids|).GetOr(years[i])
  }

  /** `MinYear` is the minimum of the group's start years, shared by every
      row of the group. */
  lemma MinYearOfGroup(ids: seq<nat>, years: seq<nat>, i: nat)
    requires |ids| == |years| && i < |ids|
    ensures exists j :: 0 <= j < |ids| && ids[j] == ids[i] && years[j] == MinYear(ids, years, i)
    ensures forall j :: 0 <= j < |ids| && ids[j] == ids[i] ==> MinYear(ids, years, i) <= years[j]
    ensures forall j :: 0 <= j < |ids| && ids[j] == ids[i] ==> MinYear(ids, years, j) == MinYear(ids, years, i)
  {
    GroupMinIsMinimum(ids, years, ids[i], |ids|);
  }

  // ---------------------------------------------------------------------------
  // Ordering the groups

  predicate InRangeOf(s: seq<nat>, n: nat) {
    forall k :: 0 <= k < |s| ==> s[k] < n
  }

  predicate Distinct(s: seq<nat>) {
    forall a, b :: 0 <= a < b < |s| ==> s[a] != s[b]
  }

  /** Row `a` is sorted before row `b`: an older minimum start year first,
      ties in row order. */
  predicate Before(yr: seq<nat>, a: nat, b: nat)
    requires a < |yr| && b < |yr|
  {
    yr[a] < yr[b] || (yr[a] == yr[b] && a < b)
  }

  predicate SortedBy(s: seq<nat>, yr: seq<nat>)
    requires InRangeOf(s, |yr|)
  {
    forall a, b :: 0 <= a < b < |s| ==> Before(yr, s[a], s[b])
  }

  /** Inserts row `x` into a sorted list of rows. */
  function Insert(x: nat, s: seq<nat>, yr: seq<nat>): (r: seq<nat>)
    requires x < |yr| && InRangeOf(s, |yr|) && SortedBy(s, yr) && x !in s
    ensures InRangeOf(r, |yr|) && SortedBy(r, yr)
    ensures |r| == |s| + 1
    ensures forall y :: y in r <==> y in s || y == x
  {
    if s == [] then [x]
    else if Before(yr, x, s[0]) then [x] + s
    else
      var tail := Insert(x, s[1..], yr);
      assert forall y :: y in s ==> y == s[0] || y in s[1..];
      assert forall k :: 0 <= k < |tail| ==> Before(yr, s[0], tail[k]) by {
        forall k | 0 <= k < |tail| ensures Before(yr, s[0], tail[k]) {
          var y := tail[k];
          assert y in tail;
          if y != x {
            var m :| 0 <= m < |s[1..]| && s[1..][m] == y;
            assert s[m + 1] == y;
          }
        }
      }
      [s[0]] + tail
  }

  /** `sort_values(by='annee_universitaire_min')` over the first row of each
      group: the same rows, sorted. */
  function SortByYear(s: seq<nat>, yr: seq<nat>): (r: seq<nat>)
    requires InRangeOf(s, |yr|) && Distinct(s)
    ensures InRangeOf(r, |yr|) && SortedBy(r, yr)
    ensures |r| == |s|
    ensures forall y :: y in r <==> y in s
  {
    if s == [] then []
    else
      var rest := SortByYear(s[1..], yr);
      assert s[0] !in s[1..];
      assert forall y :: y in s <==> y == s[0] || y in s[1..];
      Insert(s[0], rest, yr)
  }

  /** The position of group `g` in the ordered list of representative rows,
      or the list's length when it is not listed. */
  function Position(order: seq<nat>, ids: seq<nat>, g: nat): (k: nat)
    requires InRangeOf(order, |ids|)
    ensures k <= |order|
    ensures k < |order| ==> ids[order[k]] == g
    ensures forall q :: 0 <= q < k ==> ids[order[q]] != g
  {
    if order == [] then 0
    else if ids[order[0]] == g then 0
    else 1 + Position(order[1..], ids, g)
  }

  predicate Listed(order: seq<nat>, ids: seq<nat>, g: nat)
    requires InRangeOf(order, |ids|)
  {
    exists k :: 0 <= k < |order| && ids[order[k]] == g
  }

  /** `order` lists one row of every group, each group once. */
  predicate GroupOrder(order: seq<nat>, ids: seq<nat>) {
    && InRangeOf(order, |ids|)
    && (forall a, b :: 0 <= a < b < |order| ==> ids[order[a]] != ids[order[b]])
    && (forall i :: 0 <= i < |ids| ==> Listed(order, ids, ids[i]))
  }

  lemma PositionFacts(order: seq<nat>, ids: seq<nat>)
    requires GroupOrder(order, ids)
    ensures forall i :: 0 <= i < |ids| ==> Position(order, ids, ids[i]) < |order|
    ensures forall k :: 0 <= k < |order| ==> Position(order, ids, ids[order[k]]) == k
  {
    forall i | 0 <= i < |ids| ensures Position(order, ids, ids[i]) < |order| {
      assert Listed(order, ids, ids[i]);
    }
  }

  // ---------------------------------------------------------------------------
  // Codes

  const SequenceWidth: nat := 6

  /** `'ETU' + annee_universitaire_min + '_' + zfill(6)(sequence)`. */
  function StudentCode(year: nat, seqNo: nat): string {
    "ETU" + NatToString(year) + "_" + ZFill(NatToString(seqNo), SequenceWidth)
  }

  /** Reads a student code back into its year and sequence number. */
  function DecodeStudentCode(code: string): Option<(nat, nat)> {
    if |code| >= 3 && code[..3] == "ETU" then
      var parts := Split(code[3..], '_');
      if |parts| == 2 && IsDigits(parts[0]) && IsDigits(parts[1]) then
        Some((ParseDigits(parts[0]), ParseDigits(parts[1])))
      else None
    else None
  }

  /** A student code gives back the year and the sequence number it was
      built from. */
  lemma DecodeStudentCodeRoundTrip(year: nat, seqNo: nat)
    ensures DecodeStudentCode(StudentCode(year, seqNo)) == Some((year, seqNo))
  {
    var y := NatToString(year);
    var z := ZFill(NatToString(seqNo), SequenceWidth);
    ZFillRoundTrip(seqNo, SequenceWidth);
    ParseNatToString(year);
    DecodeDigitParts(y, z);
  }

  /** A code made of two digit strings reads back as their values. */
  lemma DecodeDigitParts(y: string, z: string)
    requires IsDigits(y) && IsDigits(z)
    ensures DecodeStudentCode("ETU" + y + "_" + z) == Some((ParseDigits(y), ParseDigits(z)))
  {
    assert '_' !in y && '_' !in z;
    var code := "ETU" + y + "_" + z;
    assert code == "ETU" + (y + ['_'] + z);
    assert code[..3] == "ETU";
    assert code[3..] == y + ['_'] + z;
    SplitAtSeparator(y, '_', z);
    SplitNoSeparator(z, '_');
  }

  /** Two codes are equal exactly when year and sequence number are. */
  lemma StudentCodeInjective(y1: nat, s1: nat, y2: nat, s2: nat)
    ensures StudentCode(y1, s1) == StudentCode(y2, s2) <==> y1 == y2 && s1 == s2
  {
    DecodeStudentCodeRoundTrip(y1, s1);
    DecodeStudentCodeRoundTrip(y2, s2);
  }

  // ---------------------------------------------------------------------------
  // Sequence numbers

  /** Every row of a sorted permutation of `reps` comes from `reps`. */
  lemma SortedFromReps(reps: seq<nat>, yr: seq<nat>, q: nat)
    requires InRangeOf(reps, |yr|) && Distinct(reps)
    requires q < |SortByYear(reps, yr)|
    ensures exists k :: 0 <= k < |reps| && reps[k] == SortByYear(reps, yr)[q]
  {
    var order := SortByYear(reps, yr);
    assert order[q] in order;
  }

  /** The representatives (first rows of each group, in row order) sorted by
      year list every group exactly once. */
  lemma SortedRepresentatives(ids: seq<nat>, reps: seq<nat>, yr: seq<nat>)
    requires |yr| == |ids|
    requires forall k :: 0 <= k < |reps| ==> reps[k] < |ids|
    requires forall a, b :: 0 <= a < b < |reps| ==> reps[a] < reps[b]
    requires forall a, b :: 0 <= a < b < |reps| ==> ids[reps[a]] != ids[reps[b]]
    requires forall j :: 0 <= j < |ids| ==> KeptKey(ids, reps, ids[j])
    ensures Distinct(reps) && InRangeOf(reps, |yr|)
    ensures GroupOrder(SortByYear(reps, yr), ids)
  {
    var order := SortByYear(reps, yr);
    forall a, b | 0 <= a < b < |order| ensures ids[order[a]] != ids[order[b]] {
      SortedFromReps(reps, yr, a);
      SortedFromReps(reps, yr, b);
      var ka :| 0 <= ka < |reps| && reps[ka] == order[a];
      var kb :| 0 <= kb < |reps| && reps[kb] == order[b];
      assert Before(yr, order[a], order[b]);
      assert ka != kb;
    }
    forall i | 0 <= i < |ids| ensures Listed(order, ids, ids[i]) {
      assert KeptKey(ids, reps, ids[i]);
      var k :| 0 <= k < |reps| && ids[reps[k]] == ids[i];
      assert reps[k] in reps;
      var q :| 0 <= q < |order| && order[q] == reps[k];
    }
  }

  /** The sequence number of each row: one more than its group's position in
      `order`. */
  function SequenceNumbers(order: seq<nat>, ids: seq<nat>): (seqs: seq<nat>)
    requires InRangeOf(order, |ids|)
    ensures |seqs| == |ids|
  {
    seq(|ids|, i requires 0 <= i < |ids| => Position(order, ids, ids[i]) + 1)
  }

  /** Some row has sequence number `s`. */
  predicate Taken(seqs: seq<nat>, s: nat) {
    exists j :: 0 <= j < |seqs| && seqs[j] == s
  }

  /** Over a group order, sequence numbers run from 1 without gaps and tell
      groups apart. */
  lemma SequenceNumbersDense(order: seq<nat>, ids: seq<nat>)
    requires GroupOrder(order, ids)
    ensures forall i :: 0 <= i < |ids| ==> 1 <= SequenceNumbers(order, ids)[i] <= |order|
    ensures forall i :: 0 <= i < |ids| && SequenceNumbers(order, ids)[i] > 1 ==>
      Taken(SequenceNumbers(order, ids), SequenceNumbers(order, ids)[i] - 1)
    ensures forall i, j :: 0 <= i < |ids| && 0 <= j < |ids| ==>
      (SequenceNumbers(order, ids)[i] == SequenceNumbers(order, ids)[j] <==> ids[i] == ids[j])
  {
    var seqs := SequenceNumbers(order, ids);
    PositionFacts(order, ids);
    forall i | 0 <= i < |ids| && seqs[i] > 1 ensures Taken(seqs, seqs[i] - 1) {
      var j := order[seqs[i] - 2];
      assert seqs[j] == seqs[i] - 1;
    }
  }

  /** Over a group order sorted by minimum year, a group with an older
      minimum year has a smaller sequence number. */
  lemma SequenceNumbersFollowYears(order: seq<nat>, ids: seq<nat>, years: seq<nat>, yr: seq<nat>)
    requires |ids| == |years| == |yr|
    requires forall i :: 0 <= i < |ids| ==> yr[i] == MinYear(ids, years, i)
    requires GroupOrder(order, ids) && SortedBy(order, yr)
    ensures forall i, j :: 0 <= i < |ids| && 0 <= j < |ids| && yr[i] < yr[j] ==>
      SequenceNumbers(order, ids)[i] < SequenceNumbers(order, ids)[j]
  {
    forall i, j | 0 <= i < |ids| && 0 <= j < |ids| && yr[i] < yr[j]
      ensures SequenceNumbers(order, ids)[i] < SequenceNumbers(order, ids)[j]
    {
      SequenceNumbersFollowYearsAt(order, ids, years, yr, i, j);
    }
  }

  lemma SequenceNumbersFollowYearsAt(order: seq<nat>, ids: seq<nat>, years: seq<nat>, yr: seq<nat>, i: nat, j: nat)
    requires |ids| == |years| == |yr| && i < |ids| && j < |ids|
    requires forall i :: 0 <= i < |ids| ==> yr[i] == MinYear(ids, years, i)
    requires GroupOrder(order, ids) && SortedBy(order, yr)
    requires yr[i] < yr[j]
    ensures SequenceNumbers(order, ids)[i] < SequenceNumbers(order, ids)[j]
  {
    PositionFacts(order, ids);
    var pi, pj := Position(order, ids, ids[i]), Position(order, ids, ids[j]);
    assert SequenceNumbers(order, ids)[i] == pi + 1 && SequenceNumbers(order, ids)[j] == pj + 1;
    MinYearOfGroup(ids, years, i);
    MinYearOfGroup(ids, years, j);
    assert yr[order[pi]] == yr[i] && yr[order[pj]] == yr[j];
  }

  /** Steps 6.1 to 6.3: sequence numbers and codes for rows labelled `ids`
      with start years `years`. Sequence numbers are `1 .. K`, one per group;
      a group with an older minimum start year gets a smaller number; and
      two rows share a code exactly when they share a group. */
  method AssignCodes(ids: seq<nat>, years: seq<nat>) returns (seqs: seq<nat>, codes: seq<string>)
    requires |ids| == |years|
    ensures |seqs| == |ids| && |codes| == |ids|
    ensures forall i :: 0 <= i < |ids| ==> 1 <= seqs[i] <= |ids|
    ensures forall i :: 0 <= i < |ids| && seqs[i] > 1 ==> Taken(seqs, seqs[i] - 1)
    ensures forall i, j :: 0 <= i < |ids| && 0 <= j < |ids| ==> (seqs[i] == seqs[j] <==> ids[i] == ids[j])
    ensures forall i, j :: 0 <= i < |ids| && 0 <= j < |ids| && MinYear(ids, years, i) < MinYear(ids, years, j) ==> seqs[i] < seqs[j]
    ensures forall i :: 0 <= i < |ids| ==> codes[i] == StudentCode(MinYear(ids, years, i), seqs[i])
    ensures forall i, j :: 0 <= i < |ids| && 0 <= j < |ids| ==> (codes[i] == codes[j] <==> ids[i] == ids[j])
  {
    var reps := KeepFirst(ids);
    var yr := seq(|ids|, i requires 0 <= i < |ids| => MinYear(ids, years, i));
    SortedRepresentatives(ids, reps, yr);
    var order := SortByYear(reps, yr);
    SequenceNumbersDense(order, ids);
    SequenceNumbersFollowYears(order, ids, years, yr);
    seqs := SequenceNumbers(order, ids);
    codes := seq(|ids|, i requires 0 <= i < |ids| => StudentCode(yr[i], seqs[i]));
    forall i, j | 0 <= i < |ids| && 0 <= j < |ids| ensures codes[i] == codes[j] <==> ids[i] == ids[j] {
      StudentCodeInjective(yr[i], seqs[i], yr[j], seqs[j]);
      MinYearOfGroup(ids, years, i);
    }
  }

  // ---------------------------------------------------------------------------
  // Consolidation

  /** `colonnes_consolidation`. */
  const ConsolidatedColumns: set<string> := {
    "nom", "prenoms", "cin", "cin_date", "cin_lieu", "nationalite", "naissance_lieu",
    "mail", "telephone", "adresse", "sexe", "bacc_annee", "bacc_serie",
    "bacc_numero", "bacc_centre", "bacc_mention", "naissance_date", "numero_inscription"
  }

  /** Missing, or the empty text, which the source turns into missing before
      taking the first value. */
  predicate Blank(c: Cell) {
    c.None? || c.value == ""
  }

  /** Row `j` is the first row of group `g` whose `col` is filled. */
  predicate FirstFilledAt(rows: seq<Row>, ids: seq<nat>, g: nat, col: string, j: nat)
    requires |ids| == |rows| && j < |rows|
  {
    ids[j] == g && !Blank(Get(rows[j], col))
    && forall k :: 0 <= k < j && ids[k] == g ==> Blank(Get(rows[k], col))
  }

  /** `groupby('id_groupe')[col].transform('first')` for group `g`, over the
      first `n` rows: the first filled value in row order, or missing. */
  function FirstFilled(rows: seq<Row>, ids: seq<nat>, g: nat, col: string, n: nat): (v: Cell)
    requires |ids| == |rows| && n <= |rows|
    ensures v.None? <==> forall j :: 0 <= j < n && ids[j] == g ==> Blank(Get(rows[j], col))
    ensures v.Some? ==> exists j :: 0 <= j < n && FirstFilledAt(rows, ids, g, col, j) && Get(rows[j], col) == v
  {
    if n == 0 then None
    else
      var r := FirstFilled(rows, ids, g, col, n - 1);
      if r.Some? then r
      else if ids[n - 1] == g && !Blank(Get(rows[n - 1], col)) then Get(rows[n - 1], col)
      else None
  }

  /** The first filled value depends only on the column it reads: two
      frames that agree on `col` in their first `n` rows give the same one. */
  lemma {:induction false} FirstFilledAgree(rows1: seq<Row>, rows2: seq<Row>, ids: seq<nat>, g: nat, col: string, n: nat)
    requires |ids| == |rows1| == |rows2| && n <= |rows1|
    requires forall j :: 0 <= j < n ==> Get(rows1[j], col) == Get(rows2[j], col)
    ensures FirstFilled(rows1, ids, g, col, n) == FirstFilled(rows2, ids, g, col, n)
  {
    if n > 0 {
      FirstFilledAgree(rows1, rows2, ids, g, col, n - 1);
    }
  }

  /** The listed columns the frame holds. */
  function ConsolidatedIn(t: Table): set<string> {
    ConsolidatedColumns * t.columns
  }

  /** Step 7: every listed column the frame holds takes, in each group, one
      value shared by the whole group; every other cell is unchanged. Which
      value: `ConsolidateTakesFirstFilled`. */
  function Consolidate(t: Table, ids: seq<nat>): (r: Table)
    requires |ids| == |t.rows|
    ensures r.columns == t.columns && |r.rows| == |t.rows|
    ensures forall i, c :: 0 <= i < |r.rows| && c !in ConsolidatedIn(t) ==> Get(r.rows[i], c) == Get(t.rows[i], c)
    ensures forall i, j, c :: (0 <= i < |r.rows| && 0 <= j < |r.rows| && c in ConsolidatedIn(t) && ids[i] == ids[j]
                               ==> Get(r.rows[i], c) == Get(r.rows[j], c))
  {
    Table(t.columns, seq(|t.rows|, i requires 0 <= i < |t.rows| =>
      t.rows[i] + map c | c in ConsolidatedIn(t) :: FirstFilled(t.rows, ids, ids[i], c, |t.rows|)))
  }

  /** The shared value is the group's first filled value in row order: it is
      missing exactly when every row of the group is blank in that column,
      and otherwise it is the value of a row before which the group has only
      blanks. */
  lemma ConsolidateTakesFirstFilled(t: Table, ids: seq<nat>, i: nat, c: string)
    requires |ids| == |t.rows| && i < |t.rows| && c in ConsolidatedIn(t)
    ensures var v := Get(Consolidate(t, ids).rows[i], c);
      && v == FirstFilled(t.rows, ids, ids[i], c, |t.rows|)
      && (v.None? <==> forall j :: 0 <= j < |ids| && ids[j] == ids[i] ==> Blank(Get(t.rows[j], c)))
      && (v.Some? ==> exists j :: 0 <= j < |ids| && FirstFilledAt(t.rows, ids, ids[i], c, j) && Get(t.rows[j], c) == v)
  {
    assert Get(Consolidate(t, ids).rows[i], c) == FirstFilled(t.rows, ids, ids[i], c, |t.rows|);
  }

  /** When every row of group `g` holds the same filled-or-missing value, the
      group's first filled value is that value. */
  lemma {:induction false} FirstFilledOfUniform(rows: seq<Row>, ids: seq<nat>, g: nat, col: string, n: nat, v: Cell)
    requires |ids| == |rows| && n <= |rows|
    requires v.None? || v.value != ""
    requires exists j :: 0 <= j < n && ids[j] == g
    requires forall j :: 0 <= j < n && ids[j] == g ==> Get(rows[j], col) == v
    ensures FirstFilled(rows, ids, g, col, n) == v
  {
    if n > 0 && exists j :: 0 <= j < n - 1 && ids[j] == g {
      FirstFilledOfUniform(rows, ids, g, col, n - 1, v);
    }
  }

  /** Consolidating twice changes nothing more. */
  lemma ConsolidateIdempotent(t: Table, ids: seq<nat>)
    requires |ids| == |t.rows|
    ensures Consolidate(Consolidate(t, ids), ids) == Consolidate(t, ids)
  {
    var r := Consolidate(t, ids);
    var r2 := Consolidate(r, ids);
    assert ConsolidatedIn(r) == ConsolidatedIn(t);
    forall i | 0 <= i < |t.rows| ensures r2.rows[i] == r.rows[i] {
      forall c | c in ConsolidatedIn(t)
        ensures FirstFilled(r.rows, ids, ids[i], c, |t.rows|) == r.rows[i][c]
      {
        var v := Get(r.rows[i], c);
        assert v.Some? ==> v.value != "" by {
          ConsolidateTakesFirstFilled(t, ids, i, c);
          if v.Some? {
            var j :| 0 <= j < |ids| && FirstFilledAt(t.rows, ids, ids[i], c, j) && Get(t.rows[j], c) == v;
          }
        }
        FirstFilledOfUniform(r.rows, ids, ids[i], c, |t.rows|, v);
      }
    }
  }
}
