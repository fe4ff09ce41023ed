/** `gerer_code_etudiant_et_consolider` end to end: groups the rows by
    chaining candidate keys, gives every group its student code, consolidates
    the identity fields within groups, and removes the working columns. */
module StudentPipeline {
  import opened Wrappers
  import opened Text
  import opened Tables
  import opened StudentKeys
  import opened Clustering
  import opened StudentCodes

  const CodeColumn: string := "code_etudiant"
  const YearColumn: string := "annee_universitaire"

  /** The academic year written into a frame that has none. */
  const UnspecifiedYear: string := "NON_SPECIFIEE"

  /** Raw identifier columns the key builder adds, all missing, when the
      frame lacks them; unlike the other working columns they stay. */
  const IdentifierColumns: set<string> := {"naissance_date", "cin", "telephone"}

  /** The working columns removed at the end: standardised fields, candidate
      keys, group labels, sequence numbers, temporary labels and the year
      columns of step 6.1. Any input column with such a name goes too. */
  predicate IsWorkingColumn(c: string) {
    || EndsWith(c, "_standard")
    || c in KeyNames
    || StartsWith(c, "id_groupe")
    || StartsWith(c, "code_final_sequence")
    || StartsWith(c, "id_temporaire")
    || c == "annee_debut"
    || c == "annee_universitaire_min"
  }

  /** The academic year each row is read with in step 6.1. */
  function YearCell(t: Table, i: nat): Cell
    requires i < |t.rows|
  {
    if YearColumn in t.columns then Get(t.rows[i], YearColumn) else Some(UnspecifiedYear)
  }

  function StartYears(t: Table): (years: seq<nat>)
    ensures |years| == |t.rows|
  {
    seq(|t.rows|, i requires 0 <= i < |t.rows| => StartYear(YearCell(t, i)))
  }

  /** Writes one cell per row into column `col`, adding the column. */
  function SetColumn(t: Table, col: string, vals: seq<Cell>): (r: Table)
    requires |vals| == |t.rows|
    ensures r.columns == t.columns + {col} && |r.rows| == |t.rows|
    ensures forall i :: 0 <= i < |r.rows| ==> Get(r.rows[i], col) == vals[i]
    ensures forall i, c :: 0 <= i < |r.rows| && c != col ==> Get(r.rows[i], c) == Get(t.rows[i], c)
  {
    Table(t.columns + {col}, seq(|t.rows|, i requires 0 <= i < |t.rows| => t.rows[i][col := vals[i]]))
  }

  /** Steps 1 to 3 and 6 on the frame: the missing identifier columns, the
      default academic year when there is none, and the codes. */
  function WithCodes(t: Table, codes: seq<string>): (r: Table)
    requires |codes| == |t.rows|
    ensures r.columns == t.columns + IdentifierColumns + {YearColumn, CodeColumn}
    ensures |r.rows| == |t.rows|
    ensures forall i :: 0 <= i < |r.rows| ==> Get(r.rows[i], CodeColumn) == Some(codes[i])
    ensures forall i :: 0 <= i < |r.rows| ==> Get(r.rows[i], YearColumn) == YearCell(t, i)
    ensures forall i, c :: 0 <= i < |r.rows| && c != CodeColumn && c != YearColumn ==> Get(r.rows[i], c) == Get(t.rows[i], c)
  {
    var t1 := Table(t.columns + IdentifierColumns, t.rows);
    var t2 :=
      if YearColumn in t.columns then t1
      else SetColumn(t1, YearColumn, seq(|t.rows|, i requires 0 <= i < |t.rows| => Some(UnspecifiedYear)));
    SetColumn(t2, CodeColumn, seq(|t.rows|, i requires 0 <= i < |t.rows| => Some(codes[i])))
  }

  /** The working columns of a frame. */
  function WorkingColumns(t: Table): set<string> {
    set c | c in t.columns && IsWorkingColumn(c)
  }

  /** Steps 6.3 to 8 given the labels and the codes. */
  function Assemble(t: Table, groups: seq<nat>, codes: seq<string>): (r: Table)
    requires |groups| == |t.rows| && |codes| == |t.rows|
    ensures |r.rows| == |t.rows|
    ensures forall c :: c in r.columns <==>
      (c in t.columns || c in IdentifierColumns || c == YearColumn || c == CodeColumn) && !IsWorkingColumn(c)
  {
    var w := WithCodes(t, codes);
    DropColumns(Consolidate(w, groups), WorkingColumns(w))
  }

  /** The code and year columns are not working columns. */
  lemma KeptColumnsAreNotWorking()
    ensures !IsWorkingColumn(CodeColumn) && !IsWorkingColumn(YearColumn)
  {
    assert forall k :: 0 <= k < |KeyNames| ==> KeyNames[k][0] == 'n';
    assert CodeColumn[5] == 'e' && "code_final_sequence"[5] == 'f';
    NotWorking(CodeColumn);
    NotWorking(YearColumn);
  }

  /** A name that starts with neither `n` nor `i`, does not end in `d`, is
      not a sequence column and is not one of the two year columns is not a
      working column. */
  lemma NotWorking(c: string)
    requires |c| > 0 && c[0] != 'n' && c[0] != 'i' && c[|c| - 1] != 'd'
    requires !StartsWith(c, "code_final_sequence")
    requires forall k :: 0 <= k < |KeyNames| ==> KeyNames[k][0] == 'n'
    requires c != "annee_debut" && c != "annee_universitaire_min"
    ensures !IsWorkingColumn(c)
  {
    assert c !in KeyNames;
  }

  /** Every row of the assembled frame holds its code. */
  lemma AssembleCodes(t: Table, groups: seq<nat>, codes: seq<string>)
    requires |groups| == |t.rows| && |codes| == |t.rows|
    ensures forall i :: 0 <= i < |t.rows| ==> Get(Assemble(t, groups, codes).rows[i], CodeColumn) == Some(codes[i])
  {
    KeptColumnsAreNotWorking();
    var w := WithCodes(t, codes);
    assert CodeColumn !in ConsolidatedIn(w);
  }

  lemma AssembleConsolidatesAt(t: Table, groups: seq<nat>, codes: seq<string>, i: nat, j: nat, c: string)
    requires |groups| == |t.rows| && |codes| == |t.rows|
    requires i < |t.rows| && j < |t.rows| && groups[i] == groups[j]
    requires c in ConsolidatedColumns && c in Assemble(t, groups, codes).columns
    ensures Get(Assemble(t, groups, codes).rows[i], c) == Get(Assemble(t, groups, codes).rows[j], c)
  {
    var w := WithCodes(t, codes);
    var k := Consolidate(w, groups);
    var r := DropColumns(k, WorkingColumns(w));
    assert r == Assemble(t, groups, codes);
    assert c in ConsolidatedIn(w);
  }

  /** Each listed identity field the result holds is, in every row, the
      first filled value of the row's group in the input, in row order. */
  lemma AssembleTakesFirstFilled(t: Table, groups: seq<nat>, codes: seq<string>, i: nat, c: string)
    requires |groups| == |t.rows| && |codes| == |t.rows| && i < |t.rows|
    requires c in ConsolidatedColumns && c in Assemble(t, groups, codes).columns
    ensures Get(Assemble(t, groups, codes).rows[i], c) == FirstFilled(t.rows, groups, groups[i], c, |t.rows|)
  {
    var w := WithCodes(t, codes);
    var k := Consolidate(w, groups);
    assert DropColumns(k, WorkingColumns(w)) == Assemble(t, groups, codes);
    assert !IsWorkingColumn(c);
    assert Get(Assemble(t, groups, codes).rows[i], c) == Get(k.rows[i], c);
    ConsolidatedAreNotCodeOrYear();
    assert c in ConsolidatedIn(w);
    ConsolidateTakesFirstFilled(w, groups, i, c);
    FirstFilledAgree(w.rows, t.rows, groups, groups[i], c, |t.rows|);
  }

  /** The code and year columns are not among the consolidated fields. */
  lemma ConsolidatedAreNotCodeOrYear()
    ensures CodeColumn !in ConsolidatedColumns && YearColumn !in ConsolidatedColumns
  {
  }

  /** The listed identity fields the result holds are uniform within each
      group. */
  lemma AssembleConsolidates(t: Table, groups: seq<nat>, codes: seq<string>)
    requires |groups| == |t.rows| && |codes| == |t.rows|
    ensures forall i, j, c ::
      (0 <= i < |t.rows| && 0 <= j < |t.rows| && c in ConsolidatedColumns && c in Assemble(t, groups, codes).columns
       && groups[i] == groups[j]
       ==> Get(Assemble(t, groups, codes).rows[i], c) == Get(Assemble(t, groups, codes).rows[j], c))
  {
    forall i, j, c | 0 <= i < |t.rows| && 0 <= j < |t.rows| && c in ConsolidatedColumns && c in Assemble(t, groups, codes).columns
      && groups[i] == groups[j]
      ensures Get(Assemble(t, groups, codes).rows[i], c) == Get(Assemble(t, groups, codes).rows[j], c)
    {
      AssembleConsolidatesAt(t, groups, codes, i, j, c);
    }
  }

  /** Every other input column that is not a working column is unchanged. */
  lemma AssembleKeepsOthers(t: Table, groups: seq<nat>, codes: seq<string>)
    requires |groups| == |t.rows| && |codes| == |t.rows|
    ensures forall i, c ::
      (0 <= i < |t.rows| && c in t.columns && c !in ConsolidatedColumns && c != CodeColumn && !IsWorkingColumn(c)
       ==> Get(Assemble(t, groups, codes).rows[i], c) == Get(t.rows[i], c))
    ensures YearColumn !in t.columns ==>
      forall i :: 0 <= i < |t.rows| ==> Get(Assemble(t, groups, codes).rows[i], YearColumn) == Some(UnspecifiedYear)
  {
    KeptColumnsAreNotWorking();
    var w := WithCodes(t, codes);
    assert YearColumn !in ConsolidatedIn(w);
  }

  /** Steps 6 to 8 for given group labels: every row gets its group's
      student code, which names the group's oldest start year and its
      sequence number `seqs[i]`; the numbers run `1 .. K` without gaps, an
      older group getting a smaller one; every listed identity field holds
      its group's first filled value in row order; every other input column
      that is not a working column is unchanged; and no working column is
      left. */
  method CodeAndAssemble(t: Table, groups: seq<nat>) returns (r: Table, seqs: seq<nat>)
    requires |groups| == |t.rows|
    ensures |r.rows| == |t.rows| && |seqs| == |t.rows|
    ensures forall c :: c in r.columns <==>
      (c in t.columns || c in IdentifierColumns || c == YearColumn || c == CodeColumn) && !IsWorkingColumn(c)
    ensures forall i, j :: 0 <= i < |r.rows| && 0 <= j < |r.rows| ==>
      (Get(r.rows[i], CodeColumn) == Get(r.rows[j], CodeColumn) <==> groups[i] == groups[j])
    ensures forall i :: 0 <= i < |r.rows| ==>
      Get(r.rows[i], CodeColumn).Some?
      && DecodeStudentCode(Get(r.rows[i], CodeColumn).value) == Some((MinYear(groups, StartYears(t), i), seqs[i]))
    ensures forall i :: 0 <= i < |seqs| ==> 1 <= seqs[i] <= |seqs|
    ensures forall i :: 0 <= i < |seqs| && seqs[i] > 1 ==> Taken(seqs, seqs[i] - 1)
    ensures forall i, j :: 0 <= i < |seqs| && 0 <= j < |seqs| ==> (seqs[i] == seqs[j] <==> groups[i] == groups[j])
    ensures forall i, j :: 0 <= i < |seqs| && 0 <= j < |seqs| && MinYear(groups, StartYears(t), i) < MinYear(groups, StartYears(t), j) ==>
      seqs[i] < seqs[j]
    ensures forall i, c :: 0 <= i < |r.rows| && c in ConsolidatedColumns && c in r.columns ==>
      Get(r.rows[i], c) == FirstFilled(t.rows, groups, groups[i], c, |t.rows|)
    ensures forall i, c ::
      (0 <= i < |r.rows| && c in t.columns && c !in ConsolidatedColumns && c != CodeColumn && !IsWorkingColumn(c)
       ==> Get(r.rows[i], c) == Get(t.rows[i], c))
    ensures YearColumn !in t.columns ==>
      forall i :: 0 <= i < |r.rows| ==> Get(r.rows[i], YearColumn) == Some(UnspecifiedYear)
  {
    var years := StartYears(t);
    var codes;
    seqs, codes := AssignCodes(groups, years);
    r := Assemble(t, groups, codes);
    AssembleCodes(t, groups, codes);
    AssembleKeepsOthers(t, groups, codes);
    forall i, c | 0 <= i < |r.rows| && c in ConsolidatedColumns && c in r.columns
      ensures Get(r.rows[i], c) == FirstFilled(t.rows, groups, groups[i], c, |t.rows|)
    {
      AssembleTakesFirstFilled(t, groups, codes, i, c);
    }
    forall i | 0 <= i < |r.rows|
      ensures DecodeStudentCode(Get(r.rows[i], CodeColumn).value) == Some((MinYear(groups, years, i), seqs[i]))
    {
      DecodeStudentCodeRoundTrip(MinYear(groups, years, i), seqs[i]);
    }
  }

  /** The whole step. An empty frame, one without rows or without columns,
      comes back as it is. Otherwise the
      result has one row per input row, and `groups` are the labels the
      chaining loop settles on: rows sharing an unguarded key share a label,
      the weak key is settled, and rows share a label only when a chain of
      shared key values connects them. Two rows share a student code exactly
      when they share a label, and the rest is `CodeAndAssemble`. */
  method ManageStudentCodes(t: Table) returns (r: Table, groups: seq<nat>, seqs: seq<nat>)
    ensures IsEmptyFrame(t) ==> r == t && groups == [] && seqs == []
    ensures |r.rows| == |t.rows|
    ensures !IsEmptyFrame(t) ==> |groups| == |t.rows| && |seqs| == |t.rows|
    ensures !IsEmptyFrame(t) ==> Bounded(groups)
    ensures !IsEmptyFrame(t) ==> forall k :: 0 <= k < WeakKey ==> ClosedUnder(KeyColumns(t.rows)[k], groups)
    ensures !IsEmptyFrame(t) ==> Settled(t.rows, KeyColumns(t.rows)[WeakKey], groups, true)
    ensures !IsEmptyFrame(t) ==> forall i, j :: 0 <= i < |groups| && 0 <= j < |groups| && groups[i] == groups[j] ==>
      Linked(KeyColumns(t.rows), i, j)
    ensures !IsEmptyFrame(t) ==> forall c :: c in r.columns <==>
      (c in t.columns || c in IdentifierColumns || c == YearColumn || c == CodeColumn) && !IsWorkingColumn(c)
    ensures !IsEmptyFrame(t) ==> forall i, j :: 0 <= i < |r.rows| && 0 <= j < |r.rows| ==>
      (Get(r.rows[i], CodeColumn) == Get(r.rows[j], CodeColumn) <==> groups[i] == groups[j])
    ensures !IsEmptyFrame(t) ==> forall i :: 0 <= i < |r.rows| ==>
      Get(r.rows[i], CodeColumn).Some?
      && DecodeStudentCode(Get(r.rows[i], CodeColumn).value) == Some((MinYear(groups, StartYears(t), i), seqs[i]))
    ensures forall i :: 0 <= i < |seqs| ==> 1 <= seqs[i] <= |seqs|
    ensures forall i :: 0 <= i < |seqs| && seqs[i] > 1 ==> Taken(seqs, seqs[i] - 1)
    ensures forall i, j :: 0 <= i < |seqs| && 0 <= j < |seqs| ==> (seqs[i] == seqs[j] <==> groups[i] == groups[j])
    ensures forall i, j :: 0 <= i < |seqs| && 0 <= j < |seqs| && MinYear(groups, StartYears(t), i) < MinYear(groups, StartYears(t), j) ==>
      seqs[i] < seqs[j]
    ensures !IsEmptyFrame(t) ==> forall i, c :: 0 <= i < |r.rows| && c in ConsolidatedColumns && c in r.columns ==>
      Get(r.rows[i], c) == FirstFilled(t.rows, groups, groups[i], c, |t.rows|)
    ensures !IsEmptyFrame(t) ==> forall i, c ::
      (0 <= i < |r.rows| && c in t.columns && c !in ConsolidatedColumns && c != CodeColumn && !IsWorkingColumn(c)
       ==> Get(r.rows[i], c) == Get(t.rows[i], c))
    ensures !IsEmptyFrame(t) && YearColumn !in t.columns ==>
      forall i :: 0 <= i < |r.rows| ==> Get(r.rows[i], YearColumn) == Some(UnspecifiedYear)
    ensures !IsEmptyFrame(t) ==> groups == Fixpoint(t.rows, KeyColumns(t.rows), Singletons(|t.rows|))
  {
    if IsEmptyFrame(t) {
      return t, [], [];
    }
    groups := Resolve(t.rows);
    r, seqs := CodeAndAssemble(t, groups);
  }
}
