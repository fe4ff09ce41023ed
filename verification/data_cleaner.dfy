/** The cleaning stage (`data_cleaner.py`): per-value normalisers of text,
    academic year, sex, track, programme identifier, national identity card
    number, phone number and registration number, and the column passes that
    apply them to a frame. */
module DataCleaner {
  import opened Wrappers
  import opened Text
  import opened Tables

  // ---------------------------------------------------------------------------
  // General text cleanup

  /** `nettoyer_colonnes_texte` as written: the cell's text with EVERY
      occurrence of `"nan"` deleted, then stripped, and missing when empty. It
      removes the text a missing cell is rendered as, but also any `"nan"`
      inside a real value. */
  function CleanTextAsWritten(c: Cell): (r: Cell)
    ensures c.None? ==> r.None?
    ensures r.Some? ==> IsTrimmed(r.value)
  {
    assert RemoveAll(MissingText, MissingText) == [];
    var v := Strip(RemoveAll(AsText(c), MissingText));
    if v == [] then None else Some(v)
  }

  /** Non-empty, with no whitespace at either end. */
  predicate IsTrimmed(s: string) {
    s != [] && !IsSpace(s[0]) && !IsSpace(s[|s| - 1])
  }

  /** A cleaned text value: trimmed, and not the rendering of a missing cell. */
  predicate IsCleanText(s: string) {
    IsTrimmed(s) && s != MissingText
  }

  /** The cleanup as intended: the cell stripped, and missing when nothing is
      left or when it is exactly the rendering of a missing cell. No cell is
      left holding `''`. */
  function CleanText(c: Cell): (r: Cell)
    ensures c.None? ==> r.None?
    ensures c.Some? ==> (r.None? <==> Strip(c.value) in {"", MissingText})
    ensures r.Some? ==> r.value == Strip(c.value) && IsCleanText(r.value)
  {
    match c
    case None => None
    case Some(s) =>
      var v := Strip(s);
      if v == [] || v == MissingText then None else Some(v)
  }

  /** A value that is already clean passes through unchanged. */
  lemma CleanTextKeepsCleanValues(s: string)
    requires IsCleanText(s)
    ensures CleanText(Some(s)) == Some(s)
  {
    TrimNoop(s, IsSpace);
  }

  lemma CleanTextIdempotent(c: Cell)
    ensures CleanText(CleanText(c)) == CleanText(c)
  {
    if CleanText(c).Some? {
      CleanTextKeepsCleanValues(CleanText(c).value);
    }
  }

  lemma NoMissingTextIn(s: string)
    requires forall k :: 0 <= k < |s| ==> !StartsWith(s[k..], MissingText)
    ensures RemoveAll(s, MissingText) == s
  {
    assert s + [] == s;
    RemoveAllSkip(s, [], MissingText);
  }

  /** The part of the name after its `"nan"`. */
  lemma NameTail()
    ensures RemoveAll(MissingText + "tenaina", MissingText) == "tenaina"
  {
    var tail := "tenaina";
    forall k | 0 <= k < |tail| ensures !StartsWith(tail[k..], MissingText) {
      assert tail[k..][0] == tail[k];
      if k == 2 { assert tail[k..][2] == 'i'; }
    }
    NoMissingTextIn(tail);
    assert (MissingText + tail)[..3] == MissingText && (MissingText + tail)[3..] == tail;
  }

  /** The part of the name before its `"nan"`. */
  lemma NameHead(b: string)
    ensures RemoveAll("Andria" + b, MissingText) == "Andria" + RemoveAll(b, MissingText)
  {
    var head := "Andria";
    forall k | 0 <= k < |head| ensures !StartsWith((head + b)[k..], MissingText) {
      var x := (head + b)[k..];
      assert x[0] == head[k];
      if k == 1 { assert x[1] == 'd'; }
    }
    RemoveAllSkip(head, b, MissingText);
  }

  /** A clean name containing `"nan"` loses it under the cleanup as written,
      while the intended cleanup keeps it. */
  lemma CleanTextAsWrittenAltersNames()
    ensures IsCleanText("Andrianantenaina")
    ensures CleanTextAsWritten(Some("Andrianantenaina")) == Some("Andriatenaina")
    ensures CleanText(Some("Andrianantenaina")) == Some("Andrianantenaina")
  {
    NameTail();
    NameHead(MissingText + "tenaina");
    assert "Andrianantenaina" == "Andria" + (MissingText + "tenaina");
    assert "Andriatenaina" == "Andria" + "tenaina";
    NameIsClean("Andriatenaina");
    NameIsClean("Andrianantenaina");
    TrimNoop("Andriatenaina", IsSpace);
    CleanTextKeepsCleanValues("Andrianantenaina");
  }

  /** A name that starts with `A`, ends with `a` and is longer than `nan` is
      a clean value. */
  lemma NameIsClean(s: string)
    requires |s| > 3 && s[0] == 'A' && s[|s| - 1] == 'a'
    ensures IsCleanText(s)
  {
  }

  /** The columns of `cs` that a frame holds, cleaned in one row by `clean`. */
  function CleanRow(r: Row, cs: set<string>, clean: Cell -> Cell): Row {
    map c | c in r.Keys + cs :: if c in cs then clean(Get(r, c)) else r[c]
  }

  /** The general cleanup over the frame's text columns (`textColumns` stands
      for the columns of dtype `object`, which the model does not track). */
  function CleanTextColumns(t: Table, textColumns: set<string>): (r: Table)
    ensures r.columns == t.columns && |r.rows| == |t.rows|
    ensures forall i, c :: 0 <= i < |r.rows| && c in textColumns && c in t.columns ==>
      Get(r.rows[i], c) == CleanText(Get(t.rows[i], c)) && Get(r.rows[i], c) != Some([])
    ensures forall i, c :: 0 <= i < |r.rows| && !(c in textColumns && c in t.columns) ==>
      Get(r.rows[i], c) == Get(t.rows[i], c)
  {
    var cs := textColumns * t.columns;
    Table(t.columns, seq(|t.rows|, i requires 0 <= i < |t.rows| => CleanRow(t.rows[i], cs, CleanText)))
  }

  /** The general cleanup over the text columns as written: every cell of
      those columns goes through `CleanTextAsWritten`, so `nan` is removed
      from inside names as well. */
  function CleanTextColumnsAsWritten(t: Table, textColumns: set<string>): (r: Table)
    ensures r.columns == t.columns && |r.rows| == |t.rows|
    ensures forall i, c :: 0 <= i < |r.rows| && c in textColumns && c in t.columns ==>
      Get(r.rows[i], c) == CleanTextAsWritten(Get(t.rows[i], c)) && Get(r.rows[i], c) != Some([])
    ensures forall i, c :: 0 <= i < |r.rows| && !(c in textColumns && c in t.columns) ==>
      Get(r.rows[i], c) == Get(t.rows[i], c)
  {
    var cs := textColumns * t.columns;
    Table(t.columns, seq(|t.rows|, i requires 0 <= i < |t.rows| => CleanRow(t.rows[i], cs, CleanTextAsWritten)))
  }

  /** On a text column holding `Andrianantenaina`, the pass as written yields
      `Andriatenaina` while the corrected pass keeps the name. */
  lemma ColumnPassesDisagreeOnNames(t: Table, textColumns: set<string>, i: nat, c: string)
    requires i < |t.rows| && c in textColumns && c in t.columns
    requires Get(t.rows[i], c) == Some("Andrianantenaina")
    ensures Get(CleanTextColumnsAsWritten(t, textColumns).rows[i], c) == Some("Andriatenaina")
    ensures Get(CleanTextColumns(t, textColumns).rows[i], c) == Some("Andrianantenaina")
  {
    CleanTextAsWrittenAltersNames();
  }

  // ---------------------------------------------------------------------------
  // Academic year

  const AcademicYearColumn: string := "annee_universitaire"

  /** A cleaned academic year: non-empty, not `"NAN"`, upper case, and with no
      whitespace anywhere. */
  predicate IsYearText(s: string) {
    s != [] && s != "NAN" && forall ch :: ch in s ==> NotSpace(ch) && !IsCasedLower(ch)
  }

  lemma {:induction false} UpperSplit(s: string)
    requires s != []
    ensures Upper(s) == [UpperChar(s[0])] + Upper(s[1..])
  {
  }

  /** Upper-casing never turns a character into whitespace or back. */
  lemma UpperCharKeepsSpace(c: char)
    ensures IsSpace(UpperChar(c)) <==> IsSpace(c)
  {
  }

  /** Removing whitespace and upper-casing commute. */
  lemma {:induction false} FilterSpaceUpper(s: string)
    ensures Filter(Upper(s), NotSpace) == Upper(Filter(s, NotSpace))
  {
    if s != [] {
      UpperSplit(s);
      FilterSpaceUpper(s[1..]);
      UpperCharKeepsSpace(s[0]);
      var u := Upper(s);
      assert u[0] == UpperChar(s[0]) && u[1..] == Upper(s[1..]);
      var f := Filter(s, NotSpace);
      if NotSpace(s[0]) {
        assert f == [s[0]] + Filter(s[1..], NotSpace);
        UpperSplit(f);
        assert f[1..] == Filter(s[1..], NotSpace);
      }
    }
  }

  /** The text the year cleanup keeps: the non-whitespace characters, upper-cased. */
  lemma YearText(s: string)
    ensures Filter(Upper(Strip(s)), NotSpace) == Upper(Filter(s, NotSpace))
  {
    FilterSpaceUpper(Strip(s));
    FilterIgnoresTrim(s, IsSpace, NotSpace);
  }

  lemma FilteredUpperShape(s: string)
    ensures forall ch :: ch in Filter(Upper(s), NotSpace) ==> NotSpace(ch) && !IsCasedLower(ch)
  {
    UpperHasNoLower(s);
    forall ch | ch in Filter(Upper(s), NotSpace) ensures !IsCasedLower(ch) {
      FilterSubset(Upper(s), NotSpace, ch);
    }
  }

  /** `traiter_annee_universitaire` on one cell: stripped, upper-cased, with
      every whitespace character removed; missing when that leaves `''` or
      `"NAN"`. */
  function CleanAcademicYear(c: Cell): (r: Cell)
    ensures c.None? ==> r.None?
    ensures c.Some? ==> r == (var v := Upper(Filter(c.value, NotSpace)); if v == [] || v == "NAN" then None else Some(v))
    ensures r.Some? ==> IsYearText(r.value)
  {
    match c
    case None => None
    case Some(s) =>
      var v := Filter(Upper(Strip(s)), NotSpace);
      FilteredUpperShape(Strip(s));
      YearText(s);
      if v == [] || v == "NAN" then None else Some(v)
  }

  /** A cleaned year is its own cleanup. */
  lemma CleanAcademicYearIdempotent(c: Cell)
    ensures CleanAcademicYear(CleanAcademicYear(c)) == CleanAcademicYear(c)
  {
    if CleanAcademicYear(c).Some? {
      var v := CleanAcademicYear(c).value;
      assert v[0] in v && v[|v| - 1] in v;
      TrimNoop(v, IsSpace);
      UpperNoop(v);
      FilterNoop(v, NotSpace);
    }
  }

  /** Whitespace anywhere in a year is irrelevant: `"2023 - 2024"` and
      `"2023-2024"` clean to the same value. */
  lemma CleanAcademicYearIgnoresSpaces(s: string)
    ensures CleanAcademicYear(Some(s)) == CleanAcademicYear(Some(Filter(s, NotSpace)))
  {
    var f := Filter(s, NotSpace);
    YearText(s);
    YearText(f);
    FilterNoop(f, NotSpace);
  }

  /** The year pass: rewrites the column when the frame has it. */
  function CleanAcademicYears(t: Table): (r: Table)
    ensures r.columns == t.columns && |r.rows| == |t.rows|
    ensures AcademicYearColumn !in t.columns ==> r == t
    ensures AcademicYearColumn in t.columns ==> forall i :: 0 <= i < |r.rows| ==>
      Get(r.rows[i], AcademicYearColumn) == CleanAcademicYear(Get(t.rows[i], AcademicYearColumn))
    ensures forall i, c :: 0 <= i < |r.rows| && c != AcademicYearColumn ==> Get(r.rows[i], c) == Get(t.rows[i], c)
  {
    MapColumn(t, AcademicYearColumn, row => CleanAcademicYear(Get(row, AcademicYearColumn)))
  }

  // ---------------------------------------------------------------------------
  // Sex

  const SexColumn: string := "sexe"
  const Male: string := "Masculin"
  const Female: string := "F\U{E9}minin"

  /** `standardiser_sexe` on one cell: missing stays missing and so does text
      that reads `"NAN"` once upper-cased and stripped; otherwise `Féminin`
      exactly when the upper-cased text contains an `F`, and `Masculin` for
      everything else. */
  function StandardSex(c: Cell): (r: Cell)
    ensures r.None? <==> (c.None? || Strip(Upper(c.value)) == "NAN")
    ensures r.Some? ==> r.value == Male || r.value == Female
    ensures r == Some(Female) <==> (c.Some? && 'F' in Upper(c.value))
  {
    match c
    case None => None
    case Some(s) =>
      var v := Strip(Upper(s));
      assert 'F' in v <==> 'F' in Upper(s) by {
        if 'F' in Upper(s) { TrimKeeps(Upper(s), IsSpace, 'F'); }
        if 'F' in v { TrimSubset(Upper(s), IsSpace, 'F'); }
      }
      if v == "NAN" then None
      else if 'F' in v then Some(Female)
      else Some(Male)
  }

  /** Standardising a standardised value changes nothing. */
  lemma StandardSexIdempotent(c: Cell)
    ensures StandardSex(StandardSex(c)) == StandardSex(c)
  {
    if StandardSex(c) == Some(Female) {
      assert Upper(Female)[0] == 'F';
    } else if StandardSex(c) == Some(Male) {
      var u := Upper(Male);
      assert u[0] == 'M';
      TrimKeeps(u, IsSpace, 'M');
      assert forall k :: 0 <= k < |u| ==> u[k] != 'F';
    }
  }

  /** The sex pass: rewrites `sexe` through a temporary `sexe_standard`
      column, which is dropped afterwards. */
  function StandardizeSex(t: Table): (r: Table)
    ensures SexColumn !in t.columns ==> r == t
    ensures SexColumn in t.columns ==> r.columns == t.columns - {"sexe_standard"}
    ensures |r.rows| == |t.rows|
    ensures SexColumn in t.columns ==> forall i :: 0 <= i < |r.rows| ==>
      Get(r.rows[i], SexColumn) == StandardSex(Get(t.rows[i], SexColumn))
    ensures forall i, c :: 0 <= i < |r.rows| && c != SexColumn && c != "sexe_standard" ==>
      Get(r.rows[i], c) == Get(t.rows[i], c)
  {
    if SexColumn in t.columns then
      DropColumns(MapColumn(t, SexColumn, row => StandardSex(Get(row, SexColumn))), {"sexe_standard"})
    else t
  }

  // ---------------------------------------------------------------------------
  // Track

  const HybridColumn: string := "hybride"
  const FormationColumn: string := "formation"

  /** `traiter_formation_hybride` on one row: a `hybride` of `C` or `H`, once
      upper-cased and stripped, sets the formation to `CLASSIQUE` or
      `HYBRIDE`; anything else, missing included, leaves it. */
  function TrackFormation(hybrid: Cell, formation: Cell): (r: Cell)
    ensures r == formation || r == Some("CLASSIQUE") || r == Some("HYBRIDE")
    ensures hybrid.None? ==> r == formation
    ensures hybrid.Some? && Strip(Upper(hybrid.value)) == "C" ==> r == Some("CLASSIQUE")
    ensures hybrid.Some? && Strip(Upper(hybrid.value)) == "H" ==> r == Some("HYBRIDE")
    ensures hybrid.Some? && Strip(Upper(hybrid.value)) !in {"C", "H"} ==> r == formation
  {
    match hybrid
    case None => formation
    case Some(h) =>
      var v := Strip(Upper(h));
      if v == "C" then Some("CLASSIQUE")
      else if v == "H" then Some("HYBRIDE")
      else formation
  }

  /** The code is read case- and padding-insensitively: normalising it first
      changes nothing. */
  lemma TrackFormationNormalisesCode(h: string, formation: Cell)
    ensures TrackFormation(Some(Strip(Upper(h))), formation) == TrackFormation(Some(h), formation)
  {
    var v := Strip(Upper(h));
    UpperHasNoLower(h);
    forall ch | ch in v ensures !IsCasedLower(ch) {
      TrimSubset(Upper(h), IsSpace, ch);
    }
    UpperNoop(v);
    TrimIdempotent(Upper(h), IsSpace);
  }

  /** The track pass: only when both columns exist; then `formation` is set
      from `hybride` and `hybride` is removed. */
  function ApplyTrack(t: Table): (r: Table)
    ensures !(HybridColumn in t.columns && FormationColumn in t.columns) ==> r == t
    ensures |r.rows| == |t.rows|
    ensures HybridColumn in t.columns && FormationColumn in t.columns ==>
      r.columns == t.columns - {HybridColumn}
      && forall i :: 0 <= i < |r.rows| ==>
        Get(r.rows[i], FormationColumn) == TrackFormation(Get(t.rows[i], HybridColumn), Get(t.rows[i], FormationColumn))
    ensures forall i, c :: 0 <= i < |r.rows| && c != HybridColumn && c != FormationColumn ==>
      Get(r.rows[i], c) == Get(t.rows[i], c)
  {
    if HybridColumn in t.columns && FormationColumn in t.columns then
      DropColumns(
        MapColumn(t, FormationColumn, row => TrackFormation(Get(row, HybridColumn), Get(row, FormationColumn))),
        {HybridColumn})
    else t
  }

  // ---------------------------------------------------------------------------
  // Programme identifier

  const ParcoursIdColumn: string := "id_Parcours"

  predicate NotUnderscore(c: char) { c != '_' }
  predicate IsUnderscore(c: char) { c == '_' }

  /** One source field of an imputed identifier: missing reads as `''`, and
      the text is upper-cased and stripped. */
  function ParcoursPart(c: Cell): string {
    Strip(Upper(c.GetOr([])))
  }

  /** `composante_mention_parcours` before clean-up. */
  function ParcoursJoined(r: Row): string {
    ParcoursPart(Get(r, "composante")) + "_" + ParcoursPart(Get(r, "mention")) + "_" + ParcoursPart(Get(r, "parcours"))
  }

  /** An imputed identifier: non-empty, no `'_'` at either end, no two
      consecutive `'_'`, and no lower-case letter. */
  predicate IsParcoursId(s: string) {
    && s != []
    && s[0] != '_' && s[|s| - 1] != '_'
    && (forall k :: 0 <= k < |s| - 1 ==> !(s[k] == '_' && s[k + 1] == '_'))
    && (forall ch :: ch in s ==> !IsCasedLower(ch))
  }

  lemma PartHasNoLower(c: Cell)
    ensures forall ch :: ch in ParcoursPart(c) ==> !IsCasedLower(ch)
  {
    UpperHasNoLower(c.GetOr([]));
    forall ch | ch in ParcoursPart(c) ensures !IsCasedLower(ch) {
      TrimSubset(Upper(c.GetOr([])), IsSpace, ch);
    }
  }

  lemma JoinedHasNoLower(r: Row)
    ensures forall ch :: ch in ParcoursJoined(r) ==> !IsCasedLower(ch)
  {
    PartHasNoLower(Get(r, "composante"));
    PartHasNoLower(Get(r, "mention"));
    PartHasNoLower(Get(r, "parcours"));
  }

  /** Collapsing the runs of `'_'` and stripping `'_'` at both ends: the
      non-empty pieces between underscores, joined by a single `'_'`. */
  function TidyParcours(s: string): (v: string)
    ensures v == Join(Pieces(s, '_'), '_')
    ensures v == [] || (v[0] != '_' && v[|v| - 1] != '_')
    ensures forall k :: 0 <= k < |v| - 1 ==> !(v[k] == '_' && v[k + 1] == '_')
  {
    var v := Trim(CollapseRuns(s, '_'), IsUnderscore);
    TidyShape(s);
    TidyIsJoinOfPieces(s, v);
    v
  }

  /** Trimming a text whose runs are collapsed leaves no `'_'` at either end
      and none doubled. */
  lemma TidyShape(s: string)
    ensures IsTidy(Trim(CollapseRuns(s, '_'), IsUnderscore), '_')
  {
    TidyOfTrimmed(CollapseRuns(s, '_'), '_', IsUnderscore);
  }

  /** A tidied text, with its shape established, is the join of the text's
      pieces. */
  lemma TidyIsJoinOfPieces(s: string, v: string)
    requires v == Trim(CollapseRuns(s, '_'), IsUnderscore) && IsTidy(v, '_')
    ensures v == Join(Pieces(s, '_'), '_')
  {
    JoinPiecesOfTidy(v, '_');
    TidyingKeepsPieces(s);
  }

  /** Collapsing the runs of `'_'` and stripping them at both ends keeps the
      pieces. */
  lemma TidyingKeepsPieces(s: string)
    ensures Pieces(Trim(CollapseRuns(s, '_'), IsUnderscore), '_') == Pieces(s, '_')
  {
    PiecesIgnoreTrim(CollapseRuns(s, '_'), '_', IsUnderscore);
    PiecesIgnoreCollapse(s, '_');
  }

  /** The tidied text keeps every character other than `'_'`, in order. */
  lemma TidyParcoursContent(s: string)
    ensures Filter(TidyParcours(s), NotUnderscore) == Filter(s, NotUnderscore)
    ensures forall ch :: ch in TidyParcours(s) ==> ch in s
  {
    var w := CollapseRuns(s, '_');
    CollapseRunsKeepsOthers(s, '_', NotUnderscore);
    FilterIgnoresTrim(w, IsUnderscore, NotUnderscore);
    forall ch | ch in TidyParcours(s) ensures ch in s {
      TrimSubset(w, IsUnderscore, ch);
      CollapseRunsSubset(s, '_', ch);
    }
  }

  /** The identifier `imputer_id_parcours` writes into a row whose
      `id_Parcours` is missing; missing when the three fields hold nothing
      but `'_'`. */
  function ImputedParcours(r: Row): (p: Cell)
    ensures p.Some? ==> IsParcoursId(p.value)
    ensures p.None? <==> Filter(ParcoursJoined(r), NotUnderscore) == []
    ensures p.GetOr([]) == Join(ParcoursPieces(r), '_')
  {
    ParcoursPiecesOfJoined(r);
    var v := TidyParcours(ParcoursJoined(r));
    TidyParcoursContent(ParcoursJoined(r));
    JoinedHasNoLower(r);
    if v == [] then None
    else
      FilterContains(v, NotUnderscore, v[0]);
      Some(v)
  }

  /** The non-empty pieces between underscores of the three fields, in order. */
  function ParcoursPieces(r: Row): seq<string> {
    Pieces(ParcoursPart(Get(r, "composante")), '_') + Pieces(ParcoursPart(Get(r, "mention")), '_')
      + Pieces(ParcoursPart(Get(r, "parcours")), '_')
  }

  /** Joining the fields with `'_'` adds no piece and loses none. */
  lemma ParcoursPiecesOfJoined(r: Row)
    ensures Pieces(ParcoursJoined(r), '_') == ParcoursPieces(r)
  {
    var a, b, c := ParcoursPart(Get(r, "composante")), ParcoursPart(Get(r, "mention")), ParcoursPart(Get(r, "parcours"));
    assert ParcoursJoined(r) == (a + ['_'] + b) + ['_'] + c;
    PiecesAtSeparator(a + ['_'] + b, '_', c);
    PiecesAtSeparator(a, '_', b);
  }

  /** Deleting the `'_'` of an imputed identifier gives the three fields'
      own characters other than `'_'`, in order. */
  lemma ImputedParcoursContent(r: Row)
    ensures Filter(ImputedParcours(r).GetOr([]), NotUnderscore) ==
      Filter(ParcoursPart(Get(r, "composante")) + ParcoursPart(Get(r, "mention")) + ParcoursPart(Get(r, "parcours")), NotUnderscore)
  {
    var a, b, c := ParcoursPart(Get(r, "composante")), ParcoursPart(Get(r, "mention")), ParcoursPart(Get(r, "parcours"));
    TidyParcoursContent(ParcoursJoined(r));
    assert ParcoursJoined(r) == (a + ['_'] + b) + ['_'] + c;
    FilterSkipsSeparator(a + ['_'] + b, '_', c, NotUnderscore);
    FilterSkipsSeparator(a, '_', b, NotUnderscore);
    FilterAppend(a + b, c, NotUnderscore);
    FilterAppend(a, b, NotUnderscore);
  }

  predicate HasParcoursColumns(t: Table) {
    ParcoursIdColumn in t.columns && "composante" in t.columns && "mention" in t.columns && "parcours" in t.columns
  }

  /** The imputation pass: with all four columns present, only rows whose
      `id_Parcours` is missing change, and they receive the imputed value;
      with any of them absent, the frame is returned as it is. */
  function ImputeParcoursIds(t: Table): (r: Table)
    ensures !HasParcoursColumns(t) ==> r == t
    ensures r.columns == t.columns && |r.rows| == |t.rows|
    ensures forall i, c :: 0 <= i < |r.rows| && c != ParcoursIdColumn ==> Get(r.rows[i], c) == Get(t.rows[i], c)
    ensures forall i :: 0 <= i < |r.rows| && Get(t.rows[i], ParcoursIdColumn).Some? ==>
      Get(r.rows[i], ParcoursIdColumn) == Get(t.rows[i], ParcoursIdColumn)
    ensures HasParcoursColumns(t) ==> forall i :: 0 <= i < |r.rows| && Get(t.rows[i], ParcoursIdColumn).None? ==>
      Get(r.rows[i], ParcoursIdColumn) == ImputedParcours(t.rows[i])
  {
    if HasParcoursColumns(t) then
      MapColumn(t, ParcoursIdColumn, row =>
        if Get(row, ParcoursIdColumn).Some? then Get(row, ParcoursIdColumn) else ImputedParcours(row))
    else t
  }

  // ---------------------------------------------------------------------------
  // National identity card number

  const CinColumn: string := "cin"
  const CinLength: nat := 12

  /** `DDD-DDD-DDD-DDD`. */
  predicate IsCinShape(s: string) {
    |s| == 15 && forall k :: 0 <= k < 15 ==> (if k % 4 == 3 then s[k] == '-' else IsDigit(s[k]))
  }

  /** `formater_cin_tiret` on twelve digits. */
  function CinText(d: string): string
    requires |d| == CinLength
  {
    d[0..3] + "-" + d[3..6] + "-" + d[6..9] + "-" + d[9..12]
  }

  /** Filtering out a separator the filter drops. */
  lemma FilterSkipsSeparator(a: string, sep: char, b: string, keep: char -> bool)
    requires !keep(sep)
    ensures Filter(a + [sep] + b, keep) == Filter(a, keep) + Filter(b, keep)
  {
    FilterAppend(a + [sep], b, keep);
    FilterAppend(a, [sep], keep);
  }

  /** Deleting the three separators of four kept pieces gives the pieces back. */
  lemma FilterFourPieces(p0: string, p1: string, p2: string, p3: string, sep: char, keep: char -> bool)
    requires !keep(sep)
    requires forall ch :: ch in p0 + p1 + p2 + p3 ==> keep(ch)
    ensures Filter(p0 + [sep] + p1 + [sep] + p2 + [sep] + p3, keep) == p0 + p1 + p2 + p3
  {
    FilterSkipsSeparator(p0, sep, p1, keep);
    FilterSkipsSeparator(p0 + [sep] + p1, sep, p2, keep);
    FilterSkipsSeparator(p0 + [sep] + p1 + [sep] + p2, sep, p3, keep);
    FilterNoop(p0, keep);
    FilterNoop(p1, keep);
    FilterNoop(p2, keep);
    FilterNoop(p3, keep);
  }

  lemma CinTextShape(d: string)
    requires |d| == CinLength && IsDigits(d)
    ensures IsCinShape(CinText(d))
  {
    var s := CinText(d);
    forall k | 0 <= k < 15 ensures if k % 4 == 3 then s[k] == '-' else IsDigit(s[k]) {
      if k < 3 { assert s[k] == d[k]; assert d[k] in d; }
      else if 3 < k < 7 { assert s[k] == d[k - 1]; assert d[k - 1] in d; }
      else if 7 < k < 11 { assert s[k] == d[k - 2]; assert d[k - 2] in d; }
      else if 11 < k { assert s[k] == d[k - 3]; assert d[k - 3] in d; }
    }
  }

  /** The formatted number has the expected shape, and deleting its dashes
      gives the twelve digits back. */
  lemma CinTextRoundTrip(d: string)
    requires |d| == CinLength && IsDigits(d)
    ensures IsCinShape(CinText(d))
    ensures Filter(CinText(d), IsDigit) == d
  {
    CinTextShape(d);
    assert d == d[0..3] + d[3..6] + d[6..9] + d[9..12];
    FilterFourPieces(d[0..3], d[3..6], d[6..9], d[9..12], '-', IsDigit);
  }

  /** The digits of a cell's text. */
  function DigitsOf(c: Cell): string {
    Filter(AsText(c), IsDigit)
  }

  /** `nettoyer_et_formater_cin` on one cell: missing exactly when the text
      holds fewer than twelve digits; otherwise the first twelve digits, in
      order, written `DDD-DDD-DDD-DDD`. */
  function FormatCin(c: Cell): (r: Cell)
    ensures r.None? <==> |DigitsOf(c)| < CinLength
    ensures r.Some? ==> IsCinShape(r.value)
    ensures r.Some? ==> Filter(r.value, IsDigit) == DigitsOf(c)[..CinLength]
  {
    var e := Take(DigitsOf(c), CinLength);
    if |e| != CinLength then None
    else
      CinTextRoundTrip(e);
      Some(CinText(e))
  }

  lemma MissingHasNoDigits()
    ensures DigitsOf(None) == []
  {
    FilterNone(MissingText, IsDigit);
  }

  /** Formatting a formatted number changes nothing. */
  lemma FormatCinIdempotent(c: Cell)
    ensures FormatCin(FormatCin(c)) == FormatCin(c)
  {
    MissingHasNoDigits();
    if FormatCin(c).Some? {
      var e := Take(DigitsOf(c), CinLength);
      assert DigitsOf(FormatCin(c)) == e;
    }
  }

  /** The identity card pass; its two temporary columns are dropped. */
  function FormatCins(t: Table): (r: Table)
    ensures CinColumn !in t.columns ==> r == t
    ensures CinColumn in t.columns ==> r.columns == t.columns - {"cin_clean", "cin_extrait"}
    ensures |r.rows| == |t.rows|
    ensures CinColumn in t.columns ==> forall i :: 0 <= i < |r.rows| ==>
      Get(r.rows[i], CinColumn) == FormatCin(Get(t.rows[i], CinColumn))
    ensures forall i, c :: 0 <= i < |r.rows| && c != CinColumn && c != "cin_clean" && c != "cin_extrait" ==>
      Get(r.rows[i], c) == Get(t.rows[i], c)
  {
    if CinColumn in t.columns then
      DropColumns(MapColumn(t, CinColumn, row => FormatCin(Get(row, CinColumn))), {"cin_clean", "cin_extrait"})
    else t
  }

  // ---------------------------------------------------------------------------
  // Phone number

  const CountryCode: string := "261"

  /** The number without one leading country code. */
  function LocalNumber(d: string): (l: string)
    ensures IsDigits(d) ==> IsDigits(l)
  {
    if StartsWith(d, CountryCode) then
      assert forall ch :: ch in d[3..] ==> ch in d;
      d[3..]
    else d
  }

  /** The first half of `normaliser_numero`: present exactly when the local
      number has nine or ten digits; then ten digits ending with the local
      number. */
  function NormalizeNumber(d: string): (n: Option<string>)
    ensures n.Some? <==> (|LocalNumber(d)| == 9 || |LocalNumber(d)| == 10)
    ensures n.Some? ==> |n.value| == 10 && EndsWith(n.value, LocalNumber(d))
    ensures |LocalNumber(d)| == 9 ==> n == Some("0" + LocalNumber(d))
    ensures |LocalNumber(d)| == 10 ==> n == Some(LocalNumber(d))
    ensures n.Some? && IsDigits(d) ==> IsDigits(n.value)
  {
    if d == [] then None
    else
      var local := LocalNumber(d);
      if |local| == 9 then
        assert ("0" + local)[1..] == local;
        Some("0" + local)
      else if |local| == 10 then Some(local)
      else None
  }

  /** `0XX XX XXX XX`. */
  predicate IsPhoneShape(s: string) {
    |s| == 13 && forall k :: 0 <= k < 13 ==> (if k == 3 || k == 6 || k == 10 then s[k] == ' ' else IsDigit(s[k]))
  }

  /** The second half of `normaliser_numero`. */
  function PhoneText(n: string): string
    requires |n| == 10
  {
    n[0..3] + " " + n[3..5] + " " + n[5..8] + " " + n[8..10]
  }

  lemma PhoneTextShape(n: string)
    requires |n| == 10 && IsDigits(n)
    ensures IsPhoneShape(PhoneText(n))
  {
    var s := PhoneText(n);
    forall k | 0 <= k < 13 ensures if k == 3 || k == 6 || k == 10 then s[k] == ' ' else IsDigit(s[k]) {
      if k < 3 { assert s[k] == n[k]; assert n[k] in n; }
      else if 3 < k < 6 { assert s[k] == n[k - 1]; assert n[k - 1] in n; }
      else if 6 < k < 10 { assert s[k] == n[k - 2]; assert n[k - 2] in n; }
      else if 10 < k { assert s[k] == n[k - 3]; assert n[k - 3] in n; }
    }
  }

  /** The formatted number has the expected shape, and deleting its spaces
      gives the ten digits back. */
  lemma PhoneTextRoundTrip(n: string)
    requires |n| == 10 && IsDigits(n)
    ensures IsPhoneShape(PhoneText(n))
    ensures Filter(PhoneText(n), NotSpace) == n
  {
    PhoneTextShape(n);
    assert n == n[0..3] + n[3..5] + n[5..8] + n[8..10];
    FilterFourPieces(n[0..3], n[3..5], n[5..8], n[8..10], ' ', NotSpace);
  }

  /** `nettoyer_et_formater_telephone` on one cell: the digits of the text,
      normalised to ten digits and written `0XX XX XXX XX`; missing when the
      normalisation fails. Deleting the spaces gives the normalised digits. */
  function FormatPhone(c: Cell): (r: Cell)
    ensures r.None? <==> NormalizeNumber(DigitsOf(c)).None?
    ensures r.Some? ==> IsPhoneShape(r.value)
    ensures r.Some? ==> Filter(r.value, NotSpace) == NormalizeNumber(DigitsOf(c)).value
  {
    match NormalizeNumber(DigitsOf(c))
    case None => None
    case Some(n) =>
      PhoneTextRoundTrip(n);
      Some(PhoneText(n))
  }

  /** A number written with the international prefix `+261` and the same
      number written locally with a leading `0` format identically. */
  lemma PhoneInternationalMatchesLocal(x: string)
    requires |x| == 9 && IsDigits(x)
    ensures FormatPhone(Some("+261" + x)).Some?
    ensures FormatPhone(Some("+261" + x)) == FormatPhone(Some("0" + x))
  {
    InternationalNormalises(x);
    LocalNormalises(x);
  }

  lemma InternationalNormalises(x: string)
    requires |x| == 9 && IsDigits(x)
    ensures NormalizeNumber(DigitsOf(Some("+261" + x))) == Some("0" + x)
  {
    FilterNoop(x, IsDigit);
    FilterAppend("+261", x, IsDigit);
    assert Filter("+261", IsDigit) == CountryCode;
    assert DigitsOf(Some("+261" + x)) == CountryCode + x;
    assert (CountryCode + x)[..3] == CountryCode && (CountryCode + x)[3..] == x;
    assert LocalNumber(CountryCode + x) == x;
  }

  lemma LocalNormalises(x: string)
    requires |x| == 9 && IsDigits(x)
    ensures NormalizeNumber(DigitsOf(Some("0" + x))) == Some("0" + x)
  {
    FilterNoop(x, IsDigit);
    FilterAppend("0", x, IsDigit);
    assert Filter("0", IsDigit) == "0";
    assert DigitsOf(Some("0" + x)) == "0" + x;
    assert ("0" + x)[0] == '0';
    assert LocalNumber("0" + x) == "0" + x;
  }

  /** The phone column: `telephone` when present, else `tel`. */
  function PhoneColumn(cols: set<string>): (r: Option<string>)
    ensures r.Some? <==> ("telephone" in cols || "tel" in cols)
    ensures r.Some? ==> r.value in cols
    ensures "telephone" in cols ==> r == Some("telephone")
  {
    if "telephone" in cols then Some("telephone")
    else if "tel" in cols then Some("tel")
    else None
  }

  /** The phone pass: rewrites the chosen column, drops the temporary
      `tel_clean` column, and leaves a frame with neither column alone. */
  function FormatPhones(t: Table): (r: Table)
    ensures PhoneColumn(t.columns).None? ==> r == t
    ensures PhoneColumn(t.columns).Some? ==> r.columns == t.columns - {"tel_clean"}
    ensures |r.rows| == |t.rows|
    ensures PhoneColumn(t.columns).Some? ==> forall i :: 0 <= i < |r.rows| ==>
      Get(r.rows[i], PhoneColumn(t.columns).value) == FormatPhone(Get(t.rows[i], PhoneColumn(t.columns).value))
    ensures forall i, c :: 0 <= i < |r.rows| && Some(c) != PhoneColumn(t.columns) && c != "tel_clean" ==>
      Get(r.rows[i], c) == Get(t.rows[i], c)
  {
    match PhoneColumn(t.columns)
    case None => t
    case Some(col) => DropColumns(MapColumn(t, col, row => FormatPhone(Get(row, col))), {"tel_clean"})
  }

  // ---------------------------------------------------------------------------
  // Registration number

  const MentionColumn: string := "mention"

  /** The registration column, in priority order `numero_inscription`,
      `num_inscription`, `inscription`. */
  function RegistrationColumn(cols: set<string>): (r: Option<string>)
    ensures r.Some? <==> ("numero_inscription" in cols || "num_inscription" in cols || "inscription" in cols)
    ensures r.Some? ==> r.value in cols
    ensures "numero_inscription" in cols ==> r == Some("numero_inscription")
    ensures "numero_inscription" !in cols && "num_inscription" in cols ==> r == Some("num_inscription")
  {
    if "numero_inscription" in cols then Some("numero_inscription")
    else if "num_inscription" in cols then Some("num_inscription")
    else if "inscription" in cols then Some("inscription")
    else None
  }

  /** The characters a registration number keeps: not whitespace, `-`, `/` or `.`. */
  predicate IsNumberChar(c: char) {
    !IsSpace(c) && c != '-' && c != '/' && c != '.'
  }

  /** A present registration value cleaned: upper-cased, stripped, its
      separators removed, and `''` when that leaves `"NAN"`. */
  function CleanNumber(s: string): (n: string)
    ensures var f := Filter(Upper(s), IsNumberChar); n == (if f == "NAN" then [] else f)
    ensures forall ch :: ch in n ==> IsNumberChar(ch) && !IsCasedLower(ch)
    ensures n != "NAN"
  {
    var u := Upper(s);
    var v := Filter(Strip(u), IsNumberChar);
    FilterIgnoresTrim(u, IsSpace, IsNumberChar);
    UpperHasNoLower(s);
    forall ch | ch in v ensures !IsCasedLower(ch) {
      FilterSubset(Strip(u), IsNumberChar, ch);
      TrimSubset(u, IsSpace, ch);
    }
    if v == "NAN" then [] else v
  }

  lemma CleanNumberIdempotent(s: string)
    ensures CleanNumber(CleanNumber(s)) == CleanNumber(s)
  {
    var n := CleanNumber(s);
    if n != [] {
      assert n[0] in n && n[|n| - 1] in n;
      UpperNoop(n);
      TrimNoop(n, IsSpace);
      FilterNoop(n, IsNumberChar);
    }
  }

  /** The mention prefix of a row: the mention upper-cased and stripped,
      followed by `'_'`, or `''` when the mention is missing, empty or
      `"NAN"`. */
  function MentionPrefix(m: Cell): (p: string)
    ensures p == [] <==> (m.None? || Strip(Upper(m.value)) in {"", "NAN"})
    ensures p != [] ==> |p| >= 2 && p[|p| - 1] == '_' && p[..|p| - 1] == Strip(Upper(m.value))
  {
    match m
    case None => []
    case Some(s) =>
      var x := Strip(Upper(s));
      if x == [] || x == "NAN" then []
      else
        assert (x + "_")[..|x|] == x;
        x + "_"
  }

  /** `nettoyer_et_formater_num_inscription` on one cell: missing stays
      missing; a value that cleans to `''` becomes `''`; any other value
      becomes the prefix followed by the cleaned number, which dropping the
      prefix recovers. */
  function CleanRegistration(c: Cell, prefix: string): (r: Cell)
    ensures r.None? <==> c.None?
    ensures r.Some? ==> (r.value == [] <==> CleanNumber(c.value) == [])
    ensures r.Some? && r.value != [] ==>
      StartsWith(r.value, prefix) && r.value[|prefix|..] == CleanNumber(c.value)
  {
    match c
    case None => None
    case Some(s) =>
      var n := CleanNumber(s);
      if n != [] then
        assert (prefix + n)[..|prefix|] == prefix;
        Some(prefix + n)
      else Some([])
  }

  /** The prefix a row receives: none when the frame has no `mention` column. */
  function RowPrefix(t: Table, row: Row): string {
    if MentionColumn in t.columns then MentionPrefix(Get(row, MentionColumn)) else []
  }

  /** The registration pass on the column `RegistrationColumn` picks. */
  function CleanRegistrations(t: Table): (r: Table)
    ensures RegistrationColumn(t.columns).None? ==> r == t
    ensures r.columns == t.columns && |r.rows| == |t.rows|
    ensures RegistrationColumn(t.columns).Some? ==> forall i :: 0 <= i < |r.rows| ==>
      Get(r.rows[i], RegistrationColumn(t.columns).value)
        == CleanRegistration(Get(t.rows[i], RegistrationColumn(t.columns).value), RowPrefix(t, t.rows[i]))
    ensures forall i, c :: 0 <= i < |r.rows| && Some(c) != RegistrationColumn(t.columns) ==>
      Get(r.rows[i], c) == Get(t.rows[i], c)
  {
    match RegistrationColumn(t.columns)
    case None => t
    case Some(col) => MapColumn(t, col, row => CleanRegistration(Get(row, col), RowPrefix(t, row)))
  }
}
