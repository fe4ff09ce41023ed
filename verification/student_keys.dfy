/** Key normaliser and constraint checker of the student entity-resolution
    engine (`student_code_manager.py`): per-row candidate keys, and the
    strong-identity contradiction test used to guard the weak key. */
module StudentKeys {
  import opened Wrappers
  import opened Text
  import opened Tables

  // ---------------------------------------------------------------------------
  // Standardised name and identity fields

  /** One standardised field (`<col>_standard`): upper-cased, stripped, reduced
      to `[A-Z0-9]`, and missing when nothing is left. A missing cell stays
      missing. */
  function StandardField(c: Cell): (r: Cell)
    ensures c.None? ==> r.None?
    ensures r.Some? ==> r.value != [] && forall ch :: ch in r.value ==> IsUpperAlnum(ch)
    ensures c.Some? ==> (r.Some? <==> exists ch :: ch in Upper(c.value) && IsUpperAlnum(ch))
    ensures r.Some? ==> r.value == Filter(Upper(c.value), IsUpperAlnum)
  {
    match c
    case None => None
    case Some(s) =>
      var v := Filter(Strip(Upper(s)), IsUpperAlnum);
      FilterIgnoresTrim(Upper(s), IsSpace, IsUpperAlnum);
      assert (exists ch :: ch in Upper(s) && IsUpperAlnum(ch)) ==> v != [] by {
        if exists ch :: ch in Upper(s) && IsUpperAlnum(ch) {
          var ch :| ch in Upper(s) && IsUpperAlnum(ch);
          FilterContains(Upper(s), IsUpperAlnum, ch);
        }
      }
      if v == [] then None
      else
        assert v[0] in Upper(s) by { FilterSubset(Upper(s), IsUpperAlnum, v[0]); }
        Some(v)
  }

  /** Standardising a standardised field changes nothing. */
  lemma StandardFieldIdempotent(c: Cell)
    ensures StandardField(StandardField(c)) == StandardField(c)
  {
    if StandardField(c).Some? {
      var v := StandardField(c).value;
      assert forall ch :: ch in v ==> IsUpperAlnum(ch);
      assert Upper(v) == v by { UpperNoop(v); }
      assert Strip(v) == v by {
        assert IsUpperAlnum(v[0]) && IsUpperAlnum(v[|v| - 1]);
        TrimNoop(v, IsSpace);
      }
      assert Filter(v, IsUpperAlnum) == v by { FilterNoop(v, IsUpperAlnum); }
      assert Filter(Strip(Upper(v)), IsUpperAlnum) == v;
    }
  }

  /** `nom_prenoms_standard`: the standardised surname followed by the
      standardised given names (which may be missing); missing exactly when
      the standardised surname is. */
  function NameKey(r: Row): (n: Cell)
    ensures n.Some? <==> StandardField(Get(r, "nom")).Some?
    ensures n.Some? ==> StartsWith(n.value, StandardField(Get(r, "nom")).value)
    ensures n.Some? ==> n.value[|StandardField(Get(r, "nom")).value|..] == StandardField(Get(r, "prenoms")).GetOr([])
    ensures n.Some? ==> n.value != [] && forall ch :: ch in n.value ==> IsUpperAlnum(ch)
  {
    match StandardField(Get(r, "nom"))
    case None => None
    case Some(nom) =>
      var n := nom + StandardField(Get(r, "prenoms")).GetOr([]);
      assert n[..|nom|] == nom && n[|nom|..] == StandardField(Get(r, "prenoms")).GetOr([]);
      Some(n)
  }

  // ---------------------------------------------------------------------------
  // Candidate keys

  /** The six candidate keys, in the order the engine processes them. */
  const KeyNames: seq<string> :=
    ["np_naissance", "np_cin", "np_cin_lieu", "np_telephone", "np_mail", "np_composante_mention"]

  const KeyCount: nat := 6

  /** Position of `np_composante_mention`, the only guarded (weak) key. */
  const WeakKey: nat := 5

  /** One component of a key: its cell, and whether it is a raw identifier
      (`naissance_date`, `cin`, `telephone`) rather than a standardised field. */
  datatype Component = Component(cell: Cell, identifier: bool)

  /** The components of key `k` for row `r` (`cles_config`). */
  function Components(r: Row, k: nat): (cs: seq<Component>)
    requires k < KeyCount
    ensures |cs| >= 2 && cs[0] == Component(NameKey(r), false)
  {
    var np := Component(NameKey(r), false);
    if k == 0 then [np, Component(Get(r, "naissance_date"), true)]
    else if k == 1 then [np, Component(Get(r, "cin"), true)]
    else if k == 2 then [np, Component(StandardField(Get(r, "cin_lieu")), false)]
    else if k == 3 then [np, Component(Get(r, "telephone"), true)]
    else if k == 4 then [np, Component(StandardField(Get(r, "mail")), false)]
    else [np, Component(StandardField(Get(r, "composante")), false), Component(StandardField(Get(r, "mention")), false)]
  }

  predicate AllPresent(cs: seq<Component>) {
    forall k :: 0 <= k < |cs| ==> cs[k].cell.Some?
  }

  /** The text a present component contributes: upper-cased, and for raw
      identifiers reduced to `[A-Z0-9-]`. */
  function ComponentText(c: Component): string
    requires c.cell.Some?
  {
    var u := Upper(c.cell.value);
    if c.identifier then Filter(u, IsKeyChar) else u
  }

  function Texts(cs: seq<Component>): seq<string>
    requires AllPresent(cs)
  {
    seq(|cs|, k requires 0 <= k < |cs| => ComponentText(cs[k]))
  }

  /** Every component `Components` builds that is present is either a raw
      identifier or a standardised `[A-Z0-9]` string. */
  predicate WellShaped(cs: seq<Component>) {
    forall k :: 0 <= k < |cs| && cs[k].cell.Some? && !cs[k].identifier ==>
      forall ch :: ch in cs[k].cell.value ==> IsUpperAlnum(ch)
  }

  lemma ComponentsWellShaped(r: Row, k: nat)
    requires k < KeyCount
    ensures WellShaped(Components(r, k))
  {
  }

  lemma TextsHaveNoSeparator(cs: seq<Component>)
    requires AllPresent(cs) && WellShaped(cs)
    ensures forall k :: 0 <= k < |cs| ==> '_' !in Texts(cs)[k]
  {
    forall k | 0 <= k < |cs| ensures '_' !in Texts(cs)[k] {
      var c := cs[k];
      if !c.identifier {
        assert forall ch :: ch in c.cell.value ==> IsUpperAlnum(ch);
        assert forall ch :: ch in c.cell.value ==> !IsCasedLower(ch);
        UpperNoop(c.cell.value);
      }
    }
  }

  /** Candidate key `k` of a row (`creer_cles_de_concatenation`): present
      exactly when every component is present, and then the component texts
      joined by `'_'`, which splitting on `'_'` recovers. */
  function CandidateKey(r: Row, k: nat): (key: Option<string>)
    requires k < KeyCount
    ensures key.Some? <==> AllPresent(Components(r, k))
    ensures key.Some? ==> Split(key.value, '_') == Texts(Components(r, k))
  {
    var cs := Components(r, k);
    if AllPresent(cs) then
      ComponentsWellShaped(r, k);
      TextsHaveNoSeparator(cs);
      SplitJoin(Texts(cs), '_');
      Some(Join(Texts(cs), '_'))
    else None
  }

  /** Two rows share a present key exactly when their component texts agree:
      the key neither merges rows whose normalised components differ nor
      separates rows whose normalised components agree. */
  lemma SharedKeyIffSameComponents(r1: Row, r2: Row, k: nat)
    requires k < KeyCount
    requires AllPresent(Components(r1, k)) && AllPresent(Components(r2, k))
    ensures CandidateKey(r1, k) == CandidateKey(r2, k) <==> Texts(Components(r1, k)) == Texts(Components(r2, k))
  {
    if Texts(Components(r1, k)) == Texts(Components(r2, k)) {
      assert CandidateKey(r1, k).value == Join(Texts(Components(r1, k)), '_');
    }
  }

  /** Column `k` of the key table: candidate key `k` of every row. */
  function KeyColumns(rows: seq<Row>): (cols: seq<seq<Option<string>>>)
    ensures |cols| == KeyCount
    ensures forall k :: 0 <= k < KeyCount ==> |cols[k]| == |rows|
    ensures forall k, i :: 0 <= k < KeyCount && 0 <= i < |rows| ==> cols[k][i] == CandidateKey(rows[i], k)
  {
    seq(KeyCount, k requires 0 <= k < KeyCount =>
      seq(|rows|, i requires 0 <= i < |rows| => CandidateKey(rows[i], k)))
  }

  // ---------------------------------------------------------------------------
  // Constraint checker

  /** `COLONNES_FORTES_CHECK`. */
  const StrongColumns: seq<string> := ["cin", "naissance_date"]

  predicate InRange(rows: seq<Row>, idx: seq<nat>) {
    forall k :: 0 <= k < |idx| ==> idx[k] < |rows|
  }

  /** The distinct non-missing values of column `col` over the rows `idx`
      (`dropna().unique()`). */
  function PresentValues(rows: seq<Row>, idx: seq<nat>, col: string): set<string>
    requires InRange(rows, idx)
  {
    set k | 0 <= k < |idx| && Get(rows[idx[k]], col).Some? :: Get(rows[idx[k]], col).value
  }

  /** Two of the rows `idx` hold different non-missing values in column `col`. */
  ghost predicate Disagree(rows: seq<Row>, idx: seq<nat>, col: string)
    requires InRange(rows, idx)
  {
    exists a, b :: 0 <= a < |idx| && 0 <= b < |idx|
      && Get(rows[idx[a]], col).Some? && Get(rows[idx[b]], col).Some?
      && Get(rows[idx[a]], col) != Get(rows[idx[b]], col)
  }

  lemma TwoValuesIffDisagree(rows: seq<Row>, idx: seq<nat>, col: string)
    requires InRange(rows, idx)
    ensures |PresentValues(rows, idx, col)| > 1 <==> Disagree(rows, idx, col)
  {
    var vs := PresentValues(rows, idx, col);
    if |vs| > 1 {
      var x :| x in vs;
      assert |vs - {x}| == |vs| - 1;
      var y :| y in vs - {x};
      var a :| 0 <= a < |idx| && Get(rows[idx[a]], col) == Some(x);
      var b :| 0 <= b < |idx| && Get(rows[idx[b]], col) == Some(y);
    }
    if Disagree(rows, idx, col) {
      var a, b :| 0 <= a < |idx| && 0 <= b < |idx|
        && Get(rows[idx[a]], col).Some? && Get(rows[idx[b]], col).Some?
        && Get(rows[idx[a]], col) != Get(rows[idx[b]], col);
      var x, y := Get(rows[idx[a]], col).value, Get(rows[idx[b]], col).value;
      assert x in vs && y in vs;
      assert |vs - {x}| == |vs| - 1;
      assert y in vs - {x};
    }
  }

  /** `verifier_contradiction_forte`: true exactly when, for some listed
      column, the rows `idx` hold two different non-missing values. Reads the
      rows and changes nothing. */
  function StrongContradiction(rows: seq<Row>, idx: seq<nat>, cols: seq<string>): (r: bool)
    requires InRange(rows, idx)
    ensures r <==> exists k :: 0 <= k < |cols| && Disagree(rows, idx, cols[k])
  {
    if cols == [] then false
    else
      TwoValuesIffDisagree(rows, idx, cols[0]);
      var rest := StrongContradiction(rows, idx, cols[1..]);
      assert rest <==> exists k :: 1 <= k < |cols| && Disagree(rows, idx, cols[k]) by {
        forall k | 1 <= k < |cols| ensures cols[1..][k - 1] == cols[k] { }
      }
      |PresentValues(rows, idx, cols[0])| > 1 || rest
  }
}
