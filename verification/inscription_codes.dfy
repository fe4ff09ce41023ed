/** The yearly registration pass (`inscription_code_manager.py`): a hashed
    registration code from a composite key, and keep-first de-duplication on
    that code. The hash function itself is a parameter. */
module InscriptionCodes {
  import opened Wrappers
  import opened Text
  import opened Tables

  // ---------------------------------------------------------------------------
  // Hashing

  datatype HashAlgorithm = Sha256 | Md5

  /** The algorithm a name selects: `MD5` gives MD5, and `SHA-256` or any
      other name gives SHA-256. */
  function Algorithm(name: string): (a: HashAlgorithm)
    ensures a == Md5 <==> name == "MD5"
  {
    if name == "SHA-256" then Sha256
    else if name == "MD5" then Md5
    else Sha256
  }

  /** The hexadecimal digest of a text under an algorithm; it stands for the
      library hash functions, about which nothing is assumed. */
  type Digest = (HashAlgorithm, string) -> string

  /** The text that is hashed: stripped, then upper-cased. */
  function HashInput(s: string): string {
    Upper(Strip(s))
  }

  /** `generer_hash`: missing for a missing or empty value; otherwise the
      first `length` characters of the digest of the normalised text. */
  function GenerateHash(digest: Digest, c: Cell, algorithm: string, length: nat): (r: Cell)
    ensures r.None? <==> (c.None? || c.value == [])
    ensures r.Some? ==> |r.value| <= length
    ensures r.Some? ==> var h := digest(Algorithm(algorithm), HashInput(c.value));
      |r.value| == (if |h| < length then |h| else length)
    ensures r.Some? ==> StartsWith(digest(Algorithm(algorithm), HashInput(c.value)), r.value)
  {
    match c
    case None => None
    case Some(s) =>
      if s == [] then None
      else
        var h := digest(Algorithm(algorithm), HashInput(s));
        var r := Take(h, length);
        assert h[..|r|] == r;
        Some(r)
  }

  lemma UpperKeepsEnds(s: string)
    requires s != [] && !IsSpace(s[0]) && !IsSpace(s[|s| - 1])
    ensures var u := Upper(s); u != [] && !IsSpace(u[0]) && !IsSpace(u[|u| - 1])
  {
    var u := Upper(s);
    assert u[0] == UpperChar(s[0]) && u[|u| - 1] == UpperChar(s[|s| - 1]);
  }

  /** Normalising is idempotent: a normalised text normalises to itself. */
  lemma HashInputIdempotent(s: string)
    ensures HashInput(HashInput(s)) == HashInput(s)
  {
    var t := Strip(s);
    var u := Upper(t);
    if t != [] {
      UpperKeepsEnds(t);
      TrimNoop(u, IsSpace);
    } else {
      assert u == [];
    }
    UpperHasNoLower(t);
    UpperNoop(u);
  }

  /** The code ignores case and surrounding whitespace: a value hashes like
      its normalised form, unless it is all whitespace (which hashes, while
      its normalised form `''` does not). */
  lemma GenerateHashNormalises(digest: Digest, s: string, algorithm: string, length: nat)
    requires Strip(s) != []
    ensures GenerateHash(digest, Some(s), algorithm, length) == GenerateHash(digest, Some(HashInput(s)), algorithm, length)
  {
    HashInputIdempotent(s);
    assert |HashInput(s)| == |Strip(s)|;
  }

  // ---------------------------------------------------------------------------
  // The pass

  const RequiredColumns: seq<string> := ["code_etudiant", "annee_universitaire", "niveau", "id_Parcours"]
  const KeyColumn: string := "cle_inscription_unique"
  const RegistrationCodeColumn: string := "code_inscription"
  const CodeLength: nat := 32

  predicate HasRequiredColumns(t: Table) {
    forall k :: 0 <= k < |RequiredColumns| ==> RequiredColumns[k] in t.columns
  }

  /** `cle_inscription_unique`: the four fields as text, concatenated
      without separator. */
  function CompositeKey(r: Row): string {
    AsText(Get(r, "code_etudiant")) + AsText(Get(r, "annee_universitaire"))
      + AsText(Get(r, "niveau")) + AsText(Get(r, "id_Parcours"))
  }

  /** The registration code of a row. */
  function RowCode(digest: Digest, algorithm: string, r: Row): Cell {
    GenerateHash(digest, Some(CompositeKey(r)), algorithm, CodeLength)
  }

  function RowCodes(digest: Digest, algorithm: string, rows: seq<Row>): (codes: seq<Cell>)
    ensures |codes| == |rows|
    ensures forall i :: 0 <= i < |rows| ==> codes[i] == RowCode(digest, algorithm, rows[i])
  {
    seq(|rows|, i requires 0 <= i < |rows| => RowCode(digest, algorithm, rows[i]))
  }

  /** One kept row: its code added, the temporary key column gone. */
  function OutputRow(digest: Digest, algorithm: string, r: Row): Row {
    (r - {KeyColumn})[RegistrationCodeColumn := RowCode(digest, algorithm, r)]
  }

  /** Some output row holds code `c`. */
  predicate CodeKept(rows: seq<Row>, c: Cell) {
    exists j :: 0 <= j < |rows| && Get(rows[j], RegistrationCodeColumn) == c
  }

  /** The output rows for the positions `kept`. */
  function OutputRows(digest: Digest, algorithm: string, rows: seq<Row>, kept: seq<nat>): (out: seq<Row>)
    requires forall k :: 0 <= k < |kept| ==> kept[k] < |rows|
    ensures |out| == |kept|
    ensures forall j :: 0 <= j < |kept| ==> out[j] == OutputRow(digest, algorithm, rows[kept[j]])
    ensures forall j :: 0 <= j < |kept| ==>
      Get(out[j], RegistrationCodeColumn) == RowCode(digest, algorithm, rows[kept[j]])
  {
    seq(|kept|, j requires 0 <= j < |kept| => OutputRow(digest, algorithm, rows[kept[j]]))
  }

  /** Every input row's code is held by some output row. */
  lemma OutputCoversCodes(digest: Digest, algorithm: string, rows: seq<Row>, kept: seq<nat>)
    requires forall k :: 0 <= k < |kept| ==> kept[k] < |rows|
    requires forall i :: 0 <= i < |rows| ==> KeptKey(RowCodes(digest, algorithm, rows), kept, RowCodes(digest, algorithm, rows)[i])
    ensures forall i :: 0 <= i < |rows| ==> CodeKept(OutputRows(digest, algorithm, rows, kept), RowCode(digest, algorithm, rows[i]))
  {
    var codes := RowCodes(digest, algorithm, rows);
    var out := OutputRows(digest, algorithm, rows, kept);
    forall i | 0 <= i < |rows| ensures CodeKept(out, RowCode(digest, algorithm, rows[i])) {
      assert KeptKey(codes, kept, codes[i]);
      var k :| 0 <= k < |kept| && codes[kept[k]] == codes[i];
      assert Get(out[k], RegistrationCodeColumn) == codes[i];
    }
  }

  /** Keep-first on the registration codes, on a frame with every required
      column: `kept` lists the input rows kept, in order; each output row is
      its input row with its code and without the temporary key; no two
      output rows share a code; every input row's code is in the output; and
      each kept row is the first with its code. */
  method Deduplicate(t: Table, algorithm: string, digest: Digest) returns (r: Table, kept: seq<nat>)
    ensures r.columns == (t.columns + {RegistrationCodeColumn}) - {KeyColumn}
    ensures |r.rows| == |kept| <= |t.rows|
    ensures forall j :: 0 <= j < |kept| ==>
      kept[j] < |t.rows| && r.rows[j] == OutputRow(digest, algorithm, t.rows[kept[j]])
    ensures forall a, b :: 0 <= a < b < |kept| ==> kept[a] < kept[b]
    ensures forall a, b :: 0 <= a < b < |r.rows| ==>
      Get(r.rows[a], RegistrationCodeColumn) != Get(r.rows[b], RegistrationCodeColumn)
    ensures forall i :: 0 <= i < |t.rows| ==> CodeKept(r.rows, RowCode(digest, algorithm, t.rows[i]))
    ensures forall j, i :: 0 <= j < |kept| && 0 <= i < kept[j] ==>
      RowCode(digest, algorithm, t.rows[i]) != RowCode(digest, algorithm, t.rows[kept[j]])
  {
    var codes := RowCodes(digest, algorithm, t.rows);
    kept := KeepFirst(codes);
    r := Table((t.columns + {RegistrationCodeColumn}) - {KeyColumn}, OutputRows(digest, algorithm, t.rows, kept));
    OutputCoversCodes(digest, algorithm, t.rows, kept);
    forall j, i | 0 <= j < |kept| && 0 <= i < kept[j]
      ensures RowCode(digest, algorithm, t.rows[i]) != RowCode(digest, algorithm, t.rows[kept[j]])
    {
      assert IsFirstOccurrence(codes, kept[j]);
    }
  }

  /** `gerer_code_inscription_et_supprimer_doublons`: with a required column
      absent the frame comes back as it is; otherwise `Deduplicate`, each kept
      row the first with its code. */
  method ManageRegistrationCodes(t: Table, algorithm: string, digest: Digest) returns (r: Table, kept: seq<nat>)
    ensures !HasRequiredColumns(t) ==> r == t
    ensures HasRequiredColumns(t) ==> r.columns == (t.columns + {RegistrationCodeColumn}) - {KeyColumn}
    ensures HasRequiredColumns(t) ==> |r.rows| == |kept| <= |t.rows|
    ensures HasRequiredColumns(t) ==> forall j :: 0 <= j < |kept| ==>
      kept[j] < |t.rows| && r.rows[j] == OutputRow(digest, algorithm, t.rows[kept[j]])
    ensures HasRequiredColumns(t) ==> forall a, b :: 0 <= a < b < |kept| ==> kept[a] < kept[b]
    ensures HasRequiredColumns(t) ==> forall a, b :: 0 <= a < b < |r.rows| ==>
      Get(r.rows[a], RegistrationCodeColumn) != Get(r.rows[b], RegistrationCodeColumn)
    ensures HasRequiredColumns(t) ==> forall i :: 0 <= i < |t.rows| ==>
      CodeKept(r.rows, RowCode(digest, algorithm, t.rows[i]))
    ensures HasRequiredColumns(t) ==> forall j, i :: 0 <= j < |kept| && 0 <= i < kept[j] ==>
      RowCode(digest, algorithm, t.rows[i]) != RowCode(digest, algorithm, t.rows[kept[j]])
  {
    if !HasRequiredColumns(t) {
      return t, [];
    }
    r, kept := Deduplicate(t, algorithm, digest);
  }
}
