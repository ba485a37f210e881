/**
 * `standardize_columns` end to end: the headers are renamed by the
 * resolver, then the values are cleaned under the new names.
 */
module Pipeline {
  import opened Wrappers
  import opened Schema
  import opened HeaderResolver
  import opened Cleaning
  import Text

  /**
   * Renaming under a given suffix rule, then cleaning. The whole function
   * fails exactly when the renamed headers repeat a canonical name;
   * otherwise the result carries the renamed headers in the original order
   * and at most the original rows.
   */
  function StandardizeWith(f: Frame, p: Parsers, rule: SuffixRule): (r: Result<Frame, Error>)
    requires WellFormed(f)
    ensures r.Err? <==> exists g: Field :: Duplicated(Renamed(f.columns, rule), Name(g))
    ensures r.Err? ==> Duplicated(Renamed(f.columns, rule), Name(r.error.field))
    ensures r.Ok? ==> WellFormed(r.value) && r.value.columns == Renamed(f.columns, rule)
    ensures r.Ok? ==> r.value.height <= f.height
  {
    var renamed := f.(columns := Renamed(f.columns, rule));
    CleanFailsOnDuplicates(renamed, p);
    Clean(renamed, p)
  }

  /** `standardize_columns` as written. */
  function Standardize(f: Frame, p: Parsers): (r: Result<Frame, Error>)
    requires WellFormed(f)
    ensures r.Err? <==> exists g: Field :: Duplicated(Renamed(f.columns, AsWritten), Name(g))
    ensures r.Ok? ==> r.value.columns == Renamed(f.columns, AsWritten) && r.value.height <= f.height
  {
    StandardizeWith(f, p, AsWritten)
  }

  /** As written, a file with an `ID` column and a `cow_id` column makes the `cow_id` step fail. */
  lemma IdThenCowIdFails(f: Frame, p: Parsers)
    requires WellFormed(f) && |f.columns| == 2 && f.columns[0] != f.columns[1]
    requires Text.Normalize(f.columns[0]) == "id" && Text.Normalize(f.columns[1]) == Name(CowId)
    ensures Standardize(f, p) == Err(DuplicateColumn(CowId))
  {
    IdThenCowIdCollide(f.columns);
    var renamed := f.(columns := Renamed(f.columns, AsWritten));
    assert Duplicated(renamed.columns, Name(CowId)) by {
      assert renamed.columns[0] == Name(CowId) && renamed.columns[1] == Name(CowId);
    }
    CleanFailsOnDuplicates(renamed, p);
    var e := Clean(renamed, p).error;
    var i, j :| 0 <= i < j < 2 && renamed.columns[i] == Name(e.field) && renamed.columns[j] == Name(e.field);
    TableIsAnEnumeration();
  }

  /** With the suffix test as commented, the same file is cleaned without error. */
  lemma IdThenCowIdCleansAsCommented(f: Frame, p: Parsers)
    requires WellFormed(f) && |f.columns| == 2 && f.columns[0] != f.columns[1]
    requires Text.Normalize(f.columns[0]) == "id" && Text.Normalize(f.columns[1]) == Name(CowId)
    ensures StandardizeWith(f, p, AsCommented).Ok?
  {
    IdThenCowIdAsCommented(f.columns);
    SuffixedDiffers(Name(CowId));
    DistinctPairNotDuplicated(Renamed(f.columns, AsCommented));
    CleansWithoutDuplicates(f, p, AsCommented);
  }

  /** Renamed headers that repeat no name are always cleaned without error. */
  lemma CleansWithoutDuplicates(f: Frame, p: Parsers, rule: SuffixRule)
    requires WellFormed(f) && forall name :: !Duplicated(Renamed(f.columns, rule), name)
    ensures StandardizeWith(f, p, rule).Ok?
  {
  }

  /** Two different names repeat no name. */
  lemma DistinctPairNotDuplicated(names: seq<string>)
    requires |names| == 2 && names[0] != names[1]
    ensures forall name :: !Duplicated(names, name)
  {
  }

  lemma SuffixedDiffers(s: string)
    ensures s + Suffix != s
  {
    assert |s + Suffix| == |s| + |Suffix|;
  }

  /**
   * As written, a one-column file whose header already is a canonical name
   * other than `date` comes back under `<name>_original`, with its cells
   * untouched: the function does not leave its own output as it found it.
   */
  lemma StandardOutputIsRenamedAway(f: Frame, p: Parsers, g: Field)
    requires WellFormed(f) && |f.columns| == 1 && g != Date && Text.Normalize(f.columns[0]) == Name(g)
    ensures Standardize(f, p) == Ok(f.(columns := [Name(g) + Suffix]))
  {
    StandardHeaderIsRenamedAway(f.columns, g);
    SuffixedNameIsPlain(g);
    PlainNamesPassThrough(f, p, AsWritten);
  }

  lemma SuffixedNameIsPlain(g: Field)
    ensures FieldNamed(Name(g) + Suffix).None?
  {
    forall h: Field ensures Name(h) != Name(g) + Suffix {
      NoNameEndsInSuffix(h, Name(g));
    }
  }

  /**
   * When no renamed header is a canonical name, no cleaning step applies:
   * the file comes back with its cells and rows as they were.
   */
  lemma PlainNamesPassThrough(f: Frame, p: Parsers, rule: SuffixRule)
    requires WellFormed(f)
    requires forall j :: 0 <= j < |Renamed(f.columns, rule)| ==> FieldNamed(Renamed(f.columns, rule)[j]).None?
    ensures StandardizeWith(f, p, rule) == Ok(f.(columns := Renamed(f.columns, rule)))
  {
    NoCanonicalColumnUnchanged(f.(columns := Renamed(f.columns, rule)), p);
  }
}
