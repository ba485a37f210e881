/**
 * The six canonical fields of the normalised schema and the keyword table
 * that drives header resolution, in the table's own order.
 */
module Schema {
  import opened Wrappers

  datatype Field = Date | CowId | MilkYield | FatPercentage | ProteinPercentage | FeedIntake

  /** The keyword table's field order, which is also the matching priority. */
  const Table: seq<Field> := [Date, CowId, MilkYield, FatPercentage, ProteinPercentage, FeedIntake]

  /** The columns that the cleaning step coerces to numbers, in processing order. */
  const NumericFields: seq<Field> := [MilkYield, FatPercentage, ProteinPercentage, FeedIntake]

  /** The canonical column name of a field. */
  function Name(f: Field): string {
    match f
    case Date => "date"
    case CowId => "cow_id"
    case MilkYield => "milk_yield"
    case FatPercentage => "fat_percentage"
    case ProteinPercentage => "protein_percentage"
    case FeedIntake => "feed_intake"
  }

  /** The position of a field in the keyword table. */
  function Rank(f: Field): (r: nat)
    ensures r < |Table| && Table[r] == f
  {
    match f
    case Date => 0
    case CowId => 1
    case MilkYield => 2
    case FatPercentage => 3
    case ProteinPercentage => 4
    case FeedIntake => 5
  }

  lemma RankOfTable(j: nat)
    requires j < |Table|
    ensures Rank(Table[j]) == j
  {
  }

  /**
   * The keywords that, found as a whole word in a header, select a field.
   * Every field has some, and each is a non-empty run of lower-case letters,
   * `_` and `%`: it can match a lower-cased header, and it holds no regular
   * expression metacharacter, so splicing it into a pattern matches it
   * literally.
   */
  function Keywords(f: Field): (ks: seq<string>)
    ensures ks != []
    ensures forall m :: 0 <= m < |ks| ==> ks[m] != [] && forall c :: c in ks[m] ==> 'a' <= c <= 'z' || c == '_' || c == '%'
  {
    match f
    case Date => ["date", "time", "day", "timestamp", "record_date"]
    case CowId => ["id", "tag", "cow", "animal", "animal_id", "cow_tag"]
    case MilkYield => ["yield", "vol", "liter", "amount", "qty", "production", "milk_amount", "milk_production"]
    case FatPercentage => ["fat", "cream", "fat_content", "fat_%"]
    case ProteinPercentage => ["prot", "protein", "protein_content", "protein_%"]
    case FeedIntake => ["feed", "food", "ration", "intake", "dmi", "dry_matter_intake"]
  }

  /** The field whose canonical name is `s` (the test `clean_name in mappings`). */
  function FieldNamed(s: string): (r: Option<Field>)
    ensures r.Some? ==> Name(r.value) == s
    ensures r.None? <==> forall f: Field :: Name(f) != s
  {
    if s == "date" then Some(Date)
    else if s == "cow_id" then Some(CowId)
    else if s == "milk_yield" then Some(MilkYield)
    else if s == "fat_percentage" then Some(FatPercentage)
    else if s == "protein_percentage" then Some(ProteinPercentage)
    else if s == "feed_intake" then Some(FeedIntake)
    else None
  }

  /** Every field has one place in the table, and distinct fields have distinct names. */
  lemma TableIsAnEnumeration()
    ensures forall f: Field :: f in Table
    ensures forall i, j :: 0 <= i < j < |Table| ==> Table[i] != Table[j]
    ensures forall f: Field, g: Field :: Name(f) == Name(g) ==> f == g
  {
    forall f: Field ensures f in Table {
      match f
      case Date => assert Table[0] == f;
      case CowId => assert Table[1] == f;
      case MilkYield => assert Table[2] == f;
      case FatPercentage => assert Table[3] == f;
      case ProteinPercentage => assert Table[4] == f;
      case FeedIntake => assert Table[5] == f;
    }
    forall f: Field, g: Field | Name(f) == Name(g) ensures f == g {
      assert FieldNamed(Name(f)) == Some(f);
    }
  }

  /** Of the canonical names only `date` is itself a keyword. */
  lemma OnlyDateNameIsKeyword(f: Field, g: Field)
    requires f != Date
    ensures Name(f) !in Keywords(g)
  {
  }

  /** `id` is a keyword of the cow identifier and of no field ranked before it. */
  lemma IdIsCowIdKeyword()
    ensures "id" in Keywords(CowId) && "id" !in Keywords(Date)
  {
    assert Keywords(CowId)[0] == "id";
  }

  /** `tag` is a keyword of the cow identifier and of no other field. */
  lemma TagIsOnlyCowIdKeyword(g: Field)
    ensures "tag" in Keywords(g) <==> g == CowId
  {
    if g == CowId {
      assert Keywords(CowId)[1] == "tag";
    }
  }

  /** `fat` is a keyword of the fat percentage and of no other field. */
  lemma FatIsOnlyFatKeyword(g: Field)
    ensures "fat" in Keywords(g) <==> g == FatPercentage
  {
    if g == FatPercentage {
      assert Keywords(FatPercentage)[0] == "fat";
    }
  }
}
