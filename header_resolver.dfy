/**
 * Header resolution: every raw header is matched against the keyword table
 * in column order, claiming the first field (in table order) whose keyword
 * is a whole word of the header and that no earlier header has claimed, or
 * else falling back to its slug. The decisions are recorded in a dictionary
 * keyed by the raw header and applied as a rename.
 */
module HeaderResolver {
  import opened Wrappers
  import opened Text
  import opened Schema
  import opened WordMatch
  import opened Slug

  /** How the test guarding the `_original` suffix reads. */
  datatype SuffixRule =
    | AsWritten    // suffix when the slug is a canonical name NOT yet claimed
    | AsCommented  // suffix when the slug is a canonical name already claimed

  const Suffix: string := "_original"

  /** What one header resolves to. */
  datatype Decision = Claim(field: Field) | Fallback(name: string) {
    function OutputName(): string {
      match this
      case Claim(f) => Name(f)
      case Fallback(n) => n
    }
  }

  /** The state of the loop: the `new_columns` dictionary and the `used_standards` set. */
  datatype Resolution = Resolution(newColumns: map<string, string>, used: set<Field>)

  /** Some keyword of `f` occurs as a whole word of the normalised header `s`. */
  predicate Hits(s: string, f: Field) {
    AnyKeyword(s, Keywords(f))
  }

  /** `Hits` for a fixed normalised header. */
  function HitTest(s: string): (hit: Field -> bool)
    ensures forall f :: hit(f) == Hits(s, f)
  {
    f => Hits(s, f)
  }

  /** The first table position from `j` on whose field passes `hit` and is still unclaimed. */
  function FirstUnclaimedFrom(hit: Field -> bool, used: set<Field>, j: nat): (r: Option<nat>)
    requires j <= |Table|
    decreases |Table| - j
    ensures r.Some? ==> j <= r.value < |Table| && hit(Table[r.value]) && Table[r.value] !in used
    ensures forall m :: j <= m < |Table| && (r.None? || m < r.value) ==> !hit(Table[m]) || Table[m] in used
  {
    if j == |Table| then None
    else if hit(Table[j]) && Table[j] !in used then Some(j)
    else FirstUnclaimedFrom(hit, used, j + 1)
  }

  lemma NoUnclaimedHit(hit: Field -> bool, used: set<Field>)
    requires FirstUnclaimedFrom(hit, used, 0).None?
    ensures forall g: Field :: hit(g) ==> g in used
  {
    forall g: Field ensures hit(g) ==> g in used {
      assert Table[Rank(g)] == g;
    }
  }

  /** Every field ranked before the first unclaimed hit is either missed or claimed. */
  lemma EarlierFieldsBlocked(hit: Field -> bool, used: set<Field>, j: nat)
    requires FirstUnclaimedFrom(hit, used, 0) == Some(j)
    ensures j < |Table| && Rank(Table[j]) == j
    ensures forall g: Field :: Rank(g) < j ==> !hit(g) || g in used
  {
    RankOfTable(j);
    forall g: Field | Rank(g) < j ensures !hit(g) || g in used {
      assert Table[Rank(g)] == g;
    }
  }

  /** The name given to a header that claims no field. */
  function FallbackName(slug: string, used: set<Field>, rule: SuffixRule): (name: string)
    ensures name == slug || name == slug + Suffix
    ensures rule == AsWritten ==> (name != slug <==> exists f: Field :: Name(f) == slug && f !in used)
    ensures rule == AsCommented ==> (name != slug <==> exists f: Field :: Name(f) == slug && f in used)
  {
    TableIsAnEnumeration();
    assert |slug + Suffix| != |slug|;
    match FieldNamed(slug)
    case Some(f) =>
      var suffixed := if rule == AsWritten then f !in used else f in used;
      if suffixed then slug + Suffix else slug
    case None => slug
  }

  /** On a canonical name, the two readings of the suffix test disagree everywhere. */
  lemma FallbackOfCanonicalName(f: Field, used: set<Field>)
    ensures f in used ==> FallbackName(Name(f), used, AsWritten) == Name(f)
    ensures f in used ==> FallbackName(Name(f), used, AsCommented) == Name(f) + Suffix
    ensures f !in used ==> FallbackName(Name(f), used, AsWritten) == Name(f) + Suffix
    ensures f !in used ==> FallbackName(Name(f), used, AsCommented) == Name(f)
  {
    TableIsAnEnumeration();
  }

  /**
   * The field a header claims, given the fields claimed so far: the first
   * field in table order that the header hits and that is still unclaimed.
   */
  function ClaimOf(header: string, used: set<Field>): (c: Option<Field>)
    ensures c.Some? ==> c.value !in used && Hits(Normalize(header), c.value)
    ensures c.Some? ==> forall g: Field :: Rank(g) < Rank(c.value) ==> !Hits(Normalize(header), g) || g in used
    ensures c.None? ==> forall g: Field :: Hits(Normalize(header), g) ==> g in used
  {
    var hit := HitTest(Normalize(header));
    match FirstUnclaimedFrom(hit, used, 0)
    case Some(j) =>
      EarlierFieldsBlocked(hit, used, j);
      Some(Table[j])
    case None =>
      NoUnclaimedHit(hit, used);
      None
  }

  /** The decision for one header: the field it claims, or else its fallback name. */
  function Decide(header: string, used: set<Field>, rule: SuffixRule): (d: Decision)
    ensures d.Claim? ==> d.field !in used && Hits(Normalize(header), d.field)
    ensures d.Fallback? ==> d.name == CleanName(Normalize(header)) || d.name == CleanName(Normalize(header)) + Suffix
  {
    match ClaimOf(header, used)
    case Some(f) => Claim(f)
    case None => Fallback(FallbackName(CleanName(Normalize(header)), used, rule))
  }

  /**
   * A header claims the first field in table order that it hits and that is
   * still free, and falls back only when every field it hits is claimed.
   */
  lemma DecideSpec(header: string, used: set<Field>, rule: SuffixRule)
    ensures var d := Decide(header, used, rule);
      d.Claim? ==> forall g: Field :: Rank(g) < Rank(d.field) ==> !Hits(Normalize(header), g) || g in used
    ensures var d := Decide(header, used, rule);
      d.Fallback? ==> forall g: Field :: Hits(Normalize(header), g) ==> g in used
  {
  }

  /** How each header's decision is taken, given the fields claimed so far. */
  type Decider = (string, set<Field>) -> Decision

  /** The decider of the source, with the suffix test read as `rule`. */
  function DecideBy(rule: SuffixRule): Decider {
    (header: string, used: set<Field>) => Decide(header, used, rule)
  }

  /** A decider that only ever claims fields not yet claimed. */
  ghost predicate ClaimsUnclaimed(decide: Decider) {
    forall header, used :: decide(header, used).Claim? ==> decide(header, used).field !in used
  }

  /** One iteration of the loop over the headers. */
  function Step(r: Resolution, header: string, decide: Decider): (next: Resolution)
    ensures next.newColumns == r.newColumns[header := decide(header, r.used).OutputName()]
    ensures next.used == r.used + if decide(header, r.used).Claim? then {decide(header, r.used).field} else {}
  {
    match decide(header, r.used)
    case Claim(f) => Resolution(r.newColumns[header := Name(f)], r.used + {f})
    case Fallback(n) => Resolution(r.newColumns[header := n], r.used)
  }

  /** The state after the loop has run over the first `n` headers. */
  function ResolveUpTo(headers: seq<string>, decide: Decider, n: nat): (r: Resolution)
    requires n <= |headers|
    ensures forall h :: h in r.newColumns <==> h in headers[..n]
  {
    if n == 0 then Resolution(map[], {})
    else
      assert headers[..n] == headers[..n - 1] + [headers[n - 1]];
      Step(ResolveUpTo(headers, decide, n - 1), headers[n - 1], decide)
  }

  /** The decision taken for the header at position `i`. */
  function DecisionAt(headers: seq<string>, decide: Decider, i: nat): Decision
    requires i < |headers|
  {
    decide(headers[i], ResolveUpTo(headers, decide, i).used)
  }

  /** The state after the loop: the `new_columns` dictionary and `used_standards`. */
  function ResolveAll(headers: seq<string>, rule: SuffixRule): (r: Resolution)
    ensures forall h :: h in r.newColumns <==> h in headers
  {
    assert headers[..|headers|] == headers;
    ResolveUpTo(headers, DecideBy(rule), |headers|)
  }

  /** `df.rename(columns=new_columns)` on the header list. */
  function Rename(headers: seq<string>, newColumns: map<string, string>): (names: seq<string>)
    requires forall h :: h in headers ==> h in newColumns
    ensures |names| == |headers|
    ensures forall i, j :: 0 <= i < j < |headers| && headers[i] == headers[j] ==> names[i] == names[j]
  {
    seq(|headers|, i requires 0 <= i < |headers| => newColumns[headers[i]])
  }

  /** The column names after resolution with the decider `decide`. */
  function RenamedBy(headers: seq<string>, decide: Decider): seq<string> {
    assert headers[..|headers|] == headers;
    Rename(headers, ResolveUpTo(headers, decide, |headers|).newColumns)
  }

  /** The column names after resolution. */
  function Renamed(headers: seq<string>, rule: SuffixRule): seq<string> {
    RenamedBy(headers, DecideBy(rule))
  }

  /**
   * The loop of the source: for each header, scan the table for the first
   * hit field that is not yet claimed, claim it and stop; with no such
   * field, name the header after its slug.
   */
  method ResolveHeaders(headers: seq<string>) returns (newColumns: map<string, string>, used: set<Field>)
    ensures Resolution(newColumns, used) == ResolveAll(headers, AsWritten)
  {
    newColumns, used := map[], {};
    for i := 0 to |headers|
      invariant Resolution(newColumns, used) == ResolveUpTo(headers, DecideBy(AsWritten), i)
    {
      newColumns, used := ResolveHeader(headers[i], newColumns, used);
    }
  }

  /** The body of the loop over the headers, for the header `col`. */
  method ResolveHeader(col: string, newColumns0: map<string, string>, used0: set<Field>)
    returns (newColumns: map<string, string>, used: set<Field>)
    ensures Resolution(newColumns, used) == Step(Resolution(newColumns0, used0), col, DecideBy(AsWritten))
  {
    newColumns, used := newColumns0, used0;
    var colLower := Normalize(col);
    var found := FindUnclaimed(colLower, used);
    if found.Some? {
      var standard := Table[found.value];
      newColumns := newColumns[col := Name(standard)];
      used := used + {standard};
    } else {
      var cleanName := CleanName(colLower);
      newColumns := newColumns[col := FallbackName(cleanName, used, AsWritten)];
    }
  }

  /**
   * The inner loop over the keyword table: the position of the first field
   * the key hits that is not yet claimed, found or not (the `matched` flag).
   */
  method FindUnclaimed(colLower: string, used: set<Field>) returns (found: Option<nat>)
    ensures found == FirstUnclaimedFrom(HitTest(colLower), used, 0)
  {
    ghost var hit := HitTest(colLower);
    found := None;
    for j := 0 to |Table|
      invariant found.None?
      invariant FirstUnclaimedFrom(hit, used, 0) == FirstUnclaimedFrom(hit, used, j)
    {
      var standard := Table[j];
      if AnyKeyword(colLower, Keywords(standard)) && standard !in used {
        assert FirstUnclaimedFrom(hit, used, j) == Some(j);
        found := Some(j);
        break;
      }
    }
  }

  /** The source's decider claims only fields not yet claimed, whichever way the suffix test reads. */
  lemma DecideClaimsUnclaimed(rule: SuffixRule)
    ensures ClaimsUnclaimed(DecideBy(rule))
  {
    forall header, used | DecideBy(rule)(header, used).Claim?
      ensures DecideBy(rule)(header, used).field !in used
    {
      assert DecideBy(rule)(header, used) == Decide(header, used, rule);
    }
  }

  /** `used_standards` only grows. */
  lemma {:induction false} UsedGrows(headers: seq<string>, decide: Decider, i: nat, j: nat)
    requires i <= j <= |headers|
    ensures ResolveUpTo(headers, decide, i).used <= ResolveUpTo(headers, decide, j).used
    decreases j - i
  {
    if i < j {
      UsedGrows(headers, decide, i, j - 1);
    }
  }

  /** A header's claim is in `used_standards` from the next iteration on. */
  lemma ClaimIsUsed(headers: seq<string>, decide: Decider, i: nat)
    requires i < |headers|
    requires DecisionAt(headers, decide, i).Claim?
    ensures DecisionAt(headers, decide, i).field in ResolveUpTo(headers, decide, i + 1).used
  {
    assert ResolveUpTo(headers, decide, i + 1) == Step(ResolveUpTo(headers, decide, i), headers[i], decide);
  }

  /** `used_standards` holds exactly the fields claimed by the headers seen so far. */
  lemma {:induction false} UsedIsClaimed(headers: seq<string>, decide: Decider, n: nat)
    requires n <= |headers|
    ensures forall f: Field :: f in ResolveUpTo(headers, decide, n).used <==>
      exists i :: 0 <= i < n && DecisionAt(headers, decide, i) == Claim(f)
  {
    if n > 0 {
      UsedIsClaimed(headers, decide, n - 1);
      var prev := ResolveUpTo(headers, decide, n - 1);
      var d := DecisionAt(headers, decide, n - 1);
      assert ResolveUpTo(headers, decide, n) == Step(prev, headers[n - 1], decide);
      forall f: Field
        ensures f in ResolveUpTo(headers, decide, n).used <==>
          exists i :: 0 <= i < n && DecisionAt(headers, decide, i) == Claim(f)
      {
        if d == Claim(f) {
          assert DecisionAt(headers, decide, n - 1) == Claim(f);
        } else if exists i :: 0 <= i < n && DecisionAt(headers, decide, i) == Claim(f) {
          var i :| 0 <= i < n && DecisionAt(headers, decide, i) == Claim(f);
          assert i < n - 1;
        }
      }
    }
  }

  /** A decider that claims only unclaimed fields never claims one field twice. */
  lemma ClaimsAreUnique(headers: seq<string>, decide: Decider, i: nat, j: nat)
    requires ClaimsUnclaimed(decide)
    requires i < j < |headers|
    requires DecisionAt(headers, decide, i).Claim? && DecisionAt(headers, decide, j).Claim?
    ensures DecisionAt(headers, decide, i).field != DecisionAt(headers, decide, j).field
  {
    UsedGrows(headers, decide, i + 1, j);
  }

  /** No field is claimed by two headers, whichever way the suffix test reads. */
  lemma SourceClaimsAreUnique(headers: seq<string>, rule: SuffixRule, i: nat, j: nat)
    requires i < j < |headers|
    requires DecisionAt(headers, DecideBy(rule), i).Claim? && DecisionAt(headers, DecideBy(rule), j).Claim?
    ensures DecisionAt(headers, DecideBy(rule), i).field != DecisionAt(headers, DecideBy(rule), j).field
  {
    DecideClaimsUnclaimed(rule);
    ClaimsAreUnique(headers, DecideBy(rule), i, j);
  }

  /** The entry of a header not repeated later is its own decision's name. */
  lemma {:induction false} EntryAfter(headers: seq<string>, decide: Decider, k: nat, n: nat)
    requires k < n <= |headers|
    requires forall m :: k < m < n ==> headers[m] != headers[k]
    ensures headers[k] in ResolveUpTo(headers, decide, n).newColumns
    ensures ResolveUpTo(headers, decide, n).newColumns[headers[k]] == DecisionAt(headers, decide, k).OutputName()
    decreases n
  {
    if n - 1 > k {
      EntryAfter(headers, decide, k, n - 1);
    }
  }

  /**
   * The dictionary is keyed by the raw header, so every column whose header
   * is `headers[i]` is renamed after the last decision taken for that text.
   */
  lemma LastDecisionWins(headers: seq<string>, decide: Decider, i: nat, k: nat)
    requires i < |headers| && k < |headers| && headers[k] == headers[i]
    requires forall m :: k < m < |headers| ==> headers[m] != headers[i]
    ensures RenamedBy(headers, decide)[i] == DecisionAt(headers, decide, k).OutputName()
  {
    EntryAfter(headers, decide, k, |headers|);
  }

  /** With distinct headers, each column gets its own decision's name. */
  lemma RenamedDistinct(headers: seq<string>, decide: Decider, i: nat)
    requires i < |headers|
    requires forall a, b :: 0 <= a < b < |headers| ==> headers[a] != headers[b]
    ensures RenamedBy(headers, decide)[i] == DecisionAt(headers, decide, i).OutputName()
  {
    LastDecisionWins(headers, decide, i, i);
  }

  /** A one-word key hits a field exactly when it is one of that field's keywords. */
  lemma OneWordHits(s: string, f: Field)
    requires s != [] && forall c :: c in s ==> IsWordChar(c)
    ensures Hits(s, f) <==> s in Keywords(f)
  {
    OneWordAnyKeyword(s, Keywords(f));
  }

  /** No canonical name ends in `_original`. */
  lemma NoNameEndsInSuffix(f: Field, x: string)
    ensures Name(f) != x + Suffix
  {
    var n := Name(f);
    if |n| == |x| + |Suffix| {
      assert (x + Suffix)[|x|] == '_';
      assert n[|n| - |Suffix|] != '_';
    }
  }

  /** A header whose key is `id` claims the cow identifier whenever it is still free. */
  lemma IdClaimsCowId(header: string, used: set<Field>, rule: SuffixRule)
    requires Normalize(header) == "id" && CowId !in used
    ensures Decide(header, used, rule) == Claim(CowId)
  {
    IdHitsCowIdFirst(Normalize(header));
    ClaimsFirstFreeHit(header, used, CowId, rule);
  }

  /** The key `id` hits the cow identifier and no field ranked before it. */
  lemma IdHitsCowIdFirst(s: string)
    requires s == "id"
    ensures Hits(s, CowId)
    ensures forall g: Field :: Rank(g) < Rank(CowId) ==> !Hits(s, g)
  {
    IdIsPlainWord(s);
    IdIsCowIdKeyword();
    OneWordHits(s, CowId);
    forall g: Field | Rank(g) < Rank(CowId)
      ensures !Hits(s, g)
    {
      assert g == Date;
      OneWordHits(s, Date);
    }
  }

  lemma IdIsPlainWord(s: string)
    requires s == "id"
    ensures s != [] && forall c :: c in s ==> IsWordChar(c)
  {
  }

  /** A header claims a free field it hits when every field ranked before it is missed or claimed. */
  lemma ClaimsFirstFreeHit(header: string, used: set<Field>, f: Field, rule: SuffixRule)
    requires f !in used && Hits(Normalize(header), f)
    requires forall g: Field :: Rank(g) < Rank(f) ==> !Hits(Normalize(header), g) || g in used
    ensures Decide(header, used, rule) == Claim(f)
  {
    var c := ClaimOf(header, used);
    assert c.Some? && Rank(c.value) == Rank(f);
    RankOfTable(Rank(f));
    RankOfTable(Rank(c.value));
  }

  /** A canonical name is one word and a slug. */
  lemma NameIsSlugWord(f: Field)
    ensures Name(f) != [] && forall c :: c in Name(f) ==> IsWordChar(c)
    ensures IsSlug(Name(f))
  {
    match f
    case Date => SlugWord("date", 1);
    case CowId => SlugWord("cow_id", 3);
    case MilkYield => SlugWord("milk_yield", 4);
    case FatPercentage => SlugWord("fat_percentage", 3);
    case ProteinPercentage => SlugWord("protein_percentage", 7);
    case FeedIntake => SlugWord("feed_intake", 4);
  }

  /**
   * A header whose key is already a canonical name other than `date` claims
   * no field: that name is not among the keywords and, being one word,
   * contains none of them as a whole word.
   */
  lemma CanonicalHeaderClaimsNothing(header: string, used: set<Field>, f: Field)
    requires f != Date && Normalize(header) == Name(f)
    ensures ClaimOf(header, used).None?
  {
    NameIsSlugWord(f);
    forall g: Field ensures !Hits(Name(f), g) {
      OneWordHits(Name(f), g);
      OnlyDateNameIsKeyword(f, g);
    }
  }

  /** Such a header falls back to its own name, subject to the suffix test. */
  lemma CanonicalHeaderFallsBack(header: string, used: set<Field>, f: Field, rule: SuffixRule)
    requires f != Date && Normalize(header) == Name(f)
    ensures Decide(header, used, rule) == Fallback(FallbackName(Name(f), used, rule))
  {
    CanonicalHeaderClaimsNothing(header, used, f);
    NameIsSlugWord(f);
    SlugFixesSlugs(Name(f));
  }

  /**
   * As written, a header already carrying a free canonical name (other than
   * `date`) is renamed away from it, to the name with `_original` appended.
   */
  lemma AsWrittenRenamesFreeCanonicalHeader(header: string, used: set<Field>, f: Field)
    requires f != Date && Normalize(header) == Name(f) && f !in used
    ensures Decide(header, used, AsWritten) == Fallback(Name(f) + Suffix)
  {
    CanonicalHeaderFallsBack(header, used, f, AsWritten);
  }

  /** With the test as commented, that header keeps its canonical name. */
  lemma AsCommentedKeepsFreeCanonicalHeader(header: string, used: set<Field>, f: Field)
    requires f != Date && Normalize(header) == Name(f) && f !in used
    ensures Decide(header, used, AsCommented) == Fallback(Name(f))
  {
    CanonicalHeaderFallsBack(header, used, f, AsCommented);
    TableIsAnEnumeration();
  }

  /**
   * A one-column table already in canonical form (other than `date`) comes
   * out of resolution as written with its column renamed to `<name>_original`,
   * so the cleaning steps no longer see it.
   */
  lemma StandardHeaderIsRenamedAway(headers: seq<string>, f: Field)
    requires |headers| == 1 && f != Date && Normalize(headers[0]) == Name(f)
    ensures Renamed(headers, AsWritten) == [Name(f) + Suffix]
  {
    AsWrittenRenamesFreeCanonicalHeader(headers[0], {}, f);
    RenamedSingle(headers, DecideBy(AsWritten));
  }

  /** With the test as commented, that column keeps its canonical name. */
  lemma StandardHeaderKeptAsCommented(headers: seq<string>, f: Field)
    requires |headers| == 1 && f != Date && Normalize(headers[0]) == Name(f)
    ensures Renamed(headers, AsCommented) == [Name(f)]
  {
    AsCommentedKeepsFreeCanonicalHeader(headers[0], {}, f);
    RenamedSingle(headers, DecideBy(AsCommented));
  }

  /** After an `id` header, `cow_id` is the one claimed field. */
  lemma UsedAfterId(headers: seq<string>, rule: SuffixRule)
    requires |headers| >= 1 && Normalize(headers[0]) == "id"
    ensures ResolveUpTo(headers, DecideBy(rule), 1).used == {CowId}
  {
    var decide := DecideBy(rule);
    IdClaimsCowId(headers[0], {}, rule);
    assert decide(headers[0], {}) == Claim(CowId);
    var start := ResolveUpTo(headers, decide, 0);
    assert start == Resolution(map[], {});
    assert ResolveUpTo(headers, decide, 1) == Step(start, headers[0], decide);
  }

  /**
   * As written, an `id` column followed by a `cow_id` column gives two
   * columns both named `cow_id`.
   */
  lemma IdThenCowIdCollide(headers: seq<string>)
    requires |headers| == 2 && headers[0] != headers[1]
    requires Normalize(headers[0]) == "id" && Normalize(headers[1]) == Name(CowId)
    ensures Renamed(headers, AsWritten) == [Name(CowId), Name(CowId)]
  {
    SecondAfterId(headers, AsWritten);
    FallbackOfCanonicalName(CowId, {CowId});
  }

  /** With the test as commented, the second column becomes `cow_id_original`. */
  lemma IdThenCowIdAsCommented(headers: seq<string>)
    requires |headers| == 2 && headers[0] != headers[1]
    requires Normalize(headers[0]) == "id" && Normalize(headers[1]) == Name(CowId)
    ensures Renamed(headers, AsCommented) == [Name(CowId), Name(CowId) + Suffix]
  {
    SecondAfterId(headers, AsCommented);
    FallbackOfCanonicalName(CowId, {CowId});
  }

  lemma SecondAfterId(headers: seq<string>, rule: SuffixRule)
    requires |headers| == 2 && headers[0] != headers[1]
    requires Normalize(headers[0]) == "id" && Normalize(headers[1]) == Name(CowId)
    ensures Renamed(headers, rule) == [Name(CowId), FallbackName(Name(CowId), {CowId}, rule)]
  {
    DecisionsAfterId(headers, rule);
    RenamedPair(headers, DecideBy(rule));
  }

  lemma DecisionsAfterId(headers: seq<string>, rule: SuffixRule)
    requires |headers| == 2
    requires Normalize(headers[0]) == "id" && Normalize(headers[1]) == Name(CowId)
    ensures DecisionAt(headers, DecideBy(rule), 0) == Claim(CowId)
    ensures DecisionAt(headers, DecideBy(rule), 1) == Fallback(FallbackName(Name(CowId), {CowId}, rule))
  {
    IdClaimsCowId(headers[0], {}, rule);
    UsedAfterId(headers, rule);
    CanonicalHeaderFallsBack(headers[1], {CowId}, CowId, rule);
  }

  /** Once the cow identifier is claimed, a header whose key is `tag` keeps the name `tag`. */
  lemma TagAfterCowIdFallsBack(header: string, rule: SuffixRule)
    requires Normalize(header) == "tag"
    ensures Decide(header, {CowId}, rule) == Fallback("tag")
  {
    var s := Normalize(header);
    TagIsPlainWord(s);
    forall g: Field
      ensures Hits(s, g) ==> g in {CowId}
    {
      OneWordHits(s, g);
      TagIsOnlyCowIdKeyword(g);
    }
    NothingLeftToClaim(header, {CowId});
    SlugFixesSlugs(s);
    FallbackOf(header, {CowId}, rule);
  }

  /** A header all of whose hits are claimed claims nothing. */
  lemma NothingLeftToClaim(header: string, used: set<Field>)
    requires forall g: Field :: Hits(Normalize(header), g) ==> g in used
    ensures ClaimOf(header, used).None?
  {
  }

  lemma TagIsPlainWord(s: string)
    requires s == "tag"
    ensures s != [] && forall c :: c in s ==> IsWordChar(c)
    ensures IsSlug(s) && FieldNamed(s).None?
  {
  }

  /** Headers `id` then `tag` become `cow_id` then `tag`: the second keyword of a claimed field falls through. */
  lemma IdThenTag(headers: seq<string>)
    requires |headers| == 2
    requires Normalize(headers[0]) == "id" && Normalize(headers[1]) == "tag"
    ensures Renamed(headers, AsWritten) == [Name(CowId), "tag"]
  {
    IdClaimsCowId(headers[0], {}, AsWritten);
    UsedAfterId(headers, AsWritten);
    TagAfterCowIdFallsBack(headers[1], AsWritten);
    RenamedPair(headers, DecideBy(AsWritten));
  }

  /** Every keyword starts with a letter, so none can match right after a word character. */
  lemma KeywordsStartWithWordChar(f: Field)
    ensures forall m :: 0 <= m < |Keywords(f)| ==> Keywords(f)[m] != [] && IsWordChar(Keywords(f)[m][0])
  {
  }

  lemma FatPercentShape(s: string)
    requires s == "fat %"
    ensures |s| == 5 && s[..3] == "fat" && forall c :: c in "fat" ==> IsWordChar(c)
    ensures forall p :: 3 <= p < |s| ==> !IsWordChar(s[p])
  {
  }

  /**
   * A header whose key is `fat %` claims the fat percentage whenever it is
   * free: `fat` is a whole word there, and no keyword of an earlier field is.
   */
  lemma FatPercentClaimsFat(header: string, used: set<Field>, rule: SuffixRule)
    requires Normalize(header) == "fat %" && FatPercentage !in used
    ensures Decide(header, used, rule) == Claim(FatPercentage)
  {
    var s := Normalize(header);
    FatPercentShape(s);
    forall g: Field
      ensures Hits(s, g) <==> g == FatPercentage
    {
      KeywordsStartWithWordChar(g);
      LeadingWordAnyKeyword(s, "fat", Keywords(g));
      FatIsOnlyFatKeyword(g);
    }
    ClaimsFirstFreeHit(header, used, FatPercentage, rule);
  }

  /** A single header is renamed after the decision taken with nothing claimed. */
  lemma RenamedSingle(headers: seq<string>, decide: Decider)
    requires |headers| == 1
    ensures RenamedBy(headers, decide) == [decide(headers[0], {}).OutputName()]
  {
    assert ResolveUpTo(headers, decide, 0).used == {};
    RenamedDistinct(headers, decide, 0);
  }

  /** Two distinct headers are renamed after their own decisions. */
  lemma RenamedPair(headers: seq<string>, decide: Decider)
    requires |headers| == 2 && headers[0] != headers[1]
    ensures RenamedBy(headers, decide) ==
      [DecisionAt(headers, decide, 0).OutputName(), DecisionAt(headers, decide, 1).OutputName()]
  {
    LastDecisionWins(headers, decide, 0, 0);
    LastDecisionWins(headers, decide, 1, 1);
  }

  /**
   * As written, a header that claims no field keeps a bare canonical name
   * only when that field is already claimed: the reverse of what the
   * suffix is there to prevent.
   */
  lemma BareNameOnlyWhenClaimed(header: string, used: set<Field>, f: Field)
    requires Decide(header, used, AsWritten) == Fallback(Name(f))
    ensures f in used
  {
    FallbackOf(header, used, AsWritten);
    FallbackBareOnlyWhenClaimed(CleanName(Normalize(header)), used, f);
  }

  lemma FallbackOf(header: string, used: set<Field>, rule: SuffixRule)
    requires Decide(header, used, rule).Fallback? || ClaimOf(header, used).None?
    ensures Decide(header, used, rule) == Fallback(FallbackName(CleanName(Normalize(header)), used, rule))
  {
  }

  lemma FallbackBareOnlyWhenClaimed(slug: string, used: set<Field>, f: Field)
    requires FallbackName(slug, used, AsWritten) == Name(f)
    ensures f in used
  {
    if Name(f) == slug + Suffix {
      NoNameEndsInSuffix(f, slug);
    }
  }

  /** The same, for a header within the whole header list. */
  lemma AsWrittenBareNameOnlyWhenClaimed(headers: seq<string>, j: nat, f: Field)
    requires j < |headers|
    requires DecisionAt(headers, DecideBy(AsWritten), j) == Fallback(Name(f))
    ensures f in ResolveUpTo(headers, DecideBy(AsWritten), j).used
  {
    BareNameOnlyWhenClaimed(headers[j], ResolveUpTo(headers, DecideBy(AsWritten), j).used, f);
  }

  /** A decider that never gives a header the name of a field already claimed. */
  ghost predicate NeverNamesClaimed(decide: Decider) {
    forall header, used, f | f in used :: decide(header, used).OutputName() != Name(f)
  }

  /**
   * With the test as its comment describes it, a header never takes the
   * name of a field that is already claimed.
   */
  lemma CommentedAvoidsClaimed(header: string, used: set<Field>, f: Field)
    requires f in used
    ensures Decide(header, used, AsCommented).OutputName() != Name(f)
  {
    match ClaimOf(header, used)
    case Some(g) =>
      TableIsAnEnumeration();
      assert Decide(header, used, AsCommented) == Claim(g);
    case None =>
      FallbackOf(header, used, AsCommented);
      CommentedFallbackAvoidsClaimed(CleanName(Normalize(header)), used, f);
  }

  lemma CommentedFallbackAvoidsClaimed(slug: string, used: set<Field>, f: Field)
    requires f in used
    ensures FallbackName(slug, used, AsCommented) != Name(f)
  {
    if Name(f) == slug + Suffix {
      NoNameEndsInSuffix(f, slug);
    }
  }

  lemma CommentedNeverNamesClaimed()
    ensures NeverNamesClaimed(DecideBy(AsCommented))
  {
    forall header, used, f | f in used
      ensures DecideBy(AsCommented)(header, used).OutputName() != Name(f)
    {
      CommentedAvoidsClaimed(header, used, f);
    }
  }

  /** Under such a decider, no later header is named after an earlier header's claim. */
  lemma AvoidsEarlierClaims(headers: seq<string>, decide: Decider, i: nat, j: nat)
    requires NeverNamesClaimed(decide)
    requires i < j < |headers|
    requires DecisionAt(headers, decide, i).Claim?
    ensures DecisionAt(headers, decide, j).OutputName() != Name(DecisionAt(headers, decide, i).field)
  {
    ClaimIsUsed(headers, decide, i);
    UsedGrows(headers, decide, i + 1, j);
  }

  /** With the suffix test as commented, a later header never reuses an earlier claim's name. */
  lemma CommentedRuleAvoidsEarlierClaims(headers: seq<string>, i: nat, j: nat)
    requires i < j < |headers|
    requires DecisionAt(headers, DecideBy(AsCommented), i).Claim?
    ensures DecisionAt(headers, DecideBy(AsCommented), j).OutputName() !=
      Name(DecisionAt(headers, DecideBy(AsCommented), i).field)
  {
    CommentedNeverNamesClaimed();
    AvoidsEarlierClaims(headers, DecideBy(AsCommented), i, j);
  }
}
