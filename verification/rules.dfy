/** The classifier, the blocking rule and the reduce-key helper of the job
    (`isEntityOfSetR`, `areSameEntities`, `extractReduceKey`). */
module EntityRules {
  import opened Optional
  import opened JavaLang
  import opened Citations

  /** `String.matches("[0-9]*")`: the whole text is a run, possibly empty, of ASCII decimal
      digits, consumed one character at a time as the star of the pattern does. */
  function MatchesDigitStar(s: string): (r: bool)
    ensures r <==> AllDigits(s)
  {
    if s == [] then true
    else
      assert forall i :: 0 < i < |s| ==> s[i] == s[1..][i - 1];
      IsAsciiDigit(s[0]) && MatchesDigitStar(s[1..])
  }

  /** `isEntityOfSetR`: a citation belongs to set R exactly when its id is all digits. */
  function IsEntityOfSetR(entity: Citation): (r: bool)
    ensures r <==> forall i :: 0 <= i < |entity.id| ==> IsAsciiDigit(entity.id[i])
  {
    MatchesDigitStar(entity.id)
  }

  /** The classification depends on the id alone. */
  lemma IsEntityOfSetRIdOnly(a: Citation, b: Citation)
    requires a.id == b.id
    ensures IsEntityOfSetR(a) == IsEntityOfSetR(b)
  {
  }

  /** A citation with an empty id is put in set R; one whose id holds any non-digit is put
      in set S. */
  lemma IsEntityOfSetRCases(entity: Citation, i: nat)
    ensures entity.id == [] ==> IsEntityOfSetR(entity)
    ensures i < |entity.id| && !IsAsciiDigit(entity.id[i]) ==> !IsEntityOfSetR(entity)
  {
  }

  /** `areSameEntities`: the negative rule. A pair survives unless the years differ. */
  function AreSameEntities(entityA: Citation, entityB: Citation): (r: bool)
    ensures r <==> entityA.year == entityB.year
  {
    var areSameEntities := true;
    if entityA.year != entityB.year then false else areSameEntities
  }

  /** The rule is symmetric and looks at nothing but the years. */
  lemma AreSameEntitiesYearOnly(a: Citation, a': Citation, b: Citation, b': Citation)
    requires a.year == a'.year && b.year == b'.year
    ensures AreSameEntities(a, b) == AreSameEntities(a', b')
    ensures AreSameEntities(a, b) == AreSameEntities(b, a)
  {
  }

  /** `extractReduceKey`: the key without its last two characters, trimmed. A key shorter
      than two characters makes `substring` throw (`None`). */
  function ExtractReduceKey(key: string): (r: Option<string>)
    ensures r.Some? <==> |key| >= 2
    ensures r.Some? ==> |r.value| <= |key| - 2 && Trim(r.value) == r.value
  {
    if |key| < 2 then None
    else
      var compKey := key[..|key| - 2];
      TrimIdempotent(compKey);
      Some(Trim(compKey))
  }

  /** A cell name followed by a two-character tag reduces to the trimmed cell name, whatever
      the tag is: keys that differ only in their tag share a cell. */
  lemma ExtractReduceKeyTagged(cell: string, tag: string)
    requires |tag| == 2
    ensures ExtractReduceKey(cell + tag) == Some(Trim(cell))
  {
    assert (cell + tag)[..|cell|] == cell;
  }
}
