/** The reverse normalisation map: for each canonical key, the most readable
    of its synonyms. A synonym is cleaned of the technical suffixes pandas
    and the source sheets add; the best name is the shortest cleaned name
    without brackets, else the shortest cleaned name. */
module ReverseMapping {
  import opened Strings
  import opened Dicts

  /** The note that marks a characteristic as optional, without its closing bracket. */
  const OptionalNote: string := "(характеристика не является обязательной"

  // ───────────────────────── clean_column_name ─────────────────────────

  /** Where the run of digits that ends the name starts. */
  function TrailingDigitsStart(name: string): (k: nat)
    ensures k <= |name|
    ensures forall i | k <= i < |name| :: IsDigit(name[i])
    ensures k > 0 ==> !IsDigit(name[k - 1])
  {
    if name == [] || !IsDigit(name[|name| - 1]) then |name|
    else TrailingDigitsStart(name[..|name| - 1])
  }

  /** `re.sub(r'\.\d+$', '', name)`: a point and digits that end the name are removed. */
  function DropNumberSuffix(name: string): (r: string)
    ensures r <= name
    ensures r == name || (|r| + 1 < |name| && name[|r|] == '.' && forall i | |r| < i < |name| :: IsDigit(name[i]))
  {
    var k := TrailingDigitsStart(name);
    if 0 < k < |name| && name[k - 1] == '.' then name[..k - 1] else name
  }

  /** The optional-characteristic note starts at `i` and runs, without another closing bracket,
      to the closing bracket that ends the name. */
  predicate NoteAt(name: string, i: nat) {
    i + |OptionalNote| < |name| && OptionalNote <= name[i..] && name[|name| - 1] == ')'
    && forall k | i + |OptionalNote| <= k < |name| - 1 :: name[k] != ')'
  }

  /** The leftmost place the note matches at or after `j`, or |name|. */
  function FirstNoteFrom(name: string, j: nat): (i: nat)
    requires j <= |name|
    ensures j <= i <= |name|
    ensures i < |name| ==> NoteAt(name, i)
    ensures forall k | j <= k < i :: !NoteAt(name, k)
    decreases |name| - j
  {
    if j == |name| || NoteAt(name, j) then j else FirstNoteFrom(name, j + 1)
  }

  /** `re.sub(r'\(характеристика не является обязательной[^)]*\)$', '', name)`. */
  function DropOptionalNote(name: string): (r: string)
    ensures r <= name
  {
    var i := FirstNoteFrom(name, 0);
    if i < |name| then name[..i] else name
  }

  /** clean_column_name: the number suffix, then the note, then surrounding whitespace. */
  function CleanColumnName(name: string): string {
    Strip(DropOptionalNote(DropNumberSuffix(name)))
  }

  // ───────────────────────── select_best_name ─────────────────────────

  /** The cleaned synonyms, in order. */
  function CleanAll(synonyms: seq<string>): (r: seq<string>)
    ensures |r| == |synonyms| && forall i | 0 <= i < |synonyms| :: r[i] == CleanColumnName(synonyms[i])
  {
    seq(|synonyms|, i requires 0 <= i < |synonyms| => CleanColumnName(synonyms[i]))
  }

  /** The non-empty names without repeats, each at its first occurrence. */
  function UniqueNames(names: seq<string>): seq<string> {
    if names == [] then []
    else
      var init := UniqueNames(names[..|names| - 1]);
      var name := names[|names| - 1];
      if name != "" && name !in init then init + [name] else init
  }

  /** The names without an opening bracket, in order. */
  function WithoutParens(names: seq<string>): (r: seq<string>)
    ensures forall x | x in r :: x in names && '(' !in x
    ensures forall x | x in names && '(' !in x :: x in r
  {
    if names == [] then []
    else
      var init := WithoutParens(names[..|names| - 1]);
      var name := names[|names| - 1];
      assert forall x | x in names[..|names| - 1] :: x in names;
      if '(' !in name then init + [name] else init
  }

  /** The index min(names, key=len) picks: the first of the shortest names. */
  function ShortestAt(names: seq<string>): (k: nat)
    requires names != []
    ensures k < |names|
    ensures forall j | 0 <= j < |names| :: |names[k]| <= |names[j]|
    ensures forall j | 0 <= j < k :: |names[j]| > |names[k]|
  {
    if |names| == 1 then 0
    else
      var m := ShortestAt(names[..|names| - 1]);
      if |names[|names| - 1]| < |names[m]| then |names| - 1 else m
  }

  /** min(names, key=len). */
  function Shortest(names: seq<string>): (r: string)
    requires names != []
    ensures r in names
    ensures forall x | x in names :: |r| <= |x|
  {
    names[ShortestAt(names)]
  }

  /** The choice among the unique cleaned names: the shortest without a bracket, else the shortest. */
  function Choose(unique: seq<string>): string
    requires unique != []
  {
    var plain := WithoutParens(unique);
    if plain != [] then Shortest(plain) else Shortest(unique)
  }

  /** select_best_name. */
  function BestName(synonyms: seq<string>): string {
    if synonyms == [] then ""
    else
      var unique := UniqueNames(CleanAll(synonyms));
      if unique == [] then synonyms[0] else Choose(unique)
  }

  /** select_best_name: drop empty and repeated names, then choose. */
  method SelectBestName(synonyms: seq<string>) returns (best: string)
    ensures best == BestName(synonyms)
  {
    if synonyms == [] {
      return "";
    }
    var cleaned := CleanAll(synonyms);
    var uniqueNames := Deduplicate(cleaned);
    if uniqueNames == [] {
      return synonyms[0];
    }
    var namesWithoutParens := WithoutParens(uniqueNames);
    if namesWithoutParens != [] {
      best := Shortest(namesWithoutParens);
    } else {
      best := Shortest(uniqueNames);
    }
  }

  /** The loop of select_best_name that keeps each non-empty name once, with the set of names seen. */
  method Deduplicate(cleaned: seq<string>) returns (uniqueNames: seq<string>)
    ensures uniqueNames == UniqueNames(cleaned)
  {
    uniqueNames := [];
    var seen: set<string> := {};
    for i := 0 to |cleaned|
      invariant uniqueNames == UniqueNames(cleaned[..i])
      invariant seen == set x | x in uniqueNames
    {
      var name := cleaned[i];
      assert cleaned[..i + 1][..i] == cleaned[..i];
      if name != "" && name !in seen {
        uniqueNames := uniqueNames + [name];
        seen := seen + {name};
      }
    }
    assert cleaned[..|cleaned|] == cleaned;
  }

  // ───────────────────────── properties of the cleaning and the choice ─────────────────────────

  /** A point and a run of digits at the end are removed, and nothing else. */
  lemma DropNumberSuffixOf(x: string, digits: string)
    requires digits != [] && AllDigits(digits)
    ensures DropNumberSuffix(x + "." + digits) == x
  {
    var name := x + "." + digits;
    var k := TrailingDigitsStart(name);
    assert name[|x|] == '.';
    assert name[..|x|] == x;
  }

  /** The optional-characteristic note up to the closing bracket that ends the name is removed. */
  lemma DropOptionalNoteOf(x: string, tail: string)
    requires '(' !in x && ')' !in tail
    ensures DropOptionalNote(x + OptionalNote + tail + ")") == x
  {
    var name := x + OptionalNote + tail + ")";
    assert name[|x|..] == OptionalNote + tail + ")";
    forall k | |x| + |OptionalNote| <= k < |name| - 1 ensures name[k] != ')' {
      assert name[k] == tail[k - |x| - |OptionalNote|];
    }
    assert NoteAt(name, |x|);
    forall k | 0 <= k < |x| ensures !NoteAt(name, k) {
      assert name[k..][0] == x[k] != OptionalNote[0];
    }
    assert FirstNoteFrom(name, 0) == |x|;
    assert name[..|x|] == x;
  }

  /** A duplicated column of an optional characteristic cleans to its bare name. */
  lemma CleanSuffixedOptional(x: string, tail: string, digits: string)
    requires '(' !in x && ')' !in tail
    requires digits != [] && AllDigits(digits)
    ensures CleanColumnName(x + OptionalNote + tail + ")" + "." + digits) == Strip(x)
  {
    DropNumberSuffixOf(x + OptionalNote + tail + ")", digits);
    DropOptionalNoteOf(x, tail);
  }

  /** A name with neither suffix nor surrounding whitespace is its own cleaned name. */
  lemma CleanPlainName(name: string)
    requires forall i | 0 <= i < |name| :: !IsDigit(name[i]) && !IsSpace(name[i]) && name[i] != ')'
    ensures CleanColumnName(name) == name
  {
    assert DropNumberSuffix(name) == name;
    StripNoSpaceAnywhere(name);
  }

  /** The unique names are the non-empty names, each exactly once. */
  lemma {:induction false} UniqueNamesMembers(names: seq<string>)
    ensures forall x :: x in UniqueNames(names) <==> x != "" && x in names
    ensures forall i, j | 0 <= i < j < |UniqueNames(names)| :: UniqueNames(names)[i] != UniqueNames(names)[j]
  {
    if names != [] {
      var init := names[..|names| - 1];
      UniqueNamesMembers(init);
      assert names == init + [names[|names| - 1]];
    }
  }

  /** When every synonym cleans to nothing, the first synonym is kept as it is. */
  lemma BestNameFallback(synonyms: seq<string>)
    requires synonyms != []
    requires forall x | x in CleanAll(synonyms) :: x == ""
    ensures BestName(synonyms) == synonyms[0]
  {
    var cleaned := CleanAll(synonyms);
    UniqueNamesMembers(cleaned);
    assert UniqueNames(cleaned) == [] by {
      if UniqueNames(cleaned) != [] {
        assert UniqueNames(cleaned)[0] in UniqueNames(cleaned);
      }
    }
  }

  /** The choice is one of the names: one without a bracket and no longer than any other such name
      when there is one, else no longer than any name. */
  lemma ChooseOf(unique: seq<string>)
    requires unique != []
    ensures Choose(unique) in unique
    ensures forall x | x in unique && '(' !in x :: '(' !in Choose(unique) && |Choose(unique)| <= |x|
    ensures '(' in Choose(unique) ==> forall x | x in unique :: '(' in x && |Choose(unique)| <= |x|
  {
  }

  /** Otherwise the best name is a non-empty cleaned synonym: one without a bracket, no longer than
      any other without a bracket, when there is one; else no longer than any non-empty cleaned synonym. */
  lemma BestNameChoice(synonyms: seq<string>, i: nat)
    requires i < |synonyms| && CleanAll(synonyms)[i] != ""
    ensures BestName(synonyms) != "" && BestName(synonyms) in CleanAll(synonyms)
    ensures forall x | x in CleanAll(synonyms) && x != "" && '(' !in x ::
      '(' !in BestName(synonyms) && |BestName(synonyms)| <= |x|
    ensures '(' in BestName(synonyms) ==> forall x | x in CleanAll(synonyms) && x != "" ::
      '(' in x && |BestName(synonyms)| <= |x|
  {
    var cleaned := CleanAll(synonyms);
    UniqueNamesMembers(cleaned);
    assert cleaned[i] in UniqueNames(cleaned);
    ChooseOf(UniqueNames(cleaned));
  }

  // ───────────────────────── generate_reverse_mapping ─────────────────────────

  /** generate_reverse_mapping without the file reading and writing: one entry per canonical key,
      in the map's order, each holding the best name of its synonyms. */
  method GenerateReverseMapping(canonicalKeys: Dict<string, seq<string>>) returns (reverseMapping: Dict<string, string>)
    ensures reverseMapping == MapValues(canonicalKeys, BestName)
  {
    reverseMapping := [];
    for i := 0 to |canonicalKeys|
      invariant reverseMapping == MapValues(canonicalKeys[..i], BestName)
    {
      var (canonicalKey, synonyms) := canonicalKeys[i];
      var bestName := SelectBestName(synonyms);
      assert canonicalKeys[..i + 1][..i] == canonicalKeys[..i];
      MapValuesKeys(canonicalKeys[..i], BestName);
      reverseMapping := Put(reverseMapping, canonicalKey, bestName);
    }
    assert canonicalKeys[..|canonicalKeys|] == canonicalKeys;
  }

  /** The reverse map has exactly the canonical keys, in order, each with the best name of its synonyms. */
  lemma ReverseMappingEntries(canonicalKeys: Dict<string, seq<string>>)
    ensures |MapValues(canonicalKeys, BestName)| == |canonicalKeys|
    ensures forall i | 0 <= i < |canonicalKeys| ::
      MapValues(canonicalKeys, BestName)[i] == (canonicalKeys[i].0, BestName(canonicalKeys[i].1))
  {
    MapValuesKeys(canonicalKeys, BestName);
  }
}
