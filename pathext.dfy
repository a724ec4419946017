/** pathext.ts: reading and editing the `PATHEXT` variable, the Windows list of
    executable file extensions, as an insertion-ordered set. */
module EnvPathExt {
  import opened Wrappers
  import opened OrderedSets
  import opened Delimitation
  import opened Text

  const KEY: string := "PATHEXT"

  /** What `getEnvPathExt` answers on Windows when the variable holds no value. */
  const DEFAULT_PATHEXT: seq<string> := [".EXE", ".CMD", ".BAT", ".COM"]

  /** The `SyntaxError` thrown for a value that does not start with a dot. */
  datatype SyntaxError = NotFileExtension(value: string)

  /** What `getEnvPathExtInternal` returns; as in path.ts, `hasDuplicated` is true when
      the decoded list has NO duplicates. */
  datatype PathExtList = PathExtList(hasDuplicated: bool, result: seq<string>)

  predicate IsFileExtension(value: string) {
    StartsWith(value, ".")
  }

  /** `assertValuesFileExtension`: the error for the first value not starting with `.`. */
  function AssertValuesFileExtension(values: seq<string>): (r: Option<SyntaxError>)
    ensures r.None? <==> forall i :: 0 <= i < |values| ==> values[i] != "" && values[i][0] == '.'
    ensures r.Some? ==> exists i :: 0 <= i < |values| && values[i] == r.value.value &&
                                    !IsFileExtension(values[i]) && forall k :: 0 <= k < i ==> IsFileExtension(values[k])
  {
    match FirstFailing(values, IsFileExtension)
    case None => None
    case Some(v) => Some(NotFileExtension(v))
  }

  function GetEnvPathExtInternal(env: Env, isWindows: bool): (r: PathExtList)
    ensures Distinct(r.result)
    ensures forall v :: v in r.result <==> v in GetEnvWithDelimitation(env, KEY, isWindows)
    ensures r.hasDuplicated <==> Distinct(GetEnvWithDelimitation(env, KEY, isWindows))
  {
    var values := GetEnvWithDelimitation(env, KEY, isWindows);
    FromSeqKeepsLength(values);
    PathExtList(|values| == |FromSeq(values)|, FromSeq(values))
  }

  /** `getEnvPathExt`: `null` off Windows; on Windows the stored extensions without
      repetitions, or the default list when there are none. */
  function GetEnvPathExt(env: Env, isWindows: bool): (r: Option<seq<string>>)
    ensures r.None? <==> !isWindows
    ensures r.Some? ==> |r.value| > 0 && Distinct(r.value)
    ensures r.Some? && GetEnvWithDelimitation(env, KEY, isWindows) == [] ==> r.value == DEFAULT_PATHEXT
    ensures r.Some? && GetEnvWithDelimitation(env, KEY, isWindows) != [] ==>
              forall v :: v in r.value <==> v in GetEnvWithDelimitation(env, KEY, isWindows)
  {
    if !isWindows then None
    else
      var values := GetEnvPathExtInternal(env, isWindows).result;
      if |values| > 0 then Some(values)
      else Some(DEFAULT_PATHEXT)
  }

  /** `value.toUpperCase()` for every value. */
  function UpperAll(values: seq<string>): (r: seq<string>)
    ensures |r| == |values|
    ensures forall i :: 0 <= i < |values| ==> r[i] == Upper(values[i])
  {
    seq(|values|, i requires 0 <= i < |values| => Upper(values[i]))
  }

  /** The environment after a successful `addEnvPathExt(...values)`. */
  function PathExtAdded(env: Env, values: seq<string>, isWindows: bool): (env': Env)
    ensures env'.Keys <= env.Keys + {KEY}
    ensures forall k :: k in env && k != KEY ==> k in env' && env'[k] == env[k]
  {
    if isWindows && |values| > 0
    then SetEnvWithDelimitation(env, KEY, FromSeq(GetEnvWithDelimitation(env, KEY, isWindows) + UpperAll(values)), isWindows)
    else env
  }

  /** Whether `deleteEnvPathExt(...values)` writes. */
  predicate DeleteWrites(env: Env, values: seq<string>, isWindows: bool) {
    var list := GetEnvPathExtInternal(env, isWindows);
    isWindows && |values| > 0 && (list.hasDuplicated || AnyIn(values, list.result))
  }

  /** The environment after a successful `deleteEnvPathExt(...values)`. */
  function PathExtDeleted(env: Env, values: seq<string>, isWindows: bool): (env': Env)
    ensures env'.Keys <= env.Keys + {KEY}
    ensures forall k :: k in env && k != KEY ==> k in env' && env'[k] == env[k]
  {
    if DeleteWrites(env, values, isWindows)
    then SetEnvWithDelimitation(env, KEY, Without(GetEnvPathExtInternal(env, isWindows).result, values), isWindows)
    else env
  }

  /** `addEnvPathExt`: validate every value (on every platform), then on Windows add the
      upper-cased values one by one to the set of the stored extensions and write it. */
  method AddEnvPathExt(env: Env, values: seq<string>, isWindows: bool) returns (r: Result<Env, SyntaxError>)
    ensures r == Checked(AssertValuesFileExtension(values), PathExtAdded(env, values, isWindows))
  {
    var invalid := AssertValuesFileExtension(values);
    if invalid.Some? {
      return Failure(invalid.value);
    }
    if isWindows && |values| > 0 {
      ghost var stored := GetEnvWithDelimitation(env, KEY, isWindows);
      var target := GetEnvPathExtInternal(env, isWindows).result;
      target := AddEach(target, stored, UpperAll(values));
      return Success(SetEnvWithDelimitation(env, KEY, target, isWindows));
    }
    return Success(env);
  }

  /** `deleteEnvPathExt`: validate every value (on every platform), then on Windows delete
      the values as given, without case mapping, and write only when `isModified`. */
  method DeleteEnvPathExt(env: Env, values: seq<string>, isWindows: bool) returns (r: Result<Env, SyntaxError>)
    ensures r == Checked(AssertValuesFileExtension(values), PathExtDeleted(env, values, isWindows))
  {
    var invalid := AssertValuesFileExtension(values);
    if invalid.Some? {
      return Failure(invalid.value);
    }
    if isWindows && |values| > 0 {
      var list := GetEnvPathExtInternal(env, isWindows);
      var target := list.result;
      var isModified;
      target, isModified := DeleteEach(target, values, list.hasDuplicated);
      if isModified {
        return Success(SetEnvWithDelimitation(env, KEY, target, isWindows));
      }
    }
    return Success(env);
  }

  lemma UpperKeepsExtension(values: seq<string>)
    requires AssertValuesFileExtension(values).None?
    requires forall i :: 0 <= i < |values| ==> DELIMITER_SEMI_COLON !in values[i]
    ensures forall i :: 0 <= i < |values| ==>
              UpperAll(values)[i] != "" && UpperAll(values)[i][0] == '.' && DELIMITER_SEMI_COLON !in UpperAll(values)[i]
  {
    forall i | 0 <= i < |values|
      ensures UpperAll(values)[i] != "" && UpperAll(values)[i][0] == '.' && DELIMITER_SEMI_COLON !in UpperAll(values)[i]
    {
    }
  }

  /** On Windows an add makes `getEnvPathExt` return the old extensions followed by the
      upper-cased new ones not present yet, in argument order. */
  lemma AddAppendsUpperCased(env: Env, values: seq<string>)
    requires |values| > 0 && AssertValuesFileExtension(values).None?
    requires forall i :: 0 <= i < |values| ==> DELIMITER_SEMI_COLON !in values[i]
    ensures var before := GetEnvPathExtInternal(env, true).result;
            GetEnvPathExt(PathExtAdded(env, values, true), true)
            == Some(before + FromSeq(Without(UpperAll(values), before)))
  {
    var stored := GetEnvWithDelimitation(env, KEY, true);
    var upper := UpperAll(values);
    var target := FromSeq(stored + upper);
    UpperKeepsExtension(values);
    forall i | 0 <= i < |target| ensures target[i] != "" && Delimiter(true) !in target[i] {
      assert target[i] in stored + upper;
    }
    RoundTrip(env, KEY, target, true);
    NonEmptyOfNonEmpty(target);
    FromSeqOfDistinct(target);
    FromSeqAbsorbs(stored, upper);
    FromSeqAppend(FromSeq(stored), upper);
    assert upper[0] in target;
  }

  /** The default list is never stored: adding to an unset `PATHEXT` leaves only the
      added extensions, so the defaults are no longer reported. */
  lemma DefaultNotPersisted(env: Env, values: seq<string>)
    requires KEY !in env
    requires |values| > 0 && AssertValuesFileExtension(values).None?
    requires forall i :: 0 <= i < |values| ==> DELIMITER_SEMI_COLON !in values[i]
    ensures GetEnvPathExt(env, true) == Some(DEFAULT_PATHEXT)
    ensures GetEnvPathExt(PathExtAdded(env, values, true), true) == Some(FromSeq(UpperAll(values)))
  {
    assert GetEnvWithDelimitation(env, KEY, true) == [];
    var before := GetEnvPathExtInternal(env, true).result;
    assert before == [];
    AddAppendsUpperCased(env, values);
    WithoutNothing(UpperAll(values));
    assert before + FromSeq(Without(UpperAll(values), before)) == FromSeq(UpperAll(values));
  }

  /** Once a delete has written, the stored extensions are the old ones, in order,
      without those equal to a deleted value; the comparison is case-sensitive. */
  lemma DeleteRemovesExactMatches(env: Env, values: seq<string>)
    requires DeleteWrites(env, values, true)
    ensures var before := GetEnvPathExtInternal(env, true).result;
            GetEnvPathExtInternal(PathExtDeleted(env, values, true), true).result == Without(before, values)
  {
    var before := GetEnvPathExtInternal(env, true).result;
    var target := Without(before, values);
    forall i | 0 <= i < |target| ensures target[i] != "" && Delimiter(true) !in target[i] {
      assert target[i] in before;
    }
    RoundTrip(env, KEY, target, true);
    NonEmptyOfNonEmpty(target);
    WithoutDistinct(before, values);
    FromSeqOfDistinct(target);
  }

  /** Deleting `.exe` does not remove a stored `.EXE`. */
  lemma DeleteIsCaseSensitive(env: Env)
    requires ".EXE" in GetEnvWithDelimitation(env, KEY, true)
    ensures ".EXE" in GetEnvPathExtInternal(PathExtDeleted(env, [".exe"], true), true).result
  {
    if DeleteWrites(env, [".exe"], true) {
      DeleteRemovesExactMatches(env, [".exe"]);
      assert ".EXE" != ".exe";
    }
  }

  /** With duplicates stored and nothing to remove, a delete writes nothing. */
  lemma DeleteKeepsDuplicatesWhenNothingRemoved(env: Env, values: seq<string>)
    requires !Distinct(GetEnvWithDelimitation(env, KEY, true))
    requires forall i :: 0 <= i < |values| ==> values[i] !in GetEnvWithDelimitation(env, KEY, true)
    ensures PathExtDeleted(env, values, true) == env
  {
  }

  /** Off Windows, and with no values, neither edit writes; validation still runs first. */
  lemma EditsOffWindowsWriteNothing(env: Env, values: seq<string>)
    ensures PathExtAdded(env, values, false) == env && PathExtDeleted(env, values, false) == env
    ensures PathExtAdded(env, [], true) == env && PathExtDeleted(env, [], true) == env
  {
  }
}
