/** path.ts: reading and editing the `PATH` variable as an insertion-ordered set of
    absolute directories. `isAbsolute` (from the path library) is a parameter. */
module EnvPath {
  import opened Wrappers
  import opened OrderedSets
  import opened Delimitation

  const KEY: string := "PATH"

  /** The `SyntaxError` thrown for a value that is not an absolute path. */
  datatype SyntaxError = NotAbsolutePath(value: string)

  /** What `getEnvPathInternal` returns. `hasDuplicated` is true when the decoded list
      has as many elements as its set, that is, when it has NO duplicates. */
  datatype PathList = PathList(hasDuplicated: bool, result: seq<string>)

  /** `assertValuesAbsolutePath`: the error for the first value that is not absolute. */
  function AssertValuesAbsolutePath(values: seq<string>, isAbsolute: string -> bool): (r: Option<SyntaxError>)
    ensures r.None? <==> forall i :: 0 <= i < |values| ==> isAbsolute(values[i])
    ensures r.Some? ==> exists i :: 0 <= i < |values| && values[i] == r.value.value &&
                                    !isAbsolute(values[i]) && forall k :: 0 <= k < i ==> isAbsolute(values[k])
  {
    match FirstFailing(values, isAbsolute)
    case None => None
    case Some(v) => Some(NotAbsolutePath(v))
  }

  function GetEnvPathInternal(env: Env, isWindows: bool): (r: PathList)
    ensures Distinct(r.result)
    ensures forall v :: v in r.result <==> v in GetEnvWithDelimitation(env, KEY, isWindows)
    ensures r.hasDuplicated <==> Distinct(GetEnvWithDelimitation(env, KEY, isWindows))
  {
    var values := GetEnvWithDelimitation(env, KEY, isWindows);
    FromSeqKeepsLength(values);
    PathList(|values| == |FromSeq(values)|, FromSeq(values))
  }

  /** `getEnvPath`: the decoded entries without repetitions, in order of first occurrence. */
  function GetEnvPath(env: Env, isWindows: bool): (r: seq<string>)
    ensures Distinct(r)
    ensures forall v :: v in r <==> v in GetEnvWithDelimitation(env, KEY, isWindows)
    ensures forall i :: 0 <= i < |r| ==> r[i] != "" && Delimiter(isWindows) !in r[i]
  {
    var r := GetEnvPathInternal(env, isWindows).result;
    assert forall i :: 0 <= i < |r| ==> r[i] in GetEnvWithDelimitation(env, KEY, isWindows);
    r
  }

  /** The environment after a successful `addEnvPath(...values)`. */
  function PathAdded(env: Env, values: seq<string>, isWindows: bool): (env': Env)
    ensures env'.Keys <= env.Keys + {KEY}
    ensures forall k :: k in env && k != KEY ==> k in env' && env'[k] == env[k]
  {
    if |values| == 0 then env
    else SetEnvWithDelimitation(env, KEY, FromSeq(GetEnvWithDelimitation(env, KEY, isWindows) + values), isWindows)
  }

  /** Whether `deleteEnvPath(...values)` writes: some value was removed, or the flag
      `hasDuplicated` (no duplicates in the stored list) was set. */
  predicate DeleteWrites(env: Env, values: seq<string>, isWindows: bool) {
    var list := GetEnvPathInternal(env, isWindows);
    |values| > 0 && (list.hasDuplicated || AnyIn(values, list.result))
  }

  /** The environment after a successful `deleteEnvPath(...values)`. */
  function PathDeleted(env: Env, values: seq<string>, isWindows: bool): (env': Env)
    ensures env'.Keys <= env.Keys + {KEY}
    ensures forall k :: k in env && k != KEY ==> k in env' && env'[k] == env[k]
  {
    if DeleteWrites(env, values, isWindows)
    then SetEnvWithDelimitation(env, KEY, Without(GetEnvPathInternal(env, isWindows).result, values), isWindows)
    else env
  }

  /** `addEnvPath`: validate every value, then add them one by one to the set of the
      stored entries and write the set back. */
  method AddEnvPath(env: Env, values: seq<string>, isAbsolute: string -> bool, isWindows: bool)
    returns (r: Result<Env, SyntaxError>)
    ensures r == Checked(AssertValuesAbsolutePath(values, isAbsolute), PathAdded(env, values, isWindows))
  {
    var invalid := AssertValuesAbsolutePath(values, isAbsolute);
    if invalid.Some? {
      return Failure(invalid.value);
    }
    if |values| > 0 {
      ghost var stored := GetEnvWithDelimitation(env, KEY, isWindows);
      var target := GetEnvPathInternal(env, isWindows).result;
      target := AddEach(target, stored, values);
      return Success(SetEnvWithDelimitation(env, KEY, target, isWindows));
    }
    return Success(env);
  }

  /** `deleteEnvPath`: validate every value, delete them one by one from the set of the
      stored entries, and write the set back only when `isModified` ends up true. */
  method DeleteEnvPath(env: Env, values: seq<string>, isAbsolute: string -> bool, isWindows: bool)
    returns (r: Result<Env, SyntaxError>)
    ensures r == Checked(AssertValuesAbsolutePath(values, isAbsolute), PathDeleted(env, values, isWindows))
  {
    var invalid := AssertValuesAbsolutePath(values, isAbsolute);
    if invalid.Some? {
      return Failure(invalid.value);
    }
    if |values| > 0 {
      var list := GetEnvPathInternal(env, isWindows);
      var target := list.result;
      var isModified;
      target, isModified := DeleteEach(target, values, list.hasDuplicated);
      if isModified {
        return Success(SetEnvWithDelimitation(env, KEY, target, isWindows));
      }
    }
    return Success(env);
  }

  /** What an add stores reads back unchanged. */
  lemma AddReadsBack(env: Env, values: seq<string>, isWindows: bool)
    requires |values| > 0
    requires forall i :: 0 <= i < |values| ==> values[i] != "" && Delimiter(isWindows) !in values[i]
    ensures GetEnvWithDelimitation(PathAdded(env, values, isWindows), KEY, isWindows)
            == FromSeq(GetEnvWithDelimitation(env, KEY, isWindows) + values)
  {
    var stored := GetEnvWithDelimitation(env, KEY, isWindows);
    var target := FromSeq(stored + values);
    forall i | 0 <= i < |target| ensures target[i] != "" && Delimiter(isWindows) !in target[i] {
      assert target[i] in stored + values;
    }
    RoundTrip(env, KEY, target, isWindows);
    NonEmptyOfNonEmpty(target);
  }

  /** After an add, `getEnvPath` returns the old entries followed by the added values
      that were not present yet, in argument order. */
  lemma AddAppendsNewValues(env: Env, values: seq<string>, isWindows: bool)
    requires |values| > 0
    requires forall i :: 0 <= i < |values| ==> values[i] != "" && Delimiter(isWindows) !in values[i]
    ensures GetEnvPath(PathAdded(env, values, isWindows), isWindows)
            == GetEnvPath(env, isWindows) + FromSeq(Without(values, GetEnvPath(env, isWindows)))
  {
    var stored := GetEnvWithDelimitation(env, KEY, isWindows);
    var target := FromSeq(stored + values);
    AddReadsBack(env, values, isWindows);
    FromSeqOfDistinct(target);
    FromSeqAbsorbs(stored, values);
    FromSeqAppend(GetEnvPath(env, isWindows), values);
  }

  /** Adding the same values twice leaves the environment as adding them once. */
  lemma AddIdempotent(env: Env, values: seq<string>, isWindows: bool)
    requires forall i :: 0 <= i < |values| ==> values[i] != "" && Delimiter(isWindows) !in values[i]
    ensures PathAdded(PathAdded(env, values, isWindows), values, isWindows) == PathAdded(env, values, isWindows)
  {
    if |values| > 0 {
      var target := FromSeq(GetEnvWithDelimitation(env, KEY, isWindows) + values);
      var env1 := PathAdded(env, values, isWindows);
      AddReadsBack(env, values, isWindows);
      calc {
        FromSeq(GetEnvWithDelimitation(env1, KEY, isWindows) + values);
        FromSeq(target + values);
        { FromSeqAppend(target, values); WithoutCovered(values, target); }
        target + FromSeq([]);
        { assert target + [] == target; }
        target;
      }
      assert env1 == SetEnvWithDelimitation(env, KEY, target, isWindows);
      SetTwice(env, KEY, target, target, isWindows);
    }
  }

  /** Once `deleteEnvPath` has written, `getEnvPath` returns the old entries, in their
      order, without the deleted values. */
  lemma DeleteRemovesValues(env: Env, values: seq<string>, isWindows: bool)
    requires DeleteWrites(env, values, isWindows)
    ensures GetEnvPath(PathDeleted(env, values, isWindows), isWindows) == Without(GetEnvPath(env, isWindows), values)
    ensures forall i :: 0 <= i < |values| ==> values[i] !in GetEnvPath(PathDeleted(env, values, isWindows), isWindows)
  {
    var before := GetEnvPath(env, isWindows);
    var target := Without(before, values);
    forall i | 0 <= i < |target| ensures target[i] != "" && Delimiter(isWindows) !in target[i] {
      assert target[i] in before;
    }
    RoundTrip(env, KEY, target, isWindows);
    NonEmptyOfNonEmpty(target);
    WithoutDistinct(before, values);
    FromSeqOfDistinct(target);
  }

  /** Because the flag is set only when the stored list has no duplicates, a list with
      duplicates from which nothing is removed is left as it is, duplicates included. */
  lemma DeleteKeepsDuplicatesWhenNothingRemoved(env: Env, values: seq<string>, isWindows: bool)
    requires !Distinct(GetEnvWithDelimitation(env, KEY, isWindows))
    requires forall i :: 0 <= i < |values| ==> values[i] !in GetEnvWithDelimitation(env, KEY, isWindows)
    ensures PathDeleted(env, values, isWindows) == env
  {
  }

  /** Because an empty list has no duplicates, deleting from an unset `PATH` writes it,
      as the empty string. */
  lemma DeleteFromUnsetWritesEmpty(env: Env, values: seq<string>, isWindows: bool)
    requires KEY !in env && |values| > 0
    ensures KEY in PathDeleted(env, values, isWindows) && PathDeleted(env, values, isWindows)[KEY] == ""
  {
    assert GetEnvWithDelimitation(env, KEY, isWindows) == [];
    assert GetEnvPathInternal(env, isWindows).result == [];
  }

  /** With no values neither edit writes. */
  lemma ZeroValuesWriteNothing(env: Env, isWindows: bool)
    ensures PathAdded(env, [], isWindows) == env
    ensures PathDeleted(env, [], isWindows) == env
  {
  }
}
