/** delimitation.ts: multi-value environment variables such as PATH and PATHEXT are one
    string whose values are separated by the platform delimiter. The environment is a map
    that is passed in and, after a write, returned. */
module Delimitation {

  type Env = map<string, string>

  const DELIMITER_COLON: char := ':'
  const DELIMITER_SEMI_COLON: char := ';'

  /** `delimiter`: a semicolon on Windows, a colon elsewhere. */
  function Delimiter(isWindows: bool): (d: char)
    ensures d == DELIMITER_SEMI_COLON <==> isWindows
    ensures d == DELIMITER_COLON <==> !isWindows
  {
    if isWindows then DELIMITER_SEMI_COLON else DELIMITER_COLON
  }

  /** `String.prototype.split` with a one-character separator: the pieces between the
      separators, so `n` separators give `n + 1` pieces, some of them possibly empty. */
  function Split(s: string, d: char): (parts: seq<string>)
    ensures |parts| >= 1
    ensures forall i :: 0 <= i < |parts| ==> d !in parts[i]
    decreases |s|
  {
    if s == [] then [""]
    else if s[0] == d then [""] + Split(s[1..], d)
    else
      var rest := Split(s[1..], d);
      [[s[0]] + rest[0]] + rest[1..]
  }

  /** `Array.prototype.join` with a one-character separator. */
  function Join(parts: seq<string>, d: char): string
    decreases |parts|
  {
    if parts == [] then ""
    else if |parts| == 1 then parts[0]
    else parts[0] + [d] + Join(parts[1..], d)
  }

  /** `values.filter((value) => value.length > 0)`. */
  function NonEmpty(values: seq<string>): (r: seq<string>)
    ensures forall i :: 0 <= i < |r| ==> r[i] != ""
    ensures forall v :: v in r <==> v in values && v != ""
  {
    if values == [] then []
    else if values[0] == "" then NonEmpty(values[1..])
    else [values[0]] + NonEmpty(values[1..])
  }

  /** `getEnv(key) ?? ""`: an unset variable reads as the empty string. */
  function Raw(env: Env, key: string): string {
    if key in env then env[key] else ""
  }

  /** `getEnvWithDelimitation`: split the stored string and drop the empty pieces. */
  function GetEnvWithDelimitation(env: Env, key: string, isWindows: bool): (values: seq<string>)
    ensures forall i :: 0 <= i < |values| ==> values[i] != "" && Delimiter(isWindows) !in values[i]
    ensures key !in env ==> values == []
  {
    var parts := Split(Raw(env, key), Delimiter(isWindows));
    var values := NonEmpty(parts);
    assert forall i :: 0 <= i < |values| ==> Delimiter(isWindows) !in values[i] by {
      forall i | 0 <= i < |values| ensures Delimiter(isWindows) !in values[i] {
        assert values[i] in parts;
      }
    }
    assert key !in env ==> values == [] by {
      if key !in env {
        assert Raw(env, key) == "";
        assert parts == [""];
        assert parts[1..] == [];
        assert NonEmpty(parts) == NonEmpty(parts[1..]);
      }
    }
    values
  }

  /** `setEnvWithDelimitation`: drop the empty values, join the rest and store them under
      `key`; every other variable is left as it was. */
  function SetEnvWithDelimitation(env: Env, key: string, values: seq<string>, isWindows: bool): (env': Env)
    ensures key in env' && env'[key] == Join(NonEmpty(values), Delimiter(isWindows))
    ensures env'.Keys == env.Keys + {key}
    ensures forall k :: k in env && k != key ==> env'[k] == env[k]
  {
    env[key := Join(NonEmpty(values), Delimiter(isWindows))]
  }

  /** A second write of the same variable replaces the first. */
  lemma SetTwice(env: Env, key: string, first: seq<string>, second: seq<string>, isWindows: bool)
    ensures SetEnvWithDelimitation(SetEnvWithDelimitation(env, key, first, isWindows), key, second, isWindows)
            == SetEnvWithDelimitation(env, key, second, isWindows)
  {
  }

  lemma {:induction false} NonEmptyOfNonEmpty(values: seq<string>)
    requires forall i :: 0 <= i < |values| ==> values[i] != ""
    ensures NonEmpty(values) == values
    decreases |values|
  {
    if values != [] {
      NonEmptyOfNonEmpty(values[1..]);
    }
  }

  /** The filter distributes over concatenation. */
  lemma {:induction false} NonEmptyAppend(a: seq<string>, b: seq<string>)
    ensures NonEmpty(a + b) == NonEmpty(a) + NonEmpty(b)
    decreases |a|
  {
    if a == [] {
      assert a + b == b;
    } else {
      assert (a + b)[0] == a[0] && (a + b)[1..] == a[1..] + b;
      NonEmptyAppend(a[1..], b);
    }
  }

  /** The filter keeps order and multiplicity: each value stays where it was, exactly
      when it is not empty. */
  lemma NonEmptyKeepsOrder(before: seq<string>, v: string, after: seq<string>)
    ensures NonEmpty(before + [v] + after) == NonEmpty(before) + (if v == "" then [] else [v]) + NonEmpty(after)
  {
    NonEmptyAppend(before + [v], after);
    NonEmptyAppend(before, [v]);
    assert [v][1..] == [];
  }

  lemma {:induction false} SplitWithoutDelimiter(p: string, d: char)
    requires d !in p
    ensures Split(p, d) == [p]
    decreases |p|
  {
    if p != [] {
      SplitWithoutDelimiter(p[1..], d);
      assert [p[0]] + p[1..] == p;
    }
  }

  lemma {:induction false} SplitAfterPiece(p: string, d: char, t: string)
    requires d !in p
    ensures Split(p + [d] + t, d) == [p] + Split(t, d)
    decreases |p|
  {
    var s := p + [d] + t;
    if p == [] {
      assert s[1..] == t;
    } else {
      assert s[1..] == p[1..] + [d] + t;
      SplitAfterPiece(p[1..], d, t);
      assert [p[0]] + p[1..] == p;
    }
  }

  /** Joining the pieces of a split gives back the original string. */
  lemma {:induction false} JoinSplit(s: string, d: char)
    ensures Join(Split(s, d), d) == s
    decreases |s|
  {
    if s != [] {
      JoinSplit(s[1..], d);
      var rest := Split(s[1..], d);
      if s[0] != d && |rest| > 1 {
        assert rest == [rest[0]] + rest[1..];
      }
      assert s == [s[0]] + s[1..];
    }
  }

  /** Splitting a join gives back the parts, when there is at least one and none holds
      the delimiter. */
  lemma {:induction false} SplitJoin(parts: seq<string>, d: char)
    requires |parts| >= 1
    requires forall i :: 0 <= i < |parts| ==> d !in parts[i]
    ensures Split(Join(parts, d), d) == parts
    decreases |parts|
  {
    if |parts| == 1 {
      SplitWithoutDelimiter(parts[0], d);
    } else {
      SplitJoin(parts[1..], d);
      SplitAfterPiece(parts[0], d, Join(parts[1..], d));
      assert parts == [parts[0]] + parts[1..];
    }
  }

  /** Round trip: after a write, a read gives back the non-empty values written, provided
      none of them holds the delimiter. */
  lemma RoundTrip(env: Env, key: string, values: seq<string>, isWindows: bool)
    requires forall i :: 0 <= i < |values| ==> Delimiter(isWindows) !in values[i]
    ensures GetEnvWithDelimitation(SetEnvWithDelimitation(env, key, values, isWindows), key, isWindows)
            == NonEmpty(values)
  {
    var d := Delimiter(isWindows);
    var kept := NonEmpty(values);
    var env' := SetEnvWithDelimitation(env, key, values, isWindows);
    assert Raw(env', key) == Join(kept, d);
    if kept == [] {
      assert Split("", d) == [""];
      assert [""][1..] == [];
    } else {
      forall i | 0 <= i < |kept| ensures d !in kept[i] {
        assert kept[i] in values;
      }
      SplitJoin(kept, d);
      NonEmptyOfNonEmpty(kept);
    }
  }

  /** The stored string never has an empty piece when none of the values holds the
      delimiter: it is empty, or every piece of it is a value that was written. */
  lemma StoredHasNoEmptyPieces(env: Env, key: string, values: seq<string>, isWindows: bool)
    requires forall i :: 0 <= i < |values| ==> Delimiter(isWindows) !in values[i]
    ensures var stored := SetEnvWithDelimitation(env, key, values, isWindows)[key];
            stored == "" || (forall p :: p in Split(stored, Delimiter(isWindows)) ==> p != "" && p in values)
  {
    var d := Delimiter(isWindows);
    var kept := NonEmpty(values);
    if kept != [] {
      forall i | 0 <= i < |kept| ensures d !in kept[i] {
        assert kept[i] in values;
      }
      SplitJoin(kept, d);
    }
  }

  /** Normalising a variable is idempotent: writing back what was read and reading again
      gives the same values as the first read. */
  lemma Normalisation(env: Env, key: string, isWindows: bool)
    ensures var values := GetEnvWithDelimitation(env, key, isWindows);
            GetEnvWithDelimitation(SetEnvWithDelimitation(env, key, values, isWindows), key, isWindows) == values
  {
    var values := GetEnvWithDelimitation(env, key, isWindows);
    RoundTrip(env, key, values, isWindows);
    NonEmptyOfNonEmpty(values);
  }
}
