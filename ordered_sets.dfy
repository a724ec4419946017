/** JavaScript's `Set` keeps its elements in insertion order. Its contents are modelled
    as a sequence without repetitions; `add`, `delete` and `new Set(array)` become the
    functions below, and `Array.from(set.values())` is the sequence itself. */
module OrderedSets {

  predicate Distinct<T(==,!new)>(s: seq<T>) {
    forall i, j :: 0 <= i < j < |s| ==> s[i] != s[j]
  }

  /** `set.add(x)`: appended when absent, otherwise no change. */
  function Insert<T(==,!new)>(s: seq<T>, x: T): (r: seq<T>)
    ensures Distinct(s) ==> Distinct(r)
    ensures x in r && forall y :: y in r <==> y in s || y == x
  {
    if x in s then s else s + [x]
  }

  /** `new Set(array)`: the elements of `s` in the order of their first occurrence. */
  function FromSeq<T(==,!new)>(s: seq<T>): (r: seq<T>)
    ensures Distinct(r)
    ensures |r| <= |s|
    ensures forall y :: y in r <==> y in s
    decreases |s|
  {
    if s == [] then [] else Insert(FromSeq(s[..|s| - 1]), s[|s| - 1])
  }

  /** `set.delete(x)`: every other element stays, in its order, so the members are those
      of `s` but `x` and no repetition appears (by `Without` and WithoutDistinct). */
  function Remove<T(==,!new)>(s: seq<T>, x: T): (r: seq<T>)
    ensures r == Without(s, [x])
  {
    if s == [] then []
    else if s[0] == x then Remove(s[1..], x)
    else [s[0]] + Remove(s[1..], x)
  }

  /** The elements of `s` that are not in `xs`, in their order in `s`. */
  function Without<T(==,!new)>(s: seq<T>, xs: seq<T>): (r: seq<T>)
    ensures forall y :: y in r <==> y in s && y !in xs
  {
    if s == [] then []
    else if s[0] in xs then Without(s[1..], xs)
    else [s[0]] + Without(s[1..], xs)
  }

  /** `set.delete(x)` keeps a set free of repetitions, and its members are all but `x`. */
  lemma RemoveMembers<T(!new)>(s: seq<T>, x: T)
    ensures forall y :: y in Remove(s, x) <==> y in s && y != x
    ensures Distinct(s) ==> Distinct(Remove(s, x))
  {
    if Distinct(s) {
      WithoutDistinct(s, [x]);
    }
  }

  lemma FromSeqLast<T(!new)>(s: seq<T>, x: T)
    ensures FromSeq(s + [x]) == Insert(FromSeq(s), x)
  {
    assert (s + [x])[..|s + [x]| - 1] == s;
  }

  /** A sequence without repetitions is its own set. */
  lemma {:induction false} FromSeqOfDistinct<T(!new)>(s: seq<T>)
    requires Distinct(s)
    ensures FromSeq(s) == s
    decreases |s|
  {
    if s != [] {
      var init := s[..|s| - 1];
      assert s == init + [s[|s| - 1]];
      FromSeqOfDistinct(init);
      assert s[|s| - 1] !in init;
    }
  }

  lemma SplitLast<T>(p: seq<T>, b: seq<T>)
    requires |b| > 0
    ensures p + b == (p + b[..|b| - 1]) + [b[|b| - 1]]
  {
    assert b == b[..|b| - 1] + [b[|b| - 1]];
  }

  /** Building a set from a set followed by more values is building it from the
      original values followed by them. */
  lemma {:induction false} FromSeqAbsorbs<T(!new)>(a: seq<T>, b: seq<T>)
    ensures FromSeq(FromSeq(a) + b) == FromSeq(a + b)
    decreases |b|
  {
    var fa := FromSeq(a);
    if b == [] {
      assert fa + b == fa;
      assert a + b == a;
      FromSeqOfDistinct(fa);
    } else {
      var init, x := b[..|b| - 1], b[|b| - 1];
      FromSeqAbsorbs(a, init);
      var left, right := fa + init, a + init;
      SplitLast(fa, b);
      SplitLast(a, b);
      FromSeqLast(left, x);
      FromSeqLast(right, x);
    }
  }

  /** Earlier elements keep their place when more values are added. */
  lemma {:induction false} FromSeqPrefix<T(!new)>(a: seq<T>, b: seq<T>)
    ensures FromSeq(a) <= FromSeq(a + b)
    decreases |b|
  {
    if b == [] {
      assert a + b == a;
    } else {
      var init, x := b[..|b| - 1], b[|b| - 1];
      FromSeqPrefix(a, init);
      assert a + b == (a + init) + [x];
      FromSeqLast(a + init, x);
    }
  }

  /** Building a set from a sequence keeps its length exactly when the sequence has no
      repetitions. */
  lemma {:induction false} FromSeqKeepsLength<T(!new)>(s: seq<T>)
    ensures |FromSeq(s)| == |s| <==> Distinct(s)
    decreases |s|
  {
    if s != [] {
      var init, x := s[..|s| - 1], s[|s| - 1];
      assert s == init + [x];
      FromSeqKeepsLength(init);
      if Distinct(s) {
        assert Distinct(init);
        assert x !in init;
      } else if |FromSeq(s)| == |s| {
        assert |FromSeq(init)| == |init| && x !in FromSeq(init);
        assert Distinct(init);
        assert x !in init;
        assert Distinct(s) by {
          forall i, j | 0 <= i < j < |s| ensures s[i] != s[j] {
            if j == |s| - 1 { assert s[i] in init; }
            else { assert s[i] == init[i] && s[j] == init[j]; }
          }
        }
      }
    }
  }

  /** Deleting one more value is filtering by one more value. */
  lemma {:induction false} RemoveWithout<T(!new)>(s: seq<T>, xs: seq<T>, x: T)
    ensures Remove(Without(s, xs), x) == Without(s, xs + [x])
    decreases |s|
  {
    if s != [] {
      RemoveWithout(s[1..], xs, x);
    }
  }

  lemma {:induction false} WithoutNothing<T(!new)>(s: seq<T>)
    ensures Without(s, []) == s
    decreases |s|
  {
    if s != [] {
      WithoutNothing(s[1..]);
    }
  }

  /** Filtering keeps the relative order of what is kept, so it keeps a sequence free of
      repetitions. */
  lemma {:induction false} WithoutDistinct<T(!new)>(s: seq<T>, xs: seq<T>)
    requires Distinct(s)
    ensures Distinct(Without(s, xs))
    decreases |s|
  {
    if s != [] {
      assert Distinct(s[1..]) by {
        forall i, j | 0 <= i < j < |s[1..]| ensures s[1..][i] != s[1..][j] {
          assert s[1..][i] == s[i + 1] && s[1..][j] == s[j + 1];
        }
      }
      WithoutDistinct(s[1..], xs);
      if s[0] !in xs {
        var rest := Without(s[1..], xs);
        assert s[0] !in rest by {
          assert s[0] !in s[1..];
        }
        var r := [s[0]] + rest;
        forall i, j | 0 <= i < j < |r| ensures r[i] != r[j] {
          if i == 0 { assert r[j] in rest; }
          else { assert r[i] == rest[i - 1] && r[j] == rest[j - 1]; }
        }
      }
    }
  }

  lemma {:induction false} WithoutLast<T(!new)>(b: seq<T>, x: T, a: seq<T>)
    ensures Without(b + [x], a) == Without(b, a) + (if x in a then [] else [x])
    decreases |b|
  {
    if b == [] {
      assert [x][1..] == [];
    } else {
      assert (b + [x])[1..] == b[1..] + [x];
      WithoutLast(b[1..], x, a);
    }
  }

  lemma InsertAfter<T(!new)>(a: seq<T>, c: seq<T>, x: T)
    ensures Insert(a + c, x) == if x in a then a + c else a + Insert(c, x)
  {
  }

  /** Adding values to a set without repetitions appends, in order of first occurrence,
      the values it does not hold yet. */
  lemma {:induction false} FromSeqAppend<T(!new)>(a: seq<T>, b: seq<T>)
    requires Distinct(a)
    ensures FromSeq(a + b) == a + FromSeq(Without(b, a))
    decreases |b|
  {
    if b == [] {
      assert a + b == a;
      FromSeqOfDistinct(a);
    } else {
      var init, x := b[..|b| - 1], b[|b| - 1];
      assert b == init + [x];
      var w := Without(init, a);
      calc {
        FromSeq(a + b);
        { assert a + b == (a + init) + [x]; FromSeqLast(a + init, x); }
        Insert(FromSeq(a + init), x);
        { FromSeqAppend(a, init); }
        Insert(a + FromSeq(w), x);
      }
      WithoutLast(init, x, a);
      InsertAfter(a, FromSeq(w), x);
      if x !in a {
        FromSeqLast(w, x);
      } else {
        assert w + [] == w;
      }
    }
  }

  /** Nothing is left when every value is already present. */
  lemma WithoutCovered<T(!new)>(b: seq<T>, a: seq<T>)
    requires forall y :: y in b ==> y in a
    ensures Without(b, a) == []
  {
  }

  /** Some value of `values` is an element of `s`. */
  predicate AnyIn<T(==)>(values: seq<T>, s: seq<T>) {
    exists k :: 0 <= k < |values| && values[k] in s
  }

  /** One iteration of the deletion loop: deleting `values[i]` from what is left after
      the first `i` deletions, and whether that deletion found the value. */
  lemma DeleteStep<T(!new)>(list: seq<T>, values: seq<T>, i: nat)
    requires i < |values|
    ensures Remove(Without(list, values[..i]), values[i]) == Without(list, values[..i + 1])
    ensures (values[i] in Without(list, values[..i]) || AnyIn(values[..i], list)) <==> AnyIn(values[..i + 1], list)
  {
    RemoveWithout(list, values[..i], values[i]);
    assert values[..i + 1] == values[..i] + [values[i]];
    if values[i] in list && values[i] in values[..i] {
      var k :| 0 <= k < i && values[..i][k] == values[i];
      assert values[..i][k] in list;
    }
  }


  /** One iteration of the insertion loop: adding `added[i]` to the set built from the
      stored values and the first `i` added ones. */
  lemma InsertNext<T(!new)>(stored: seq<T>, added: seq<T>, i: nat)
    requires i < |added|
    ensures Insert(FromSeq(stored + added[..i]), added[i]) == FromSeq(stored + added[..i + 1])
  {
    assert stored + added[..i + 1] == (stored + added[..i]) + [added[i]];
    FromSeqLast(stored + added[..i], added[i]);
  }

  /** The loop `for (const value of added) target.add(value)` on a set that was built from
      `stored`: the result is the set built from `stored` followed by `added`. */
  method AddEach<T(==,!new)>(target: seq<T>, ghost stored: seq<T>, added: seq<T>) returns (t: seq<T>)
    requires target == FromSeq(stored)
    ensures t == FromSeq(stored + added)
  {
    t := target;
    assert stored + added[..0] == stored;
    var i := 0;
    while i < |added|
      invariant 0 <= i <= |added|
      invariant t == FromSeq(stored + added[..i])
    {
      InsertNext(stored, added, i);
      t := Insert(t, added[i]);
      i := i + 1;
    }
    assert added[..i] == added;
  }

  /** The loop `for (const value of values) isModified = target.delete(value) || isModified`:
      it deletes every value, and the flag ends up set when it was set before or some
      value was present. */
  method DeleteEach<T(==,!new)>(target: seq<T>, values: seq<T>, isModified: bool)
    returns (t: seq<T>, modified: bool)
    ensures t == Without(target, values)
    ensures modified == (isModified || AnyIn(values, target))
  {
    WithoutNothing(target);
    t, modified := target, isModified;
    var i := 0;
    while i < |values|
      invariant 0 <= i <= |values|
      invariant t == Without(target, values[..i])
      invariant modified == (isModified || AnyIn(values[..i], target))
    {
      var removed := values[i] in t;
      DeleteStep(target, values, i);
      t := Remove(t, values[i]);
      modified := removed || modified;
      i := i + 1;
    }
    assert values[..i] == values;
  }
}
