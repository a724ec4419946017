/** Option and Result, used for JavaScript's `null`/`undefined` and for thrown errors. */
module Wrappers {

  datatype Option<+T> = None | Some(value: T)

  datatype Result<+R, +E> = Success(value: R) | Failure(error: E)

  /** The first element of `s` that fails `ok`, as `Array.prototype.forEach` with a
      throwing callback reports it; `None` when every element passes. */
  function FirstFailing<T>(s: seq<T>, ok: T -> bool): (r: Option<T>)
    ensures r.None? <==> forall i :: 0 <= i < |s| ==> ok(s[i])
    ensures r.Some? ==> exists i :: 0 <= i < |s| && s[i] == r.value && !ok(s[i]) &&
                                    forall k :: 0 <= k < i ==> ok(s[k])
  {
    if s == [] then None
    else if !ok(s[0]) then Some(s[0])
    else
      var rest := FirstFailing(s[1..], ok);
      assert rest.Some? ==> exists i :: 0 <= i < |s| && s[i] == rest.value && !ok(s[i]) &&
                                        forall k :: 0 <= k < i ==> ok(s[k]) by {
        if rest.Some? {
          var i :| 0 <= i < |s[1..]| && s[1..][i] == rest.value && !ok(s[1..][i]) &&
                   forall k :: 0 <= k < i ==> ok(s[1..][k]);
          assert s[i + 1] == rest.value;
          forall k | 0 <= k < i + 1 ensures ok(s[k]) {
            if k > 0 { assert s[k] == s[1..][k - 1]; }
          }
        }
      }
      assert rest.None? ==> forall i :: 0 <= i < |s| ==> ok(s[i]) by {
        if rest.None? {
          forall i | 0 <= i < |s| ensures ok(s[i]) {
            if i > 0 { assert s[i] == s[1..][i - 1]; }
          }
        }
      }
      rest
  }

  /** The outcome of a validated operation: the validation error if there is one,
      before anything else happens, and otherwise the operation's value. */
  function Checked<R, E>(invalid: Option<E>, value: R): Result<R, E> {
    if invalid.Some? then Failure(invalid.value) else Success(value)
  }
}
