/** Shared vocabulary: optional values, the exceptions the server raises,
    and the few string helpers both the proxy and the data model use. */
module Base {

  datatype Option<+T> = None | Some(value: T)

  /** The failures the modelled code can end in.
      - HttpError: the proxy's `Error`, carrying an HTTP status code.
      - ValueError: a rejected argument in the data model.
      - AuthorizationError: a permission check that refused the current user.
      - TypeFault: an uncaught Python TypeError or AttributeError, raised when
        JSON of an unexpected shape reaches code that assumes a dictionary. */
  datatype Error = HttpError(status: int) | ValueError | AuthorizationError | TypeFault

  datatype Result<+T> = Ok(value: T) | Err(error: Error)

  const BAD_REQUEST: int := 400
  const FORBIDDEN: int := 403

  /** Python's `prefix in s` for a single character. */
  predicate HasChar(s: string, c: char)
  {
    exists i :: 0 <= i < |s| && s[i] == c
  }

  /** Python's `s.startswith(p)`. */
  predicate StartsWith(s: string, p: string)
  {
    |p| <= |s| && s[..|p|] == p
  }

  /** A user ID. */
  type Uid = string

  /** A datastore timestamp, in seconds; NEVER (the Unix epoch) marks a
      deleted or blocked time that is not set. */
  type Time = int
  const NEVER: Time := 0

  /** A reading of `datetime.utcnow()`, which is never the sentinel. */
  type Instant = t: Time | t != NEVER witness 1

  /** Index of the first `c` in `s`, or |s| when there is none. */
  function FirstIndex(s: string, c: char): (n: nat)
    ensures n <= |s|
    ensures forall i :: 0 <= i < n ==> s[i] != c
    ensures n < |s| ==> s[n] == c
    decreases |s|
  {
    if |s| == 0 || s[0] == c then 0 else 1 + FirstIndex(s[1..], c)
  }

  /** The first `c` is the one at `n` when none comes before it. */
  lemma {:induction false} FirstIndexAt(s: string, c: char, n: nat)
    requires n < |s| && s[n] == c
    requires forall i :: 0 <= i < n ==> s[i] != c
    ensures FirstIndex(s, c) == n
    decreases n
  {
    if n > 0 {
      FirstIndexAt(s[1..], c, n - 1);
    }
  }

  /** Joining with a separator the first part does not contain can be
      undone: equal joins have equal parts. */
  lemma JoinInjective(a1: string, b1: string, a2: string, b2: string, sep: char)
    requires !HasChar(a1, sep) && !HasChar(a2, sep)
    requires a1 + [sep] + b1 == a2 + [sep] + b2
    ensures a1 == a2 && b1 == b2
  {
    var k := a1 + [sep] + b1;
    FirstIndexAt(k, sep, |a1|);
    FirstIndexAt(k, sep, |a2|);
    assert a1 == k[..|a1|] && a2 == k[..|a2|];
    assert b1 == k[|a1| + 1..] && b2 == k[|a2| + 1..];
  }
}
