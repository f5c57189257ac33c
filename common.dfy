/** Small building blocks shared by every part of the staffing model:
    optional values, HTTP-style outcomes, JavaScript truthiness of string
    fields, the string operations the source uses and `Math.round`-based
    rounding to two decimals. */
module Common {

  datatype Option<T> = None | Some(value: T)

  /** Outcome of a service call that may throw: the thrown Error's message
      is kept, since the API routes forward or inspect it. */
  datatype Result<T> = Ok(value: T) | Err(message: string)

  /** A request body after `request.json()`: either the parsed fields or the
      message of the parse error that `request.json()` throws. */
  datatype Body<T> = Parsed(fields: T) | Malformed(reason: string)

  /** What an API route answers: status 200 with a payload, or an error
      status with the `error` text of the JSON body. */
  datatype Response<T> = Success(payload: T) | Failure(status: nat, error: string)
  {
    function Status(): nat {
      if Success? then 200 else status
    }
  }

  /** JavaScript truthiness of an optional string field: a missing, null or
      empty string is falsy. */
  predicate Present(s: Option<string>) {
    s.Some? && s.value != ""
  }

  /** `a || b` on string fields: the first operand when it is truthy. */
  function OrElse(s: Option<string>, fallback: string): (r: string)
    ensures Present(s) ==> r == s.value
    ensures !Present(s) ==> r == fallback
  {
    if Present(s) then s.value else fallback
  }

  /** `r` is `s` with some elements left out and the others kept in
      their order: the last element of `r` is either matched with the last
      of `s` or `s`'s last element is skipped. */
  ghost predicate IsSubsequence<T>(r: seq<T>, s: seq<T>)
    decreases |s|
  {
    || r == []
    || (&& s != []
        && ((r[|r| - 1] == s[|s| - 1] && IsSubsequence(r[..|r| - 1], s[..|s| - 1]))
            || IsSubsequence(r, s[..|s| - 1])))
  }

  /** One step of a filter by `p` over a non-empty `s`: `rest` is the
      filter of all but the last element, and the last element is kept
      exactly when `p` holds of it. The result is a subsequence of `s`
      holding exactly the elements of `s` satisfying `p`, each as often
      as in `s`. */
  lemma FilterStep<T>(s: seq<T>, rest: seq<T>, p: T -> bool)
    requires s != []
    requires IsSubsequence(rest, s[..|s| - 1]) && |rest| <= |s| - 1
    requires forall t :: multiset(rest)[t] == if p(t) then multiset(s[..|s| - 1])[t] else 0
    ensures var r := if p(s[|s| - 1]) then rest + [s[|s| - 1]] else rest;
      && IsSubsequence(r, s) && |r| <= |s|
      && (forall t :: multiset(r)[t] == if p(t) then multiset(s)[t] else 0)
      && (forall t :: t in r <==> t in s && p(t))
  {
    var x := s[|s| - 1];
    var r := if p(x) then rest + [x] else rest;
    assert s == s[..|s| - 1] + [x];
    assert multiset(s) == multiset(s[..|s| - 1]) + multiset{x};
    if p(x) {
      assert (rest + [x])[..|rest|] == rest;
    }
    forall t ensures t in r <==> t in s && p(t) {
      assert t in r <==> multiset(r)[t] > 0;
      assert t in s <==> multiset(s)[t] > 0;
    }
  }

  /** `pat` occurs in `s` starting at index `i`. */
  predicate OccursAt(s: string, pat: string, i: nat) {
    i + |pat| <= |s| && s[i..i + |pat|] == pat
  }

  function IndexFrom(s: string, pat: string, i: nat): (r: Option<nat>)
    requires i <= |s|
    ensures r.Some? ==> i <= r.value <= |s| && OccursAt(s, pat, r.value)
    ensures r.Some? ==> forall j :: i <= j < r.value ==> !OccursAt(s, pat, j)
    ensures r.None? ==> forall j :: i <= j <= |s| ==> !OccursAt(s, pat, j)
    decreases |s| - i
  {
    if OccursAt(s, pat, i) then Some(i)
    else if i == |s| then None
    else IndexFrom(s, pat, i + 1)
  }

  /** `s.indexOf(pat)`: the first index at which `pat` occurs. */
  function IndexOf(s: string, pat: string): (r: Option<nat>)
    ensures r.Some? ==> r.value <= |s| && OccursAt(s, pat, r.value)
    ensures r.Some? ==> forall j :: 0 <= j < r.value ==> !OccursAt(s, pat, j)
    ensures r.None? ==> forall j :: 0 <= j <= |s| ==> !OccursAt(s, pat, j)
  {
    IndexFrom(s, pat, 0)
  }

  /** `s.includes(pat)`. */
  predicate Contains(s: string, pat: string) {
    IndexOf(s, pat).Some?
  }

  /** `s.replace(pat, rep)` with a string pattern: only the first
      occurrence is replaced. */
  function ReplaceFirst(s: string, pat: string, rep: string): (r: string)
    ensures !Contains(s, pat) ==> r == s
    ensures Contains(s, pat) ==>
      var k := IndexOf(s, pat).value; r == s[..k] + rep + s[k + |pat|..]
  {
    match IndexOf(s, pat)
    case None => s
    case Some(k) => s[..k] + rep + s[k + |pat|..]
  }

  /** `Math.round(x * 100) / 100` on exact reals. `Math.round` rounds a half
      upwards, that is, it is floor(y + 1/2). */
  function Round2(x: real): (r: real)
    ensures x - 0.005 < r <= x + 0.005
    ensures x >= 0.0 ==> r >= 0.0
  {
    ((x * 100.0 + 0.5).Floor as real) / 100.0
  }

  const MillisPerHour: int := 1000 * 60 * 60

  /** `(to - from) / (1000 * 60 * 60)`: a duration in milliseconds as hours. */
  function HoursBetween(from: int, to: int): (r: real)
    ensures r >= 0.0 <==> from <= to
    ensures r > 0.0 <==> from < to
  {
    (to - from) as real / MillisPerHour as real
  }
}
