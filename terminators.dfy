/**
 * The five optional terminators `r1..r5` of `waitResponse` and the order in which they
 * are tried against the text accumulated so far.
 */
module Terminators {
  import opened Wrappers
  import opened Arduino

  /** `r1..r5`; `None` is a NULL terminator, which never matches. */
  type Terms = t: seq<Option<string>> | |t| == 5 witness [None, None, None, None, None]

  function Expect(r1: Option<string>, r2: Option<string>, r3: Option<string>,
                  r4: Option<string>, r5: Option<string>): (t: Terms)
    ensures t[0] == r1 && t[1] == r2 && t[2] == r3 && t[3] == r4 && t[4] == r5
  {
    [r1, r2, r3, r4, r5]
  }

  /** No terminator at all, as `waitResponse(10, NULL, NULL)` in `maintain` asks for. */
  const NONE: Terms := [None, None, None, None, None]

  predicate Matches(data: string, r: Option<string>) {
    r.Some? && EndsWith(data, r.value)
  }

  /** The 1-based index of the first terminator that `data` ends with, 0 if none:
      `if (r1 && data.endsWith(r1)) ... else if (r2 && ...) ...`. */
  function FirstMatch(data: string, terms: Terms): (k: nat)
    ensures k <= 5
    ensures k > 0 ==> Matches(data, terms[k - 1])
    ensures forall j :: 0 <= j < 5 && (k == 0 || j < k - 1) ==> !Matches(data, terms[j])
  {
    if Matches(data, terms[0]) then 1
    else if Matches(data, terms[1]) then 2
    else if Matches(data, terms[2]) then 3
    else if Matches(data, terms[3]) then 4
    else if Matches(data, terms[4]) then 5
    else 0
  }

  /** Without terminators nothing ever matches. */
  lemma NoneNeverMatches(data: string)
    ensures FirstMatch(data, NONE) == 0
  {
  }
}
