/** The few std::string / std::string_view operations the parser relies on. */
module StringViews {

  /** `s.starts_with(prefix)` */
  predicate StartsWith(s: string, prefix: string) {
    |prefix| <= |s| && s[..|prefix|] == prefix
  }

  /**
   * `s.find(c, from)`: the index of the first `c` at or after `from`, or
   * `|s|` where std::string::find returns npos.
   */
  function Find(s: string, c: char, from: nat): (p: nat)
    requires from <= |s|
    ensures from <= p <= |s|
    ensures forall j :: from <= j < p ==> s[j] != c
    ensures p < |s| ==> s[p] == c
    decreases |s| - from
  {
    if from == |s| || s[from] == c then from else Find(s, c, from + 1)
  }

  /** `Find` is pinned down by its contract: no `c` before `p`, and `c` (or the end) at `p`. */
  lemma {:induction false} FindIs(s: string, c: char, from: nat, p: nat)
    requires from <= p <= |s|
    requires forall j :: from <= j < p ==> s[j] != c
    requires p < |s| ==> s[p] == c
    ensures Find(s, c, from) == p
    decreases p - from
  {
    if from < p {
      FindIs(s, c, from + 1, p);
    }
  }

  /** `std::count(s.begin() + from, s.end(), c)` */
  function CountFrom(s: string, c: char, from: nat): nat
    requires from <= |s|
    decreases |s| - from
  {
    if from == |s| then 0 else (if s[from] == c then 1 else 0) + CountFrom(s, c, from + 1)
  }

  /** Characters other than `c` do not change the count. */
  lemma {:induction false} CountFromSkip(s: string, c: char, from: nat, p: nat)
    requires from <= p <= |s|
    requires forall j :: from <= j < p ==> s[j] != c
    ensures CountFrom(s, c, from) == CountFrom(s, c, p)
    decreases p - from
  {
    if from < p {
      CountFromSkip(s, c, from + 1, p);
    }
  }

  /**
   * `s.remove_prefix(s.find_first_not_of('-'))`: drop every leading dash.
   * For a token made only of dashes find_first_not_of returns npos and the
   * source's remove_prefix has undefined behaviour; this model gives "".
   */
  function StripDashes(s: string): (r: string)
    ensures |r| <= |s| && r == s[|s| - |r|..]
    ensures r == [] || r[0] != '-'
    ensures forall k :: 0 <= k < |s| - |r| ==> s[k] == '-'
  {
    if |s| > 0 && s[0] == '-' then StripDashes(s[1..]) else s
  }

  /** Stripping a run of dashes leaves what follows it, when that does not start with a dash. */
  lemma {:induction false} StripDashesPrefix(dashes: string, rest: string)
    requires forall k :: 0 <= k < |dashes| ==> dashes[k] == '-'
    requires rest == [] || rest[0] != '-'
    ensures StripDashes(dashes + rest) == rest
  {
    if dashes != [] {
      assert (dashes + rest)[1..] == dashes[1..] + rest;
      StripDashesPrefix(dashes[1..], rest);
    }
  }

  /** Stripping stops at the first non-dash. */
  lemma {:induction false} StripDashesStopsAt(s: string, k: nat)
    requires k < |s| && s[k] != '-'
    ensures |StripDashes(s)| >= |s| - k
  {
    if k > 0 && s[0] == '-' {
      StripDashesStopsAt(s[1..], k - 1);
    }
  }

  /** A string that differs from the prefix at some index within it does not start with it. */
  lemma NotStartsWith(s: string, prefix: string, k: nat)
    requires k < |prefix| && (k < |s| ==> s[k] != prefix[k])
    ensures !StartsWith(s, prefix)
  {
    if |prefix| <= |s| {
      assert s[..|prefix|][k] == s[k];
    }
  }
}
