/** The parts of the regular-expression engine the screener relies on:
    the leftmost scan of `re.search` / `re.findall`, a greedy character-class
    run, and the backtracking of a greedy quantifier from its longest
    extent downwards. */
module Search {

  datatype Option<T> = None | Some(value: T)

  /** The leftmost start in [from, limit] at which `hit` reports a match,
      paired with the end of that match. */
  function FirstHit(from: nat, limit: nat, hit: nat -> Option<nat>): (r: Option<(nat, nat)>)
    ensures r.Some? ==> from <= r.value.0 <= limit && hit(r.value.0) == Some(r.value.1)
    ensures r.Some? ==> forall i: nat :: from <= i < r.value.0 ==> hit(i).None?
    ensures r.None? ==> forall i: nat :: from <= i <= limit ==> hit(i).None?
    decreases limit + 1 - from
  {
    if from > limit then None
    else match hit(from)
      case Some(e) => Some((from, e))
      case None => FirstHit(from + 1, limit, hit)
  }

  /** The end of the longest run of `inClass` characters starting at i:
      what a greedy `[...]*` consumes before any backtracking. */
  function RunEnd(text: string, i: nat, inClass: char -> bool): (e: nat)
    requires i <= |text|
    ensures i <= e <= |text|
    ensures forall k :: i <= k < e ==> inClass(text[k])
    ensures e == |text| || !inClass(text[e])
    decreases |text| - i
  {
    if i < |text| && inClass(text[i]) then RunEnd(text, i + 1, inClass) else i
  }

  /** A greedy run reaches at least as far as any stretch of class
      characters from its start. */
  lemma RunEndCovers(text: string, i: nat, j: nat, inClass: char -> bool)
    requires i <= j <= |text|
    requires forall k :: i <= k < j ==> inClass(text[k])
    ensures RunEnd(text, i, inClass) >= j
  {
  }

  /** A greedy run stops exactly at the first character outside the class. */
  lemma RunEndStops(text: string, i: nat, j: nat, inClass: char -> bool)
    requires i <= j < |text| && !inClass(text[j])
    requires forall k :: i <= k < j ==> inClass(text[k])
    ensures RunEnd(text, i, inClass) == j
  {
    RunEndCovers(text, i, j, inClass);
  }

  /** The largest position in [lo, hi] accepted by `ok`: a greedy quantifier
      tries its longest extent first and backtracks one step at a time. */
  function LastHit(lo: nat, hi: int, ok: nat -> bool): (r: Option<nat>)
    ensures r.Some? ==> lo <= r.value <= hi && ok(r.value)
    ensures r.Some? ==> forall i: nat :: r.value < i <= hi ==> !ok(i)
    ensures r.None? ==> forall i: nat :: lo <= i <= hi ==> !ok(i)
    decreases hi + 1 - lo
  {
    if hi < lo then None
    else if ok(hi) then Some(hi)
    else LastHit(lo, hi - 1, ok)
  }
}
