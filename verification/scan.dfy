/** Generic left-to-right and right-to-left searches over positions of a
    string. Every regular expression of the gateway is built from them. */
module Scan {
  import opened Wrappers

  /** The least position in [from, to) at which `hit` holds. */
  function FirstHit(from: nat, to: nat, hit: nat -> bool): (r: Option<nat>)
    ensures r.None? <==> forall i | from <= i < to :: !hit(i)
    ensures r.Some? ==> from <= r.value < to && hit(r.value)
    ensures r.Some? ==> (forall i | from <= i < r.value :: !hit(i))
    decreases if from <= to then to - from else 0
  {
    if from >= to then None
    else if hit(from) then Some(from)
    else FirstHit(from + 1, to, hit)
  }

  /** The greatest position in [from, to) at which `hit` holds. */
  function LastHit(from: nat, to: nat, hit: nat -> bool): (r: Option<nat>)
    ensures r.None? <==> forall i | from <= i < to :: !hit(i)
    ensures r.Some? ==> from <= r.value < to && hit(r.value)
    ensures r.Some? ==> (forall i | r.value < i < to :: !hit(i))
    decreases if from <= to then to - from else 0
  {
    if from >= to then None
    else if hit(to - 1) then Some(to - 1)
    else LastHit(from, to - 1, hit)
  }

  /** End (exclusive) of the longest run of characters satisfying `p` that
      starts at `k`: what a greedy `[...]*` consumes from `k`. */
  function RunEnd(s: string, k: nat, p: char -> bool): (e: nat)
    requires k <= |s|
    ensures k <= e <= |s|
    ensures forall j | k <= j < e :: p(s[j])
    ensures e == |s| || !p(s[e])
    decreases |s| - k
  {
    if k == |s| || !p(s[k]) then k else RunEnd(s, k + 1, p)
  }

  /** The result of the leftmost successful attempt among positions
      [0, n): how `String.prototype.match` without the `g` flag picks its
      match when `at(i)` is the attempt of the pattern at position i. */
  function FirstMatch<T>(n: nat, at: nat -> Option<T>): (r: Option<T>)
    ensures r.None? <==> forall i | 0 <= i < n :: at(i).None?
    ensures r.Some? ==> exists i | 0 <= i < n :: at(i) == r && (forall j | 0 <= j < i :: at(j).None?)
  {
    var hit := (i: nat) => at(i).Some?;
    var h := FirstHit(0, n, hit);
    if h.Some? then
      var i := h.value;
      assert forall j | 0 <= j < i :: !hit(j);
      assert forall j | 0 <= j < i :: at(j).None? by {
        forall j | 0 <= j < i ensures at(j).None? {
          assert !hit(j);
        }
      }
      at(i)
    else
      assert forall j | 0 <= j < n :: !hit(j);
      assert forall j | 0 <= j < n :: at(j).None? by {
        forall j | 0 <= j < n ensures at(j).None? {
          assert !hit(j);
        }
      }
      None
  }
}
