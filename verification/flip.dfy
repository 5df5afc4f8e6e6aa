/** Which rendered cards show their back: a map from list position to a flag,
    where a position never clicked reads as "not flipped". */
module Flip {

  type Flips = map<nat, bool>

  /** The flag at position `i`, with a missing key read as false. */
  function Flag(m: Flips, i: nat): bool {
    if i in m then m[i] else false
  }

  /** A copy of the flags with the one at position `i` negated. */
  function Toggle(m: Flips, i: nat): (r: Flips)
    ensures Flag(r, i) == !Flag(m, i)
    ensures forall j :: j != i ==> Flag(r, j) == Flag(m, j)
    ensures r.Keys == m.Keys + {i}
  {
    m[i := !Flag(m, i)]
  }

  /** Two clicks on the same card read back as no click at all. */
  lemma ToggleTwice(m: Flips, i: nat)
    ensures forall j :: Flag(Toggle(Toggle(m, i), i), j) == Flag(m, j)
    ensures i in m ==> Toggle(Toggle(m, i), i) == m
  {
  }
}
