/** Lists without repetition. */
module Lists {

  predicate NoDup(r: seq<nat>) {
    forall i, j | 0 <= i < j < |r| :: r[i] != r[j]
  }

  /** The two differ at most at place k. */
  predicate OneChanged(r: seq<nat>, r': seq<nat>, k: nat) { |r'| == |r| && k < |r| && r' == r[k := r'[k]] }

  ghost function Elems(r: seq<nat>): set<nat> { set a | a in r }
}
