/** The best bet of the kernel heap (src/obj_heap.c): where the walk over the majors begins, and which
    major it and a freeing leave as the bet. */
module BestBet {
  import opened ObjHeap
  import opened ObjMajors

  ghost predicate NoRoom(ms: seq<Major>, lo: nat, hi: nat, need: nat) {
    forall i | lo <= i < hi && i < |ms| :: !HasRoom(ms[i], need)
  }

  function Unused(m: Major): int { m.size - m.usage }

  /** The first place of an address in the list, or its length. */
  function Place(ms: seq<Major>, a: nat): (i: nat)
    ensures i <= |ms| && (i < |ms| ==> ms[i].addr == a)
    ensures forall j | 0 <= j < i :: ms[j].addr != a
  {
    if ms == [] || ms[0].addr == a then 0 else 1 + Place(ms[1..], a)
  }

  lemma PlaceIs(ms: seq<Major>, a: nat, i: nat)
    requires i < |ms| && ms[i].addr == a && forall j | 0 <= j < i :: ms[j].addr != a
    ensures Place(ms, a) == i
  {
  }

  lemma PlaceListed(ms: seq<Major>, a: nat)
    ensures Place(ms, a) < |ms| <==> Listed(ms, a)
  {
  }

  /** `l_bestBet`, and `bestSize` beside it. */
  datatype Bet = Bet(addr: nat, unused: int)

  /** A major with more unused bytes becomes the bet. */
  function Glance(b: Bet, m: Major): Bet { if b.unused < Unused(m) then Bet(m.addr, Unused(m)) else b }

  function Glances(ms: seq<Major>, lo: nat, hi: nat, b: Bet): Bet
    requires lo <= hi <= |ms|
    decreases hi - lo
  {
    if lo == hi then b else Glance(Glances(ms, lo, hi - 1, b), ms[hi - 1])
  }

  /** After a walk the bet is the first of the majors with the most unused bytes, or still the old one. */
  lemma {:induction false} GlancesMost(ms: seq<Major>, lo: nat, hi: nat, b: Bet)
    requires lo <= hi <= |ms|
    ensures var r := Glances(ms, lo, hi, b);
            && b.unused <= r.unused && (forall k | lo <= k < hi :: Unused(ms[k]) <= r.unused)
            && (r == b || exists k :: && lo <= k < hi && r == Bet(ms[k].addr, Unused(ms[k])) && b.unused < r.unused
                                      && forall j | lo <= j < k :: Unused(ms[j]) < r.unused)
    decreases hi - lo
  {
    if lo < hi { GlancesMost(ms, lo, hi - 1, b); }
  }

  /** The bet at the start, with what it has unused. */
  function First(ms: seq<Major>, bet: nat): Bet {
    Bet(bet, if bet != 0 && Place(ms, bet) < |ms| then Unused(ms[Place(ms, bet)]) else 0)
  }

  /** The bet promises more than is needed. */
  predicate Hinted(ms: seq<Major>, bet: nat, need: nat) {
    bet != 0 && Place(ms, bet) < |ms| && Unused(ms[Place(ms, bet)]) > need
  }

  /** Where the walk that serves begins: at the bet if that promises enough and some major from it on has
      room, otherwise at the root. */
  ghost function From(ms: seq<Major>, bet: nat, need: nat): (i: nat)
    ensures i <= |ms|
  {
    var j := Place(ms, bet);
    if Hinted(ms, bet, need) && !NoRoom(ms, j, |ms|, need) then j else 0
  }

  /** The bet at the start of that walk: a walk from the bet to the end may have come before. */
  ghost function Begun(ms: seq<Major>, bet: nat, need: nat): Bet {
    var j := Place(ms, bet);
    if Hinted(ms, bet, need) && NoRoom(ms, j, |ms|, need) then Glances(ms, j, |ms|, First(ms, bet)) else First(ms, bet)
  }

  /** The bet once the majors before `to` have been looked at; `base` has the new major at the end, if any. */
  ghost function BetAfter(ms: seq<Major>, base: seq<Major>, bet: nat, need: nat, to: nat): nat
    requires ms <= base && From(ms, bet, need) <= to <= |base|
  {
    Glances(base, From(ms, bet, need), to, Begun(ms, bet, need)).addr
  }

  /** Freeing in a major that stays: it becomes the bet if it now has more unused bytes, in `int`, than the bet. */
  function BetFreed(ms: seq<Major>, bet: nat, m: Major): nat {
    if bet != 0 && Place(ms, bet) < |ms| && AsInt(Unused(m)) > AsInt(Unused(ms[Place(ms, bet)])) then m.addr else bet
  }

  function AsInt(x: int): int { if x >= 0x8000_0000 then x - UINT_LIMIT else x }

  /* ---------------- the walk ---------------- */

  /** The walk has come to major i: all it has passed since its start have no room. */
  ghost predicate Walks(ms: seq<Major>, bet: nat, need: nat, started: bool, i: nat, now: Bet) {
    var j := Place(ms, bet);
    && i <= |ms|
    && if started then Hinted(ms, bet, need) && j <= i && NoRoom(ms, j, i, need) && now == Glances(ms, j, i, First(ms, bet))
       else && (Hinted(ms, bet, need) ==> NoRoom(ms, j, |ms|, need))
            && NoRoom(ms, 0, i, need) && now == Glances(ms, 0, i, Begun(ms, bet, need))
  }

  lemma WalkBegins(ms: seq<Major>, bet: nat, need: nat)
    ensures Hinted(ms, bet, need) ==> Walks(ms, bet, need, true, Place(ms, bet), First(ms, bet))
    ensures !Hinted(ms, bet, need) ==> Walks(ms, bet, need, false, 0, First(ms, bet))
  {
  }

  lemma WalkOn(ms: seq<Major>, bet: nat, need: nat, started: bool, i: nat, now: Bet)
    requires Walks(ms, bet, need, started, i, now) && i < |ms| && !HasRoom(ms[i], need)
    ensures Walks(ms, bet, need, started, i + 1, Glance(now, ms[i]))
  {
    hide HasRoom, Place, First, Begun, Hinted, Glance;
  }

  lemma WalkRestarts(ms: seq<Major>, bet: nat, need: nat, now: Bet)
    requires Walks(ms, bet, need, true, |ms|, now)
    ensures Walks(ms, bet, need, false, 0, now)
  {
    hide HasRoom, Place, First, Hinted, Glance;
  }

  lemma WalkServes(ms: seq<Major>, bet: nat, need: nat, started: bool, i: nat, now: Bet)
    requires Walks(ms, bet, need, started, i, now) && i < |ms| && HasRoom(ms[i], need)
    ensures From(ms, bet, need) <= i && NoRoom(ms, From(ms, bet, need), i, need)
    ensures Glance(now, ms[i]).addr == BetAfter(ms, ms, bet, need, i + 1)
  {
    hide HasRoom, Place, First, Glance;
  }

  /** Having come to the end, the walk goes on to a new major, or gives up. */
  lemma WalkEnds(ms: seq<Major>, base: seq<Major>, bet: nat, need: nat, now: Bet)
    requires Walks(ms, bet, need, false, |ms|, now) && ms <= base
    ensures NoRoom(ms, 0, |ms|, need) && From(ms, bet, need) == 0
    ensures now.addr == BetAfter(ms, base, bet, need, |ms|)
    ensures |base| > |ms| ==> Glance(now, base[|ms|]).addr == BetAfter(ms, base, bet, need, |ms| + 1)
  {
    hide HasRoom, Place, First, Glance;
    GlancesSame(ms, base, |ms|, Begun(ms, bet, need));
  }

  lemma {:induction false} GlancesSame(ms: seq<Major>, base: seq<Major>, hi: nat, b: Bet)
    requires ms <= base && hi <= |ms|
    ensures Glances(base, 0, hi, b) == Glances(ms, 0, hi, b)
  {
    if hi > 0 { GlancesSame(ms, base, hi - 1, b); }
  }
}
