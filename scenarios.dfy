// Worked cases of the per-order decision on a two-player team: Ann in
// roster row 0 wearing 3, Bob in roster row 1 wearing 7. Names are left
// abstract (only their load-time keys matter), so the cases hold for any
// spelling of the two players.

module Scenarios {
  import opened Wrappers
  import opened Text
  import opened Tables
  import opened Resolver
  import opened Audit

  /** A random source that always draws position `k` of the pool when the pool is long enough. */
  function Fixed(k: nat): (pick: (nat, nat) -> nat)
    ensures ValidChooser(pick)
    ensures forall row: nat, n: nat :: k < n ==> pick(row, n) == k
  {
    (row: nat, n: nat) => if k < n then k else 0
  }

  /** The two-player team, as loaded. */
  predicate Team(roster: seq<RosterRow>, idx: RosterIndex) {
    |roster| == 2 && |idx| == 2 && roster[0].team == roster[1].team &&
    idx[0].number == Some(3) && idx[1].number == Some(7)
  }

  /** What Ann's teammates hold and what Bob's teammates hold. */
  lemma {:induction false} TeamTaken(roster: seq<RosterRow>, idx: RosterIndex)
    requires Team(roster, idx)
    ensures Taken(roster, idx, 0) == {7}
    ensures Taken(roster, idx, 1) == {3}
  {
    forall m | true
      ensures m in Taken(roster, idx, 0) <==> m == 7
      ensures m in Taken(roster, idx, 1) <==> m == 3
    {
      TakenMember(roster, idx, 0, m);
      TakenMember(roster, idx, 1, m);
    }
  }

  /** Where none of j..k-1 is taken, the pool from j opens with j..k-1 in order. */
  lemma {:induction false} PoolOpens(taken: set<nat>, j: nat, k: nat)
    requires 1 <= j <= k <= PoolSize + 1
    requires forall m :: j <= m < k ==> m !in taken
    ensures |AvailableFrom(taken, j)| >= k - j
    ensures forall a :: 0 <= a < k - j ==> AvailableFrom(taken, j)[a] == j + a
    decreases k - j
  {
    if j < k {
      PoolOpens(taken, j + 1, k);
      var rest := AvailableFrom(taken, j + 1);
      assert j !in taken;
      assert AvailableFrom(taken, j) == [j] + rest;
    }
  }

  /** The first five numbers of the pool when only 7 is taken. */
  lemma {:induction false} PoolWithoutSeven(taken: set<nat>)
    requires taken == {7}
    ensures |Available(taken)| > 4
    ensures forall a :: 0 <= a < 5 ==> Available(taken)[a] == a + 1
  {
    PoolOpens(taken, 1, 6);
  }

  /**
   * Ann orders 7, which Bob wears: the order is CHANGED, the reason names
   * 7 and the team, and whatever the draw she gets a number of 1..100
   * other than 7.
   */
  lemma {:induction false} ConflictChanged(roster: seq<RosterRow>, idx: RosterIndex, ann: Order,
                                           pick: (nat, nat) -> nat, row: nat)
    requires Team(roster, idx) && ValidChooser(pick)
    requires Matches(idx[0], Lower(ann.first), Lower(ann.last)) && ann.ordered == Some(7)
    ensures var d := Decide(ann, roster, idx, pick, row);
            d.status == Changed && d.player == Some(0) && d.reason == ConflictReason(7, roster[0].team) &&
            d.final.Number? && 1 <= d.final.n <= PoolSize && d.final.n != 7
  {
    TeamTaken(roster, idx);
    ChangedFinal(ann, roster, idx, pick, row);
  }

  /**
   * Her own row is left out of the taken numbers, so the draw may hand Ann
   * back the 3 she already wears.
   */
  lemma {:induction false} ConflictMayReturnOwn(roster: seq<RosterRow>, idx: RosterIndex, ann: Order, row: nat)
    requires Team(roster, idx)
    requires Matches(idx[0], Lower(ann.first), Lower(ann.last)) && ann.ordered == Some(7)
    ensures Decide(ann, roster, idx, Fixed(2), row).final == Number(3)
  {
    TeamTaken(roster, idx);
    PoolWithoutSeven(Taken(roster, idx, 0));
  }

  /** Bob orders the 7 he already wears: nobody else holds it, so it is KEPT. */
  lemma {:induction false} OwnNumberKept(roster: seq<RosterRow>, idx: RosterIndex, bob: Order,
                                         pick: (nat, nat) -> nat, row: nat)
    requires Team(roster, idx) && ValidChooser(pick)
    requires !Matches(idx[0], Lower(bob.first), Lower(bob.last))
    requires Matches(idx[1], Lower(bob.first), Lower(bob.last)) && bob.ordered == Some(7)
    ensures var d := Decide(bob, roster, idx, pick, row);
            d.status == Kept && d.player == Some(1) && d.final == Number(7) && d.reason == AvailableReason
  {
    TeamTaken(roster, idx);
  }

  /** With the draw at position 4, Ann's order for 7 is changed to 5. */
  lemma {:induction false} ConflictDrawsFive(roster: seq<RosterRow>, idx: RosterIndex, ann: Order, row: nat)
    requires Team(roster, idx)
    requires Matches(idx[0], Lower(ann.first), Lower(ann.last)) && ann.ordered == Some(7)
    ensures var d := Decide(ann, roster, idx, Fixed(4), row);
            d.status == Changed && d.final == Number(5)
  {
    TeamTaken(roster, idx);
    PoolWithoutSeven(Taken(roster, idx, 0));
  }

  /** Bob's order for 5 is judged against the load-time numbers, where only Ann's 3 is taken. */
  lemma {:induction false} FiveKept(roster: seq<RosterRow>, idx: RosterIndex, bob: Order,
                                    pick: (nat, nat) -> nat, row: nat)
    requires Team(roster, idx) && ValidChooser(pick)
    requires !Matches(idx[0], Lower(bob.first), Lower(bob.last))
    requires Matches(idx[1], Lower(bob.first), Lower(bob.last)) && bob.ordered == Some(5)
    ensures var d := Decide(bob, roster, idx, pick, row);
            d.status == Kept && d.player == Some(1) && d.final == Number(5)
  {
    TeamTaken(roster, idx);
  }

  /**
   * Ann's order for 7 draws 5; Bob's later order for 5 is KEPT, because
   * every decision reads the load-time numbers. Both players end up with 5,
   * yet their jersey texts differ ("CHANGED: 5" and "5"), so the duplicate
   * audit of the two rewritten rows, which compares the texts, reports
   * nothing.
   */
  lemma {:induction false} SnapshotHidesDuplicate(roster: seq<RosterRow>, idx: RosterIndex, ann: Order, bob: Order,
                                                  row0: nat, row1: nat)
    requires Team(roster, idx)
    requires Matches(idx[0], Lower(ann.first), Lower(ann.last)) && ann.ordered == Some(7)
    requires !Matches(idx[0], Lower(bob.first), Lower(bob.last))
    requires Matches(idx[1], Lower(bob.first), Lower(bob.last)) && bob.ordered == Some(5)
    ensures var d0 := Decide(ann, roster, idx, Fixed(4), row0);
            var d1 := Decide(bob, roster, idx, Fixed(4), row1);
            d0.final == d1.final == Number(5) &&
            AuditLog([roster[0].(jersey := DisplayOf(d0)), roster[1].(jersey := DisplayOf(d1))]) == []
  {
    ConflictDrawsFive(roster, idx, ann, row0);
    FiveKept(roster, idx, bob, Fixed(4), row1);
    var d0 := Decide(ann, roster, idx, Fixed(4), row0);
    var d1 := Decide(bob, roster, idx, Fixed(4), row1);
    ChangedTextNotDuplicate(roster[0].(jersey := DisplayOf(d0)), roster[1].(jersey := DisplayOf(d1)), 5);
  }
}
