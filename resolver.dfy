// The per-order decision of jersey_manager.py's process_files: the roster
// columns computed once at load time, the player lookup, the team's taken
// numbers, and the ERROR / SKIPPED / KEPT / CHANGED rule with the draw from
// the free pool.

module Resolver {
  import opened Wrappers
  import opened Text
  import opened Parsers
  import opened Tables

  // ---------------------------------------------------------------------
  // The columns added to the roster before the loop (Match_First,
  // Match_Last, Jersey_Clean). They are computed once and never refreshed.
  // ---------------------------------------------------------------------

  /** A roster name as compared: stripped, then lower-cased. */
  function MatchKey(s: string): string {
    Lower(Strip(s))
  }

  /**
   * pd.to_numeric(jersey, errors='coerce') followed by astype(int), for
   * text: a decimal digit string gives its value, anything else is absent.
   */
  function ParseJersey(s: string): (r: Option<nat>)
    ensures r.Some? <==> s != [] && AllDigits(s)
    ensures r.Some? ==> r.value == DigitsValue(s)
  {
    if s != [] && AllDigits(s) then Some(DigitsValue(s)) else None
  }

  datatype IndexEntry = IndexEntry(first: string, last: string, number: Option<nat>)

  /** One entry per roster row, in row order. */
  type RosterIndex = seq<IndexEntry>

  function IndexOf(r: RosterRow): IndexEntry {
    IndexEntry(MatchKey(r.first), MatchKey(r.last), ParseJersey(r.jersey))
  }

  /** The load-time columns of the whole roster. */
  function BuildIndex(roster: seq<RosterRow>): (idx: RosterIndex)
    ensures |idx| == |roster|
    ensures forall j :: 0 <= j < |roster| ==> idx[j] == IndexOf(roster[j])
  {
    seq(|roster|, j requires 0 <= j < |roster| => IndexOf(roster[j]))
  }

  predicate Matches(e: IndexEntry, first: string, last: string) {
    e.first == first && e.last == last
  }

  /** The first index at or after `i` whose keys match. */
  function FindFrom(idx: RosterIndex, first: string, last: string, i: nat): (r: Option<nat>)
    requires i <= |idx|
    ensures r.None? <==> forall j :: i <= j < |idx| ==> !Matches(idx[j], first, last)
    ensures r.Some? ==> i <= r.value < |idx| && Matches(idx[r.value], first, last) &&
                        forall j :: i <= j < r.value ==> !Matches(idx[j], first, last)
    decreases |idx| - i
  {
    if i == |idx| then None
    else if Matches(idx[i], first, last) then Some(i)
    else FindFrom(idx, first, last, i + 1)
  }

  /** `player_record.index[0]`: the lowest-index roster row whose keys match, if any. */
  function FindPlayer(idx: RosterIndex, first: string, last: string): (r: Option<nat>)
    ensures r.None? <==> forall j :: 0 <= j < |idx| ==> !Matches(idx[j], first, last)
    ensures r.Some? ==> r.value < |idx| && Matches(idx[r.value], first, last) &&
                        forall j :: 0 <= j < r.value ==> !Matches(idx[j], first, last)
  {
    FindFrom(idx, first, last, 0)
  }

  // ---------------------------------------------------------------------
  // The order derived from a vendor row.
  // ---------------------------------------------------------------------

  datatype Order = Order(first: string, last: string, ordered: Option<nat>)

  /** Clean_First, Clean_Last and Ordered_Jersey of one vendor row. */
  function ToOrder(v: VendorRow): Order {
    Order(CleanName(v.q1), CleanName(v.q2), ExtractJerseyNumber(Some(v.options)))
  }

  /**
   * A vendor row as the export writes it, each name behind its label and the
   * number as "[Player Number : n]", is the order of the two bare names for n.
   */
  lemma {:induction false} OrderOfExportRow(v: VendorRow, l1: Label, x1: string, l2: Label, x2: string, n: nat)
    requires ValidLabel(l1) && LabelFree(x1) && Trimmed(x1) && v.q1 == Some(LabelText(l1) + x1)
    requires ValidLabel(l2) && LabelFree(x2) && Trimmed(x2) && v.q2 == Some(LabelText(l2) + x2)
    requires v.options == "[Player Number : " + NatToString(n) + "]"
    ensures ToOrder(v) == Order(x1, x2, Some(n))
  {
    CleanNameStripsLabel(l1, x1);
    CleanNameStripsLabel(l2, x2);
    ExtractFromOptionText(n);
  }

  // ---------------------------------------------------------------------
  // Taken numbers and the free pool.
  // ---------------------------------------------------------------------

  /**
   * The load-time numbers of every other row whose Team Name equals the
   * player's; rows whose jersey did not parse contribute nothing.
   */
  function Taken(roster: seq<RosterRow>, idx: RosterIndex, p: nat): set<nat>
    requires |idx| == |roster| && p < |roster|
  {
    set j | 0 <= j < |roster| && j != p && roster[j].team == roster[p].team && idx[j].number.Some?
      :: idx[j].number.value
  }

  lemma {:induction false} TakenMember(roster: seq<RosterRow>, idx: RosterIndex, p: nat, m: nat)
    requires |idx| == |roster| && p < |roster|
    ensures m in Taken(roster, idx, p) <==>
            exists j :: 0 <= j < |roster| && j != p && roster[j].team == roster[p].team && idx[j].number == Some(m)
  {
    if m in Taken(roster, idx, p) {
      var j :| 0 <= j < |roster| && j != p && roster[j].team == roster[p].team && idx[j].number.Some? &&
               idx[j].number.value == m;
      assert idx[j].number == Some(m);
    }
  }

  /** The numbers a changed order may receive are 1 to PoolSize. */
  const PoolSize: nat := 100

  /** `[n for n in range(k, 101) if n not in taken]`, in ascending order. */
  function AvailableFrom(taken: set<nat>, k: nat): (r: seq<nat>)
    ensures forall m :: m in r <==> k <= m <= PoolSize && m !in taken
    ensures forall a, b :: 0 <= a < b < |r| ==> r[a] < r[b]
    decreases PoolSize + 1 - k
  {
    if k > PoolSize then []
    else if k in taken then AvailableFrom(taken, k + 1)
    else
      var rest := AvailableFrom(taken, k + 1);
      assert forall b :: 0 <= b < |rest| ==> rest[b] in rest;
      [k] + rest
  }

  /** `available_choices`: the pool 1..100 without the taken numbers, ascending. */
  function Available(taken: set<nat>): (r: seq<nat>)
    ensures forall m :: m in r <==> 1 <= m <= PoolSize && m !in taken
    ensures forall a, b :: 0 <= a < b < |r| ==> r[a] < r[b]
  {
    AvailableFrom(taken, 1)
  }

  /**
   * The random source, as random.choice uses it: `pick(row, n)` is the
   * index `_randbelow(n)` drawn for the order in vendor row `row`. Each
   * order draws at most once, so any sequence of draws is some chooser.
   */
  ghost predicate ValidChooser(pick: (nat, nat) -> nat) {
    forall row: nat, n: nat :: 0 < n ==> pick(row, n) < n
  }

  /** The replacement number: a draw from the free pool, or "N/A" when it is empty. */
  function Choose(avail: seq<nat>, pick: (nat, nat) -> nat, row: nat): (f: Final)
    requires ValidChooser(pick)
    ensures f == NotAvailable <==> avail == []
    ensures f != NotAvailable ==> f.Number? && f.n in avail
  {
    if avail == [] then NotAvailable else Number(avail[pick(row, |avail|)])
  }

  // ---------------------------------------------------------------------
  // The decision for one order.
  // ---------------------------------------------------------------------

  datatype Decision = Decision(status: Status, player: Option<nat>, team: string, final: Final, reason: string)

  /**
   * The body of the loop up to the report record, for the order read from
   * vendor row `row`. `roster` supplies Team Name; `idx` holds the
   * load-time columns.
   */
  function Decide(o: Order, roster: seq<RosterRow>, idx: RosterIndex, pick: (nat, nat) -> nat, row: nat): (d: Decision)
    requires |idx| == |roster| && ValidChooser(pick)
    ensures d.status == Error <==> d.player.None?
    ensures d.player.Some? ==> d.player.value < |roster|
  {
    match FindPlayer(idx, Lower(o.first), Lower(o.last))
    case None => Decision(Error, None, "N/A", NotAvailable, NotFoundReason)
    case Some(p) =>
      var team := roster[p].team;
      var taken := Taken(roster, idx, p);
      if o.ordered.None? then Decision(Skipped, Some(p), team, Absent, NoNumberReason)
      else if o.ordered.value !in taken then Decision(Kept, Some(p), team, Number(o.ordered.value), AvailableReason)
      else Decision(Changed, Some(p), team, Choose(Available(taken), pick, row), ConflictReason(o.ordered.value, team))
  }

  /** The text a non-error decision writes into both tables. */
  function DisplayOf(d: Decision): string {
    Display(d.status, d.final)
  }

  /** The report record of a decision. */
  function EntryOf(o: Order, d: Decision): ReportEntry {
    DecisionEntry(o.first, o.last, d.team, o.ordered, d.final, d.status, d.reason)
  }

  // ---------------------------------------------------------------------
  // Properties of the decision.
  // ---------------------------------------------------------------------

  /**
   * ERROR exactly when no roster row's keys equal the lower-cased cleaned
   * names; then the record has Team "N/A", Final "N/A" and no player.
   */
  lemma {:induction false} DecideError(o: Order, roster: seq<RosterRow>, idx: RosterIndex, pick: (nat, nat) -> nat, row: nat)
    requires |idx| == |roster| && ValidChooser(pick)
    ensures var d := Decide(o, roster, idx, pick, row);
            d.status == Error <==> forall j :: 0 <= j < |idx| ==> !Matches(idx[j], Lower(o.first), Lower(o.last))
    ensures var d := Decide(o, roster, idx, pick, row);
            d.status == Error ==> d == Decision(Error, None, "N/A", NotAvailable, NotFoundReason)
  {
  }

  /** A matched order belongs to the lowest-index matching row, and takes its team. */
  lemma {:induction false} DecidePlayer(o: Order, roster: seq<RosterRow>, idx: RosterIndex, pick: (nat, nat) -> nat, row: nat)
    requires |idx| == |roster| && ValidChooser(pick)
    ensures var d := Decide(o, roster, idx, pick, row);
            d.status != Error ==>
              d.player.Some? && d.player.value < |roster| &&
              Matches(idx[d.player.value], Lower(o.first), Lower(o.last)) &&
              (forall j :: 0 <= j < d.player.value ==> !Matches(idx[j], Lower(o.first), Lower(o.last))) &&
              d.team == roster[d.player.value].team
  {
  }

  /** The three outcomes of a matched order, in the order the source considers them. */
  lemma {:induction false} DecideRule(o: Order, roster: seq<RosterRow>, idx: RosterIndex, pick: (nat, nat) -> nat, row: nat)
    requires |idx| == |roster| && ValidChooser(pick)
    ensures var d := Decide(o, roster, idx, pick, row);
            d.status != Error ==>
              var p := d.player.value;
              p < |roster| &&
              (o.ordered.None? ==> d.status == Skipped && d.final == Absent && d.reason == NoNumberReason) &&
              (o.ordered.Some? && o.ordered.value !in Taken(roster, idx, p) ==>
                 d.status == Kept && d.final == Number(o.ordered.value) && d.reason == AvailableReason) &&
              (o.ordered.Some? && o.ordered.value in Taken(roster, idx, p) ==>
                 d.status == Changed && d.reason == ConflictReason(o.ordered.value, d.team))
  {
  }

  /**
   * A changed order gets a number from 1..100 that no other row of the team
   * holds, hence not the one it asked for; it gets "N/A" exactly when all of
   * 1..100 is taken.
   */
  lemma {:induction false} ChangedFinal(o: Order, roster: seq<RosterRow>, idx: RosterIndex, pick: (nat, nat) -> nat, row: nat)
    requires |idx| == |roster| && ValidChooser(pick)
    ensures var d := Decide(o, roster, idx, pick, row);
            d.status == Changed ==>
              var taken := Taken(roster, idx, d.player.value);
              o.ordered.Some? &&
              (d.final == NotAvailable <==> forall m :: 1 <= m <= PoolSize ==> m in taken) &&
              (d.final != NotAvailable ==>
                 d.final.Number? && 1 <= d.final.n <= PoolSize && d.final.n !in taken && d.final.n != o.ordered.value)
  {
    var d := Decide(o, roster, idx, pick, row);
    if d.status == Changed {
      DecideChanged(o, roster, idx, pick, row);
      ChooseFromPool(Taken(roster, idx, d.player.value), pick, row);
    }
  }

  lemma {:induction false} DecideChanged(o: Order, roster: seq<RosterRow>, idx: RosterIndex, pick: (nat, nat) -> nat, row: nat)
    requires |idx| == |roster| && ValidChooser(pick)
    requires Decide(o, roster, idx, pick, row).status == Changed
    ensures var d := Decide(o, roster, idx, pick, row);
            d.player.Some? && d.player.value < |roster| && o.ordered.Some? &&
            o.ordered.value in Taken(roster, idx, d.player.value) &&
            d.final == Choose(Available(Taken(roster, idx, d.player.value)), pick, row)
  {
  }

  /** A draw from the free pool is a free number of 1..100, and "N/A" only when none is free. */
  lemma {:induction false} ChooseFromPool(taken: set<nat>, pick: (nat, nat) -> nat, row: nat)
    requires ValidChooser(pick)
    ensures var f := Choose(Available(taken), pick, row);
            (f == NotAvailable <==> forall m :: 1 <= m <= PoolSize ==> m in taken) &&
            (f != NotAvailable ==> f.Number? && 1 <= f.n <= PoolSize && f.n !in taken)
  {
    var avail := Available(taken);
    if !forall m :: 1 <= m <= PoolSize ==> m in taken {
      var m :| 1 <= m <= PoolSize && m !in taken;
      assert m in avail;
    }
  }

  /**
   * The decision reads only the names and teams of the roster, never its
   * current jerseys: the taken numbers are the load-time ones.
   */
  lemma {:induction false} DecideFramed(o: Order, roster: seq<RosterRow>, roster': seq<RosterRow>, idx: RosterIndex,
                     pick: (nat, nat) -> nat, row: nat)
    requires |idx| == |roster| == |roster'| && ValidChooser(pick)
    requires forall j :: 0 <= j < |roster| ==> roster'[j].team == roster[j].team
    ensures Decide(o, roster', idx, pick, row) == Decide(o, roster, idx, pick, row)
  {
    var key := FindPlayer(idx, Lower(o.first), Lower(o.last));
    if key.Some? {
      assert Taken(roster', idx, key.value) == Taken(roster, idx, key.value);
    }
  }

  /** What the write-back reads as at the next load: only a plain number parses. */
  lemma {:induction false} DisplayParses(status: Status, f: Final)
    ensures ParseJersey(Display(status, f)) ==
            if status != Changed && f.Number? then Some(f.n) else None
  {
    var s := Display(status, f);
    if status == Changed {
      assert !IsDigit(s[0]);
    } else {
      assert s == Render(f);
    }
  }
}
