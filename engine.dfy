// The reconciliation run of jersey_manager.py's process_files: the loop
// over the target orders that decides each one and writes the result back
// into both tables, followed by the duplicate audit.
//
// `Step`/`Run` give the meaning of the loop as a left fold over the vendor
// rows; `RunCharacterized` describes its outcome without the fold; the
// methods `ResolveOrders` and `Reconcile` work in place on the two tables.

module Engine {
  import opened Wrappers
  import opened Tables
  import opened Resolver
  import opened Audit

  /**
   * df_orders with its derived columns, kept at the positions of the vendor
   * table: the order of every row for the target product, nothing for the
   * others.
   */
  function OrdersOf(vendor: seq<VendorRow>): (orders: seq<Option<Order>>)
    ensures |orders| == |vendor|
    ensures forall i :: 0 <= i < |vendor| ==> (orders[i].Some? <==> IsTarget(vendor[i]))
    ensures forall i :: 0 <= i < |vendor| && IsTarget(vendor[i]) ==> orders[i] == Some(ToOrder(vendor[i]))
  {
    seq(|vendor|, i requires 0 <= i < |vendor| => if IsTarget(vendor[i]) then Some(ToOrder(vendor[i])) else None)
  }

  /**
   * The tables as loaded, the orders derived from the vendor table, the
   * load-time roster columns, and the random source.
   */
  datatype Job = Job(vendor: seq<VendorRow>, roster: seq<RosterRow>, orders: seq<Option<Order>>,
                     idx: RosterIndex, pick: (nat, nat) -> nat)

  ghost predicate ValidJob(job: Job) {
    |job.orders| == |job.vendor| && |job.idx| == |job.roster| && ValidChooser(job.pick)
  }

  /** Both tables and the report as the loop leaves them. */
  datatype State = State(vendor: seq<VendorRow>, roster: seq<RosterRow>, log: seq<ReportEntry>)

  /** One iteration of the loop, for vendor row `i`. */
  function Step(job: Job, st: State, i: nat): (st': State)
    requires ValidJob(job) && i < |job.vendor| == |st.vendor| && |st.roster| == |job.roster|
    ensures |st'.vendor| == |st.vendor| && |st'.roster| == |st.roster|
  {
    match job.orders[i]
    case None => st
    case Some(o) =>
      var d := Decide(o, st.roster, job.idx, job.pick, i);
      var log := st.log + [EntryOf(o, d)];
      if d.status == Error then st.(log := log)
      else
        var s := DisplayOf(d);
        var p := d.player.value;
        State(st.vendor[i := st.vendor[i].(options := s)], st.roster[p := st.roster[p].(jersey := s)], log)
  }

  /** The first `n` iterations of the loop. */
  function Run(job: Job, n: nat): (st: State)
    requires ValidJob(job) && n <= |job.vendor|
    ensures |st.vendor| == |job.vendor| && |st.roster| == |job.roster|
  {
    if n == 0 then State(job.vendor, job.roster, [])
    else Step(job, Run(job, n - 1), n - 1)
  }

  // ---------------------------------------------------------------------
  // The outcome of the loop, described without the fold.
  // ---------------------------------------------------------------------

  /** The decision for the order in vendor row `i`, taken against the roster as loaded. */
  function Outcome(job: Job, i: nat): Decision
    requires ValidJob(job) && i < |job.vendor| && job.orders[i].Some?
  {
    Decide(job.orders[i].value, job.roster, job.idx, job.pick, i)
  }

  /** Per vendor row, the roster row its order writes into, if any. */
  function Players(job: Job): (ps: seq<Option<nat>>)
    requires ValidJob(job)
    ensures |ps| == |job.vendor|
  {
    seq(|job.vendor|, i requires 0 <= i < |job.vendor| =>
      if job.orders[i].Some? then Outcome(job, i).player else None)
  }

  /** The last of the first `n` entries of `ps` that names roster row `j`. */
  function LastWriter(ps: seq<Option<nat>>, n: nat, j: nat): (r: Option<nat>)
    requires n <= |ps|
    ensures r.None? <==> forall i :: 0 <= i < n ==> ps[i] != Some(j)
    ensures r.Some? ==> r.value < n && ps[r.value] == Some(j) &&
                        forall i :: r.value < i < n ==> ps[i] != Some(j)
  {
    if n == 0 then None
    else if ps[n - 1] == Some(j) then Some(n - 1)
    else LastWriter(ps, n - 1, j)
  }

  /** One decision record per target order among the first `n` vendor rows, in row order. */
  function DecisionLog(job: Job, n: nat): seq<ReportEntry>
    requires ValidJob(job) && n <= |job.vendor|
  {
    if n == 0 then []
    else
      DecisionLog(job, n - 1) +
      (if job.orders[n - 1].Some? then [EntryOf(job.orders[n - 1].value, Outcome(job, n - 1))] else [])
  }

  /** Vendor row `i` after `n` iterations: rewritten by its own order unless that order is an error. */
  function VendorAfter(job: Job, n: nat, i: nat): VendorRow
    requires ValidJob(job) && n <= |job.vendor| && i < |job.vendor|
  {
    if i < n && job.orders[i].Some? && Outcome(job, i).status != Error then
      job.vendor[i].(options := DisplayOf(Outcome(job, i)))
    else job.vendor[i]
  }

  /** Roster row `j` after `n` iterations: its jersey is what the last order for it wrote. */
  function RosterAfter(job: Job, n: nat, j: nat): RosterRow
    requires ValidJob(job) && n <= |job.vendor| && j < |job.roster|
  {
    match LastWriter(Players(job), n, j)
    case None => job.roster[j]
    case Some(i) => job.roster[j].(jersey := DisplayOf(Outcome(job, i)))
  }

  /**
   * The loop after `n` iterations: the report holds the decisions taken
   * against the roster as loaded (earlier write-backs never influence a
   * later decision), each vendor row holds its own order's result, and each
   * roster row holds the result of the last order that matched it.
   */
  lemma {:induction false} RunCharacterized(job: Job, n: nat)
    requires ValidJob(job) && n <= |job.vendor|
    ensures Run(job, n).log == DecisionLog(job, n)
    ensures forall i :: 0 <= i < |job.vendor| ==> Run(job, n).vendor[i] == VendorAfter(job, n, i)
    ensures forall j :: 0 <= j < |job.roster| ==> Run(job, n).roster[j] == RosterAfter(job, n, j)
  {
    if n > 0 {
      RunCharacterized(job, n - 1);
      if job.orders[n - 1].Some? {
        StepDecides(job, n - 1);
      }
      StepLog(job, n - 1, n);
      StepVendor(job, n - 1, n);
      StepRoster(job, n - 1, n);
    }
  }

  /** The iteration for row `k` takes the decision the loaded roster gives. */
  lemma {:induction false} StepDecides(job: Job, k: nat)
    requires ValidJob(job) && k < |job.vendor| && job.orders[k].Some?
    requires forall j :: 0 <= j < |job.roster| ==> Run(job, k).roster[j] == RosterAfter(job, k, j)
    ensures Decide(job.orders[k].value, Run(job, k).roster, job.idx, job.pick, k) == Outcome(job, k)
  {
    DecideFramed(job.orders[k].value, job.roster, Run(job, k).roster, job.idx, job.pick, k);
  }

  lemma {:induction false} StepLog(job: Job, k: nat, n: nat)
    requires ValidJob(job) && k < |job.vendor| && n == k + 1
    requires Run(job, k).log == DecisionLog(job, k)
    requires job.orders[k].Some? ==> Decide(job.orders[k].value, Run(job, k).roster, job.idx, job.pick, k) == Outcome(job, k)
    ensures Run(job, n).log == DecisionLog(job, n)
  {
  }

  lemma {:induction false} StepVendor(job: Job, k: nat, n: nat)
    requires ValidJob(job) && k < |job.vendor| && n == k + 1
    requires forall i :: 0 <= i < |job.vendor| ==> Run(job, k).vendor[i] == VendorAfter(job, k, i)
    requires job.orders[k].Some? ==> Decide(job.orders[k].value, Run(job, k).roster, job.idx, job.pick, k) == Outcome(job, k)
    ensures forall i :: 0 <= i < |job.vendor| ==> Run(job, n).vendor[i] == VendorAfter(job, n, i)
  {
  }

  lemma {:induction false} StepRoster(job: Job, k: nat, n: nat)
    requires ValidJob(job) && k < |job.vendor| && n == k + 1
    requires forall j :: 0 <= j < |job.roster| ==> Run(job, k).roster[j] == RosterAfter(job, k, j)
    requires job.orders[k].Some? ==> Decide(job.orders[k].value, Run(job, k).roster, job.idx, job.pick, k) == Outcome(job, k)
    ensures forall j :: 0 <= j < |job.roster| ==> Run(job, n).roster[j] == RosterAfter(job, n, j)
  {
    if job.orders[k].Some? {
      assert Players(job)[k] == Outcome(job, k).player;
    } else {
      assert Players(job)[k].None?;
    }
  }

  /**
   * A non-target row or an ERROR order: its vendor row is as it was at the
   * end of the run, and it names no roster row to write.
   */
  lemma {:induction false} ErrorWritesNothing(job: Job, i: nat)
    requires ValidJob(job) && i < |job.vendor|
    requires job.orders[i].None? || Outcome(job, i).status == Error
    ensures Run(job, |job.vendor|).vendor[i] == job.vendor[i]
    ensures Players(job)[i].None?
  {
    RunCharacterized(job, |job.vendor|);
    assert Run(job, |job.vendor|).vendor[i] == VendorAfter(job, |job.vendor|, i);
  }

  /** The last entry naming `j` is the one after which no entry names it. */
  lemma {:induction false} LastWriterIs(ps: seq<Option<nat>>, n: nat, i: nat, j: nat)
    requires i < n <= |ps| && ps[i] == Some(j)
    requires forall k :: i < k < n ==> ps[k] != Some(j)
    ensures LastWriter(ps, n, j) == Some(i)
  {
    var r := LastWriter(ps, n, j);
    assert r.Some?;
    assert !(r.value < i);
  }

  /** Any other order rewrites its vendor row's Options Detail with its display text. */
  lemma {:induction false} VendorWriteBack(job: Job, i: nat)
    requires ValidJob(job) && i < |job.vendor|
    requires job.orders[i].Some? && Outcome(job, i).status != Error
    ensures Run(job, |job.vendor|).vendor[i] == job.vendor[i].(options := DisplayOf(Outcome(job, i)))
  {
    RunCharacterized(job, |job.vendor|);
    assert Run(job, |job.vendor|).vendor[i] == VendorAfter(job, |job.vendor|, i);
  }

  /**
   * The matched player of such an order holds the same display text in
   * Jersey at the end of the run, when no later order matched that player.
   */
  lemma {:induction false} RosterWriteBack(job: Job, i: nat)
    requires ValidJob(job) && i < |job.vendor|
    requires job.orders[i].Some? && Outcome(job, i).status != Error
    requires forall k :: i < k < |job.vendor| ==> Players(job)[k] != Outcome(job, i).player
    ensures Outcome(job, i).player.value < |job.roster|
    ensures Run(job, |job.vendor|).roster[Outcome(job, i).player.value] ==
            job.roster[Outcome(job, i).player.value].(jersey := DisplayOf(Outcome(job, i)))
  {
    var n := |job.vendor|;
    var d := Outcome(job, i);
    var p := d.player.value;
    var ps := Players(job);
    assert ps[i] == Some(p);
    LastWriterIs(ps, n, i, p);
    RunCharacterized(job, n);
    assert Run(job, n).roster[p] == RosterAfter(job, n, p);
  }

  /**
   * Roster rows keep their names and team, and a row that no order matched
   * keeps its jersey too.
   */
  lemma {:induction false} RosterRowsKept(job: Job, j: nat)
    requires ValidJob(job) && j < |job.roster|
    ensures var r := Run(job, |job.vendor|).roster[j];
            r.first == job.roster[j].first && r.last == job.roster[j].last && r.team == job.roster[j].team
    ensures (forall i :: 0 <= i < |job.vendor| ==> Players(job)[i] != Some(j)) ==>
            Run(job, |job.vendor|).roster[j] == job.roster[j]
  {
    RunCharacterized(job, |job.vendor|);
  }

  /** The decision records: exactly one per target order, and nothing else. */
  lemma {:induction false} DecisionLogMember(job: Job, n: nat, e: ReportEntry)
    requires ValidJob(job) && n <= |job.vendor|
    ensures e in DecisionLog(job, n) <==>
            exists i :: 0 <= i < n && job.orders[i].Some? && e == EntryOf(job.orders[i].value, Outcome(job, i))
  {
    if n > 0 {
      DecisionLogMember(job, n - 1, e);
    }
  }

  function TargetsBelow(job: Job, n: nat): set<nat>
    requires ValidJob(job) && n <= |job.vendor|
  {
    set i | 0 <= i < n && job.orders[i].Some?
  }

  lemma {:induction false} DecisionLogCount(job: Job, n: nat)
    requires ValidJob(job) && n <= |job.vendor|
    ensures |DecisionLog(job, n)| == |TargetsBelow(job, n)|
  {
    if n > 0 {
      DecisionLogCount(job, n - 1);
      var below, upTo := TargetsBelow(job, n - 1), TargetsBelow(job, n);
      var last := job.orders[n - 1].Some?;
      assert forall x :: x in upTo <==> x in below || (last && x == n - 1);
      if last {
        assert upTo == below + {n - 1};
        assert n - 1 !in below;
      } else {
        assert upTo == below;
      }
    }
  }

  /** All decision records of the report come before all conflict records. */
  lemma {:induction false} ReportLayout(job: Job)
    requires ValidJob(job)
    ensures var st := Run(job, |job.vendor|);
            var report := st.log + AuditLog(st.roster);
            |st.log| == |TargetsBelow(job, |job.vendor|)| &&
            forall k :: 0 <= k < |report| ==> (report[k].DecisionEntry? <==> k < |st.log|)
  {
    var st := Run(job, |job.vendor|);
    RunCharacterized(job, |job.vendor|);
    DecisionLogCount(job, |job.vendor|);
    var report := st.log + AuditLog(st.roster);
    forall k | 0 <= k < |report|
      ensures report[k].DecisionEntry? <==> k < |st.log|
    {
      if k < |st.log| {
        DecisionLogMember(job, |job.vendor|, report[k]);
      } else {
        AuditMember(st.roster, report[k]);
      }
    }
  }

  /** The iteration for an order: its record is appended and, unless it is an error, both tables are written. */
  lemma {:induction false} StepTakes(job: Job, st: State, i: nat, o: Order)
    requires ValidJob(job) && i < |job.vendor| == |st.vendor| && |st.roster| == |job.roster|
    requires job.orders[i] == Some(o)
    ensures var d := Decide(o, st.roster, job.idx, job.pick, i);
            var log := st.log + [EntryOf(o, d)];
            Step(job, st, i) ==
              if d.status == Error then State(st.vendor, st.roster, log)
              else State(st.vendor[i := st.vendor[i].(options := DisplayOf(d))],
                         st.roster[d.player.value := st.roster[d.player.value].(jersey := DisplayOf(d))], log)
  {
  }

  /** The loop, in place on the two tables, over the orders derived before it; returns the decision records. */
  method ResolveOrders(vendor: array<VendorRow>, roster: array<RosterRow>, orders: seq<Option<Order>>,
                       idx: RosterIndex, pick: (nat, nat) -> nat)
    returns (log: seq<ReportEntry>)
    requires |orders| == vendor.Length && |idx| == roster.Length && ValidChooser(pick)
    modifies vendor, roster
    ensures var st := Run(Job(old(vendor[..]), old(roster[..]), orders, idx, pick), vendor.Length);
            vendor[..] == st.vendor && roster[..] == st.roster && log == st.log
  {
    ghost var job := Job(vendor[..], roster[..], orders, idx, pick);
    log := [];
    var i := 0;
    while i < vendor.Length
      invariant 0 <= i <= vendor.Length
      invariant Run(job, i) == State(vendor[..], roster[..], log)
    {
      ghost var st := State(vendor[..], roster[..], log);
      match orders[i] {
        case None =>
        case Some(o) =>
          var d := Decide(o, roster[..], idx, pick, i);
          StepTakes(job, st, i, o);
          log := log + [EntryOf(o, d)];
          if d.status != Error {
            var s := DisplayOf(d);
            var p := d.player.value;
            vendor[i] := vendor[i].(options := s);
            roster[p] := roster[p].(jersey := s);
          }
      }
      assert State(vendor[..], roster[..], log) == Step(job, st, i);
      assert Run(job, i + 1) == Step(job, Run(job, i), i);
      i := i + 1;
    }
  }

  /** The job of a run over the tables as loaded. */
  function JobOf(vendor: seq<VendorRow>, roster: seq<RosterRow>, pick: (nat, nat) -> nat): Job {
    Job(vendor, roster, OrdersOf(vendor), BuildIndex(roster), pick)
  }

  /**
   * The whole run: the orders and the load-time roster columns, the order
   * loop, then the duplicate audit over the rewritten roster; the report is
   * the decision records followed by the conflict records.
   */
  method Reconcile(vendor: array<VendorRow>, roster: array<RosterRow>, pick: (nat, nat) -> nat)
    returns (report: seq<ReportEntry>)
    requires ValidChooser(pick)
    modifies vendor, roster
    ensures var st := Run(JobOf(old(vendor[..]), old(roster[..]), pick), vendor.Length);
            vendor[..] == st.vendor && roster[..] == st.roster && report == st.log + AuditLog(st.roster)
  {
    var orders := OrdersOf(vendor[..]);
    var idx := BuildIndex(roster[..]);
    var log := ResolveOrders(vendor, roster, orders, idx, pick);
    var conflicts := AuditDuplicates(roster);
    report := log + conflicts;
  }
}
