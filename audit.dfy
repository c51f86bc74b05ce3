// The final uniqueness check of process_files: roster rows grouped by
// (Team Name, Jersey text) after the write-back; every member of a group of
// two or more rows whose jersey is not blank is reported.

module Audit {
  import opened Text
  import opened Tables

  /**
   * Row `j` is reported: its jersey is not blank (not all whitespace, which
   * is when stripping leaves something), and some other row has the same
   * team and exactly the same jersey text.
   */
  predicate Flagged(rows: seq<RosterRow>, j: nat)
    requires j < |rows|
  {
    !AllSpace(rows[j].jersey) &&
    exists k :: 0 <= k < |rows| && k != j && rows[k].team == rows[j].team && rows[k].jersey == rows[j].jersey
  }

  /** The conflict records of the first `n` rows, in row order. */
  function AuditUpTo(rows: seq<RosterRow>, n: nat): seq<ReportEntry>
    requires n <= |rows|
  {
    if n == 0 then []
    else AuditUpTo(rows, n - 1) + (if Flagged(rows, n - 1) then [ConflictOf(rows[n - 1])] else [])
  }

  function AuditLog(rows: seq<RosterRow>): seq<ReportEntry> {
    AuditUpTo(rows, |rows|)
  }

  /** Does some row other than `j` share row `j`'s team and jersey text? */
  method HasPartner(roster: array<RosterRow>, j: nat) returns (found: bool)
    requires j < roster.Length
    ensures found <==> exists k :: 0 <= k < roster.Length && k != j &&
                                   roster[k].team == roster[j].team && roster[k].jersey == roster[j].jersey
  {
    found := false;
    var k := 0;
    while k < roster.Length && !found
      invariant 0 <= k <= roster.Length
      invariant found ==> exists m :: 0 <= m < roster.Length && m != j &&
                                       roster[m].team == roster[j].team && roster[m].jersey == roster[j].jersey
      invariant !found ==> forall m :: 0 <= m < k && m != j ==>
                                         !(roster[m].team == roster[j].team && roster[m].jersey == roster[j].jersey)
    {
      if k != j && roster[k].team == roster[j].team && roster[k].jersey == roster[j].jersey {
        found := true;
      }
      k := k + 1;
    }
  }

  /** The duplicate audit over the whole roster, one record per reported row. */
  method AuditDuplicates(roster: array<RosterRow>) returns (conflicts: seq<ReportEntry>)
    ensures conflicts == AuditLog(roster[..])
  {
    conflicts := [];
    var j := 0;
    while j < roster.Length
      invariant 0 <= j <= roster.Length
      invariant conflicts == AuditUpTo(roster[..], j)
    {
      var dup := HasPartner(roster, j);
      if !AllSpace(roster[j].jersey) && dup {
        conflicts := conflicts + [ConflictOf(roster[j])];
      }
      j := j + 1;
    }
  }

  // ---------------------------------------------------------------------
  // Properties of the audit.
  // ---------------------------------------------------------------------

  /** The records of the first `n` rows are exactly those of the reported rows among them. */
  lemma {:induction false} AuditUpToMember(rows: seq<RosterRow>, n: nat, e: ReportEntry)
    requires n <= |rows|
    ensures e in AuditUpTo(rows, n) <==> exists j :: 0 <= j < n && Flagged(rows, j) && e == ConflictOf(rows[j])
  {
    if n > 0 {
      AuditUpToMember(rows, n - 1, e);
    }
  }

  /** A record is in the audit exactly when it belongs to a reported row. */
  lemma {:induction false} AuditMember(rows: seq<RosterRow>, e: ReportEntry)
    ensures e in AuditLog(rows) <==> exists j :: 0 <= j < |rows| && Flagged(rows, j) && e == ConflictOf(rows[j])
  {
    AuditUpToMember(rows, |rows|, e);
  }

  function FlaggedBelow(rows: seq<RosterRow>, n: nat): set<nat>
    requires n <= |rows|
  {
    set j | 0 <= j < n && Flagged(rows, j)
  }

  /** One record per reported row among the first `n`: no row is reported twice or skipped. */
  lemma {:induction false} AuditUpToCount(rows: seq<RosterRow>, n: nat)
    requires n <= |rows|
    ensures |AuditUpTo(rows, n)| == |FlaggedBelow(rows, n)|
  {
    if n > 0 {
      AuditUpToCount(rows, n - 1);
      var below, upTo := FlaggedBelow(rows, n - 1), FlaggedBelow(rows, n);
      var last := Flagged(rows, n - 1);
      assert forall x :: x in upTo <==> x in below || (last && x == n - 1);
      if last {
        assert upTo == below + {n - 1};
        assert n - 1 !in below;
      } else {
        assert upTo == below;
      }
    }
  }

  lemma {:induction false} AuditCount(rows: seq<RosterRow>)
    ensures |AuditLog(rows)| == |FlaggedBelow(rows, |rows|)|
  {
    AuditUpToCount(rows, |rows|);
  }

  /** A reported row is never reported alone: its partner is reported too. */
  lemma {:induction false} FlaggedPartner(rows: seq<RosterRow>, j: nat)
    requires j < |rows| && Flagged(rows, j)
    ensures exists k :: 0 <= k < |rows| && k != j && Flagged(rows, k) &&
                        rows[k].team == rows[j].team && rows[k].jersey == rows[j].jersey
  {
    var k :| 0 <= k < |rows| && k != j && rows[k].team == rows[j].team && rows[k].jersey == rows[j].jersey;
    assert Flagged(rows, k);
  }

  /**
   * Two rows of one team: both are reported when their jersey texts are
   * identical and not blank, and neither otherwise.
   */
  lemma {:induction false} AuditPair(a: RosterRow, b: RosterRow)
    requires a.team == b.team
    ensures AuditLog([a, b]) ==
            if a.jersey == b.jersey && Strip(a.jersey) != [] then [ConflictOf(a), ConflictOf(b)] else []
  {
    var rows := [a, b];
    StripBlank(a.jersey);
    assert Flagged(rows, 0) <==> a.jersey == b.jersey && Strip(a.jersey) != [] by {
      if a.jersey == b.jersey { assert rows[1].jersey == rows[0].jersey; }
    }
    assert Flagged(rows, 1) <==> a.jersey == b.jersey && Strip(a.jersey) != [] by {
      if a.jersey == b.jersey { assert rows[0].jersey == rows[1].jersey; }
    }
    assert AuditUpTo(rows, 1) == if Flagged(rows, 0) then [ConflictOf(a)] else [];
  }

  /**
   * A number kept by one player and the same number drawn for a teammate
   * are written as "n" and "CHANGED: n": the audit compares the texts, so
   * neither row is reported.
   */
  lemma {:induction false} ChangedTextNotDuplicate(a: RosterRow, b: RosterRow, n: nat)
    requires a.team == b.team
    requires var kept, changed := Display(Kept, Number(n)), Display(Changed, Number(n));
             (a.jersey == kept && b.jersey == changed) || (a.jersey == changed && b.jersey == kept)
    ensures AuditLog([a, b]) == []
  {
    var r := Render(Number(n));
    assert Display(Kept, Number(n))[0] == r[0] && IsDigit(r[0]);
    assert Display(Changed, Number(n))[0] == 'C';
    AuditPair(a, b);
  }

  /**
   * Two rows of one team holding the same written-back text are both
   * reported, whatever the decision: two skipped orders ("None"), two
   * exhausted draws ("CHANGED: N/A") or two orders kept at one number.
   */
  lemma {:induction false} SameDisplayReported(a: RosterRow, b: RosterRow, status: Status, f: Final)
    requires a.team == b.team && a.jersey == b.jersey == Display(status, f)
    ensures AuditLog([a, b]) == [ConflictOf(a), ConflictOf(b)]
  {
    DisplayNotBlank(status, f);
    AuditPair(a, b);
  }
}
