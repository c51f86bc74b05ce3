// The two input tables, the decision outcomes and the report records of
// jersey_manager.py's reconciliation run, with the strings the run writes.

module Tables {
  import opened Wrappers
  import opened Text

  /**
   * A vendor order row. `options` is "Options Detail" after the coercion to
   * text; the two question cells may be missing.
   */
  datatype VendorRow = VendorRow(product: string, options: string, q1: Option<string>, q2: Option<string>)

  /** A team roster row; `jersey` already holds text after the coercion to text. */
  datatype RosterRow = RosterRow(first: string, last: string, team: string, jersey: string)

  datatype Status = Error | Skipped | Kept | Changed

  /** The "Final" value of a decision: Python's None, a number, or the text "N/A". */
  datatype Final = Absent | Number(n: nat) | NotAvailable

  /**
   * A report record: a decision for one order, or a duplicate-audit
   * conflict (whose Ordered cell is always "N/A" and Status "CONFLICT").
   */
  datatype ReportEntry =
    | DecisionEntry(first: string, last: string, team: string, ordered: Option<nat>,
                    final: Final, status: Status, reason: string)
    | ConflictEntry(player: string, team: string, jersey: string, reason: string)

  /** The one product whose orders are reconciled. */
  const TargetProduct := "GSSA Purple Game Jersey"

  /** The product test is exact and case-sensitive. */
  predicate IsTarget(v: VendorRow) {
    v.product == TargetProduct
  }

  /** Python's `str` of a final value. */
  function Render(f: Final): (r: string)
    ensures r != []
    ensures f.Number? ==> AllDigits(r) && DigitsValue(r) == f.n
    ensures !f.Number? ==> !IsDigit(r[0])
  {
    match f
    case Absent => "None"
    case Number(n) => NatToStringValue(n); NatToString(n)
    case NotAvailable => "N/A"
  }

  /** The text written back to both tables for a non-error decision. */
  function Display(status: Status, f: Final): string {
    if status == Changed then ChangedPrefix + Render(f) else Render(f)
  }

  const ChangedPrefix := "CHANGED: "

  /** A written-back text is never blank: it opens with a digit, "N" or "C". */
  lemma {:induction false} DisplayNotBlank(status: Status, f: Final)
    ensures Display(status, f) != [] && !IsSpace(Display(status, f)[0])
  {
    var r := Render(f);
    if status == Changed {
      assert Display(status, f)[0] == ChangedPrefix[0] == 'C';
    } else if !f.Number? {
      assert r[0] == 'N';
    }
  }

  const NotFoundReason := "Player not found in Team Assignment Sheet"
  const NoNumberReason := "No number provided in order"
  const AvailableReason := "Ordered number available"

  function ConflictReason(n: nat, team: string): string {
    "Conflict: #" + NatToString(n) + " taken on " + team
  }

  function DuplicateReason(jersey: string, team: string): string {
    "DUPLICATE FOUND: Number " + jersey + " is assigned to multiple players on team " + team + "."
  }

  /** The conflict record for one roster row caught by the duplicate audit. */
  function ConflictOf(r: RosterRow): ReportEntry {
    ConflictEntry(r.first + " " + r.last, r.team, r.jersey, DuplicateReason(r.jersey, r.team))
  }
}
