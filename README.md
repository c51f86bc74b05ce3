# Jersey-number reconciliation, modelled in Dafny

`jersey_manager.py` reconciles a vendor's order export with a team roster.
For every order of the product "GSSA Purple Game Jersey" the run does five things:

- It cleans the two name cells with `clean_name`, which removes the
  "Player First Name :" / "Player Last Name :" labels and strips whitespace.
- It reads the requested number from "Options Detail" with
  `extract_jersey_number`, which finds the first `Player Number\s*:\s*(\d+)`.
- It looks the player up in the roster by stripped, lower-cased first and last name.
- It decides the order: ERROR (unknown player), SKIPPED (no number), KEPT
  (number free on the team) or CHANGED (number held by a teammate). A
  CHANGED order gets a random free number of 1..100, or "N/A" when none is free.
- It writes the result back into both tables.

After the loop it audits the roster for rows of one team that share a jersey
text, and reports every member of such a group.

The project is organised by module:

- `text.dfy` (`Text`) holds whitespace, `str.strip`, ASCII lower-casing and
  decimal digits.
- `parsers.dfy` (`Parsers`) holds both regular expressions as fixed
  patterns, `re.search` and `re.sub`, `clean_name` and
  `extract_jersey_number`, and their properties.
- `tables.dfy` (`Tables`) holds the two row types, the report records, the
  fixed texts and the write-back display text.
- `resolver.dfy` (`Resolver`) holds the load-time roster columns, the
  player lookup, the taken numbers, the free pool, the random draw and the
  per-order decision.
- `engine.dfy` (`Engine`) holds the loop. `Step`/`Run` give its meaning
  as a fold. `RunCharacterized` describes the outcome without the fold.
  The methods `ResolveOrders` and `Reconcile` update the two tables, held
  as arrays, in place.
- `audit.dfy` (`Audit`) holds the final duplicate audit, as a method over
  the roster array and the function it is proved against.
- `scenarios.dfy` (`Scenarios`) holds worked cases on a two-player team.

The random source is a parameter `pick(row, n)`. It is the index below `n`
that `random.choice` draws for the order in vendor row `row`. Every property
holds for every such source.

Four behaviours of the code are easy to miss; the model follows the code:

- **Taken numbers are a load-time snapshot.** The roster's match keys and
  parsed numbers (`Match_First`, `Match_Last`, `Jersey_Clean`) are computed
  once, before the loop (jersey_manager.py:107-109), and never refreshed.
  Every decision therefore sees the numbers as loaded, never an earlier
  order's write-back (`Resolver.DecideFramed`, `Engine.RunCharacterized`).
- **The player's own row is excluded.** Only the matched player's own row
  is left out of the taken numbers, so a CHANGED order may draw back the
  number the player already wears (`Scenarios.ConflictMayReturnOwn`).
- **Exhausted draws are flagged.** Two exhausted draws on one team both
  write "CHANGED: N/A". The audit compares jersey texts, so it reports
  both (`Audit.SameDisplayReported`).
- **Changed and kept numbers are not compared.** A changed "CHANGED: 5" and
  a kept "5" never match, so the audit misses that clash
  (`Audit.ChangedTextNotDuplicate`, `Scenarios.SnapshotHidesDuplicate`).

The example lemmas (Parsers.SinglePassExample, Parsers.CleanExample,
Parsers.ExtractExample) take their example texts through parameters
fixed by `requires` (for instance "Player", " ", "First") and state the
concatenation, which keeps the literals from being unrolled.

## Model

| member | source | states |
|---|---|---|
| Text.Strip | jersey_manager.py:73 | the result is the middle of the input left after dropping whitespace at both ends; it has no whitespace at either end |
| Text.StripBlank | jersey_manager.py:183 | stripping leaves nothing exactly when the cell is all whitespace (the audit's "not blank" test) |
| Text.NatToStringValue | jersey_manager.py:175 | `str(n)` is a non-empty digit string whose decimal value is `n` |
| Tables.Render | jersey_manager.py:175 | the text of a final value: a number renders as digits reading back as that number; "None" and "N/A" do not start with a digit |
| Parsers.PatternAt | jersey_manager.py:72 | a fixed pattern tried at a position ends inside the text, strictly after the start when the pattern opens with literal text |
| Parsers.Search | jersey_manager.py:78 | `re.search`: no match at or after `i` when absent; otherwise the first position at or after `i` where the pattern matches |
| Parsers.RemoveNothing | jersey_manager.py:72 | `Remove`, `re.sub` with an empty replacement, leaves text without matches unchanged |
| Parsers.RemoveMatchThen | jersey_manager.py:72 | a pass over a match followed by match-free text leaves just that text |
| Parsers.RemoveMatchInside | jersey_manager.py:72 | text before the first match is copied, the match is dropped and the match-free rest is kept |
| Parsers.ExtractJerseyNumber | jersey_manager.py:75-81 | missing cell gives none; otherwise none exactly when the pattern matches nowhere, else the digits captured at the first match |
| Parsers.NumberNeedsP | jersey_manager.py:78 | the number pattern is case-sensitive: no match where the text does not have a capital P |
| Parsers.ExtractWithoutP | jersey_manager.py:78 | a text without a capital P gives no number |
| Parsers.ExtractFromOptionText | jersey_manager.py:75-81 | "[Player Number : n]" gives back n, for every n |
| Parsers.ExtractExample | jersey_manager.py:76 | "[Player Number : 52]" gives 52 |
| Parsers.MarkerNotReparsed | jersey_manager.py:173 | the written-back "CHANGED: n" holds no number for a later parse |
| Parsers.CleanName | jersey_manager.py:69-73 | missing cell gives ""; the result is never longer than the input and has no surrounding whitespace |
| Parsers.LabelAt | jersey_manager.py:72 | the label pattern matches every label (any letter case, any whitespace runs, First or Last) in full |
| Parsers.LabelMatchIsLabel | jersey_manager.py:72 | conversely, whatever the label pattern matches is the text of such a label, and no whitespace follows it |
| Parsers.NumberAt | jersey_manager.py:78-80 | "Player Number", whitespace, ":", whitespace and a digit run no digit follows is matched in full and captures the run's value |
| Parsers.NumberMatchIsNumber | jersey_manager.py:78-80 | conversely, whatever the number pattern matches has exactly that shape, and the number captured is its digit run's value |
| Parsers.CleanNameStripsLabel | jersey_manager.py:69-73 | a label followed by a trimmed, label-free name cleans to exactly that name |
| Parsers.CleanNameKeepsPlain | jersey_manager.py:69-73 | a trimmed, label-free name is left unchanged |
| Parsers.LabelFreeWithoutP | jersey_manager.py:72 | a text with no letter folding to "p" contains no label |
| Parsers.CleanNameSinglePass | jersey_manager.py:72 | the substitution is one pass: "Player" + label + y cleans to "Player" + y, which may again be a label |
| Parsers.SinglePassExample | jersey_manager.py:72 | "PlayerPlayer First Name:First Name:John" cleans to "PlayerFirst Name:John", which still matches the label pattern |
| Parsers.CleanExample | jersey_manager.py:70 | "Player First Name : John" cleans to "John" |
| Resolver.OrderOfExportRow | jersey_manager.py:103-105 | `ToOrder`: a row whose names sit behind their labels and whose option text is "[Player Number : n]" gives the order of the two bare names for n |
| Resolver.FindPlayer | jersey_manager.py:121-135 | absent exactly when no row's keys match; otherwise the lowest-index matching row |
| Resolver.Available | jersey_manager.py:157-158 | the free pool holds exactly the numbers 1..100 not taken, in ascending order |
| Resolver.Choose | jersey_manager.py:160-163 | "N/A" exactly when the pool is empty; otherwise a member of the pool |
| Resolver.Decide | jersey_manager.py:126-163 | ERROR exactly when no player was found; a found player is a roster row |
| Resolver.DecideError | jersey_manager.py:126-132 | ERROR exactly when no roster row's load-time keys (`MatchKey`: stripped, then lower-cased, one per row by `BuildIndex`) equal the lower-cased cleaned names, with team "N/A", final "N/A" and the not-found reason |
| Resolver.DecidePlayer | jersey_manager.py:134-135 | a matched order belongs to the first matching roster row and takes its team |
| Resolver.DecideRule | jersey_manager.py:144-154 | no number gives SKIPPED; a number no other row of the team parsed to at load time (`Taken`) gives KEPT with that number; otherwise CHANGED with the conflict reason |
| Resolver.ChangedFinal | jersey_manager.py:152-163 | a CHANGED order gets a number of 1..100 no teammate holds and so not the ordered one, and "N/A" exactly when 1..100 are all taken |
| Resolver.ChooseFromPool | jersey_manager.py:157-163 | a draw from the pool is a free number of 1..100, and "N/A" only when none is free |
| Resolver.DecideFramed | jersey_manager.py:137-138 | a decision does not depend on the roster's current jerseys, only on the load-time columns of `BuildIndex` and the teams |
| Resolver.DisplayParses | jersey_manager.py:172-175 | of the written-back texts (`Display`), only a plain number parses as a jersey under `ParseJersey`, back to that number; "CHANGED: …", "None" and "N/A" do not |
| Audit.HasPartner | jersey_manager.py:184-187 | true exactly when another row has the same team and the same jersey text |
| Audit.AuditDuplicates | jersey_manager.py:183-197 | the conflict records equal the audit of the roster as it stands |
| Audit.AuditMember | jersey_manager.py:186-197 | a record is in the audit (`AuditLog`) exactly when it is the record (`ConflictOf`) of a row that is `Flagged`: non-blank and sharing team and jersey text with another row |
| Audit.AuditCount | jersey_manager.py:189-190 | one record per reported row, none twice |
| Audit.FlaggedPartner | jersey_manager.py:187-189 | a reported row is never alone: some other row of its group is reported too |
| Audit.AuditPair | jersey_manager.py:183-187 | two rows of one team are both reported when their jersey texts are equal and not blank, neither otherwise |
| Audit.ChangedTextNotDuplicate | jersey_manager.py:172-184 | a number kept by one player ("n") and drawn for a teammate ("CHANGED: n") is not reported, for every n |
| Tables.DisplayNotBlank | jersey_manager.py:172-175 | every written-back text (`Display`) is non-empty and does not start with whitespace |
| Audit.SameDisplayReported | jersey_manager.py:183-190 | two rows of one team holding the same written-back text (two "None", two "CHANGED: N/A", two kept n) are both reported |
| Engine.LastWriter | jersey_manager.py:178 | the last of the first n orders that names a roster row, or none |
| Engine.RunCharacterized | jersey_manager.py:113-178 | `Run`, the fold of `Step` (one iteration of the loop), after n iterations: the report holds each target order's decision taken against the roster as loaded, each vendor row holds its own order's display text, each roster row the text of the last order that matched it |
| Engine.ErrorWritesNothing | jersey_manager.py:126-132 | a row `OrdersOf` gives no order (not the target product) or an ERROR order leaves its vendor row as it was and writes no roster row |
| Engine.VendorWriteBack | jersey_manager.py:172-177 | any other order leaves its display text in its vendor row's Options Detail |
| Engine.RosterWriteBack | jersey_manager.py:172-178 | its player's Jersey holds the same text at the end, unless a later order matched that player |
| Engine.RosterRowsKept | jersey_manager.py:178 | roster names and teams are never changed, and a row no order matched is unchanged |
| Engine.DecisionLogMember | jersey_manager.py:166-170 | the decision records are exactly one per order `OrdersOf` derives, that is one per target-product row |
| Engine.DecisionLogCount | jersey_manager.py:113 | there are as many decision records as target orders |
| Engine.ReportLayout | jersey_manager.py:166-197 | every decision record comes before every conflict record |
| Engine.ResolveOrders | jersey_manager.py:113-178 | the loop leaves both tables and the records as the fold over all vendor rows gives them |
| Engine.Reconcile | jersey_manager.py:98-197 | the whole run: the tables after the loop, and the report as decision records followed by the audit of the rewritten roster |
| Scenarios.ConflictChanged | jersey_manager.py:137-154 | an order for a teammate's number is CHANGED, names that number and the team, and gets another number of 1..100 |
| Scenarios.ConflictMayReturnOwn | jersey_manager.py:137-138 | the player's own row is not taken, so a CHANGED order can draw back the player's current number |
| Scenarios.OwnNumberKept | jersey_manager.py:148-151 | ordering the number one already wears is KEPT |
| Scenarios.SnapshotHidesDuplicate | jersey_manager.py:173-178 | a changed and a kept order can both end at 5 on one team, and the audit of the two rewritten rows reports nothing |

## Left out

- The window, file dialogs, status bar and message boxes, and reading and
  writing CSV/Excel files, are not modelled. The tables come in as
  arrays, and the report comes out as a sequence of records.
- The exception handler around the run (jersey_manager.py:213-216) is
  not modelled, and the modelled operations cannot fail. Two failures of
  the source inside the core abandon the run there: the `astype(int)` of
  the taken numbers, listed under Resolver.ParseJersey, and the `int()`
  of the captured digits, listed under Parsers.ExtractJerseyNumber.
- Resolver.Choose: models `random.choice` as an arbitrary index below the
  pool size. Uniformity of the draw is not stated.
- Resolver.ParseJersey: accepts only plain decimal digit strings.
  `pd.to_numeric` also accepts signs, surrounding whitespace, decimal
  points and exponents. For example, a roster "7.0" counts as taken 7 in
  the source but as no number here. A jersey that `pd.to_numeric` reads as
  infinite ("inf", "1e999") makes `astype(int)` at jersey_manager.py:138
  raise, and the handler at jersey_manager.py:213-216 abandons the whole
  run; here such a jersey is simply no number.
- Tables.Render: writes integers as integer text. When some target order
  has no number, pandas stores the ordered numbers as floats, and the
  source then writes "52.0" and "Conflict: #52.0".
- Missing cells are modelled only for the two order name cells, which
  `clean_name` turns into "". Of the other cells, only Options Detail
  (jersey_manager.py:98), the jersey (jersey_manager.py:99) and the roster
  names (jersey_manager.py:107-108) pass through `astype(str)`, where a
  missing value becomes the text "nan"; the model holds those cells as
  plain strings, which covers that text. A missing Options Detail thus
  reaches `extract_jersey_number` as "nan" and yields no number, so its
  missing-cell branch (jersey_manager.py:77) never fires for an order.
  The `notna` half of the audit mask always holds.
- A missing Team Name is not modelled: the model holds every team as a
  plain string. In the source a missing team stays NaN, so
  `df_team['Team Name'] == team_name` (jersey_manager.py:137) holds for no
  row, nothing is taken and an order with a number is always KEPT; and `groupby`
  (jersey_manager.py:184) drops rows without a team, so the audit never
  reports them. Given a common text for such rows, the model would instead
  treat them as one team.
- Text.Lower and Parsers.CleanName: letter case is folded for ASCII
  letters only. `\s` is Python's whitespace set.
- Parsers.ExtractJerseyNumber: `\d` matches the ASCII digits 0-9 only.
  In a Python text pattern `\d` matches every Unicode decimal digit, and
  `int()` at jersey_manager.py:80 reads them, so "[Player Number : ٥٢]"
  gives 52 in the source and no number here. Since Python 3.11, `int()`
  also raises on a run of more than 4300 digits, and the handler at
  jersey_manager.py:213-216 abandons the run; here every digit run gives
  its value.
- Audit.AuditDuplicates: reports rows in roster order. The source
  reports group by group in the sorted order of `groupby`. The set of
  records is the same; their order differs.
- Engine.Reconcile: states the conflict records of the report as
  `AuditLog` of the rewritten roster, that is in roster order. The source
  emits them group by group, groups sorted by team and jersey text
  (jersey_manager.py:184), so two groups never interleave there; the
  records and their count are the same, their order is not.
