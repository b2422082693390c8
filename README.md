# TalPay dashboard: escrow board, employee directory and canister arguments

TalPay is a payroll dashboard for the Internet Computer. Its admin screens
keep an in-memory list of payroll **escrow contracts** and an **employee
directory**. Each list is replaced wholesale by the event handlers of a React
component. A service class packs arguments for the payroll canister's
candid interface. This project models those three pieces in Dafny and proves
what they guarantee:

- `escrow_manager.dfy` (module `EscrowManager`) models the escrow board.
  - The `Contract` record and the class `EscrowBoard` hold the component state.
  - It covers creation, funding with clamping to the target, and the rules
    that offer Fund, Approve, Release and Cancel.
  - It also covers the "Active Contracts" count.
- `employee_management.dfy` (module `EmployeeManagement`) models the directory.
  - The `Employee` record and the class `EmployeeDirectory` hold the state.
  - It covers add, edit by id, delete by id, the case-insensitive search and
    the total and active counts.
- `icp_integration.dfy` (module `IcpIntegration`) models the packing.
  - It defines the canister's status and transaction variants.
  - `updateEmployee` turns a partial update into candid optionals; the model
    shows that falsy text and a zero salary are dropped.
  - `createEscrowContract` converts the release date from milliseconds to
    nanoseconds.
- `float64.dfy` (module `Float64`) rounds an integer to the nearest IEEE 754
  double. It is used to state what the source's millisecond-to-nanosecond
  multiplication really computes.
- `text.dfy`, `seqs.dfy` and `wrappers.dfy` hold helpers: lowercasing,
  `includes`, order-preserving subsequences and `Option`.

Each state-changing handler is a method of a class.
- Its postcondition gives the new list as a pure function of the old one,
  such as `FundSelected`, `ReplaceById` or `RemoveById`.
- The lemmas about those functions carry the properties: only the selected
  contract changes, edit and delete are idempotent, delete drops exactly the
  matching records, the search is an order-preserving filter, and the counts
  are bounded and move in the right direction.

Several places where the board's handlers allow more than its own controls
and the canister's types suggest. The fund box's `max` is the remaining amount
(components/escrow-manager.tsx:392), and the canister keeps approvals as a list
of principals (`approvals: Principal[]`, lib/icp-integration.ts:25 and 98):
- Funding does not reject overfunding. It clamps `fundedAmount` to
  `totalAmount`, and it still activates the contract when the unclamped sum
  reaches the target.
- Funding checks neither the status nor the sign of the amount. A released
  or cancelled contract can be funded back to `active`, and a negative amount
  lowers the funded total.
- Approvals are a counter, not a set of approvers. The Approve, Release and
  Cancel buttons have no handler.

The model follows the code in every one of these cases, and lemmas state each
deviation (`OverfundingClamps`, `FundReopensClosedContract`,
`NegativeAmountLowersFunding`).

Modelling choices:
- Amounts are unbounded integers.
- `Number.parseInt` results are taken as already-parsed integers passed to
  the handlers.
- The fund-amount text box is `Option<int>`, with `None` for the empty
  string. That is the only case in which the handler does nothing.
- `Date.now()` ids and today's date are parameters.
- `toLowerCase` is ASCII case folding.

## Model

| member | source | states |
|---|---|---|
| `EscrowManager.Offered` | components/escrow-manager.tsx:357-453 | Fund is offered iff funding is below target; Approve or Release is offered iff the contract is active, never both; Approve only below the required approvals and Release only at or above it; Cancel iff pending, and then neither Approve nor Release |
| `EscrowManager.NewContract` | components/escrow-manager.tsx:86-96 | the new contract carries the form's id, title, target, head count and date and is not active; it offers Cancel and, when its target is positive, Fund, never Approve or Release; it satisfies 0 <= funded <= total (with active implying fully funded) iff its target is not negative, as the parsed target is not validated |
| `EscrowManager.Min` | components/escrow-manager.tsx:115 | `Math.min`: the result is one of the two arguments and no larger than either |
| `EscrowManager.Fund` | components/escrow-manager.tsx:113-120 | funded amount becomes old + amount when that stays within the target, otherwise the target; reaching the target (unclamped) makes the contract active, otherwise the status is kept; no other field changes |
| `EscrowManager.FundActivatesOnlyAtTarget` | components/escrow-manager.tsx:116-119 | the only status change funding makes is to active, and then the contract is exactly fully funded |
| `EscrowManager.OverfundingClamps` | components/escrow-manager.tsx:115-119 | overfunding activates the contract and drops the excess |
| `EscrowManager.FundNeverDecreases` | components/escrow-manager.tsx:115 | with a non-negative amount and funding within target, the funded amount does not go down and stays within target |
| `EscrowManager.NegativeAmountLowersFunding` | components/escrow-manager.tsx:115 | no sign check: a negative amount lowers the funded amount |
| `EscrowManager.FundPreservesWellFunded` | components/escrow-manager.tsx:113-120 | a non-negative amount preserves 0 <= funded <= total and active implying fully funded |
| `EscrowManager.FundReopensClosedContract` | components/escrow-manager.tsx:358 | a released or cancelled contract below target still offers Fund, and funding it to target makes it active again |
| `EscrowManager.FullFundingOffersApproval` | components/escrow-manager.tsx:115-119 | after funding reaches the target Fund is no longer offered and Approve or Release is |
| `EscrowManager.FundSelected` | components/escrow-manager.tsx:110-122 | the list keeps its length and order; every contract with the selected id is funded, every other one is unchanged |
| `EscrowManager.FundUnknownIdIsNoOp` | components/escrow-manager.tsx:110-122 | funding an id no contract carries leaves the list unchanged |
| `EscrowManager.FundKeepsIds` | components/escrow-manager.tsx:110-122 | funding keeps every contract's id at its position |
| `EscrowManager.ActiveContracts` | components/escrow-manager.tsx:247 | the active contracts form an order-preserving subsequence holding each active contract as often as the list does and nothing else |
| `EscrowManager.ActiveCount` | components/escrow-manager.tsx:247 | the "Active Contracts" figure is at most the number of contracts |
| `EscrowManager.ActiveCountAfterCreate` | components/escrow-manager.tsx:98 | appending a pending contract leaves the active count unchanged |
| `EscrowManager.ActiveCountAfterFund` | components/escrow-manager.tsx:110-122 | funding never lowers the active count |
| `EscrowManager.EscrowBoard.constructor` | components/escrow-manager.tsx:37-83 | the board starts from the given list with no contract selected, no amount typed and both dialogs closed |
| `EscrowManager.EscrowBoard.CreateContract` | components/escrow-manager.tsx:85-106 | exactly one new contract is appended after the unchanged earlier ones, carrying the form's id, title, target, head count and date with nothing funded, pending, 0 approvals and 3 required; the active count is unchanged, the create dialog closes and the fund-dialog state is untouched |
| `EscrowManager.EscrowBoard.ChangeCreateDialog` | components/escrow-manager.tsx:151 | the create dialog opens or closes and nothing else changes |
| `EscrowManager.EscrowBoard.ChangeFundDialog` | components/escrow-manager.tsx:360-365 | opening the fund dialog selects its contract, closing it clears the selection |
| `EscrowManager.EscrowBoard.ChangeFundAmount` | components/escrow-manager.tsx:388-389 | typing into the amount box sets the amount and nothing else |
| `EscrowManager.EscrowBoard.FundContract` | components/escrow-manager.tsx:108-128 | with a non-empty selected id and an amount, the list becomes `FundSelected` of the old list and amount, selection and dialog are cleared; otherwise nothing changes; the length is kept and the active count does not drop |
| `EscrowManager.EscrowBoard.FundFromWallet` | components/escrow-manager.tsx:414-418 | "Fund from ICP Wallet" closes the fund dialog and funds nothing; the selection and the typed amount stay as they were |
| `EmployeeManagement.Matches` | components/employee-management.tsx:90-93 | an employee matches iff the lowercased term occurs at some position of its lowercased name, email or position; the empty term matches everyone |
| `EmployeeManagement.Search` | components/employee-management.tsx:89-94 | the search result is an order-preserving subsequence holding each employee whose lowercased name, email or position includes the lowercased term as often as the list does, and nothing else |
| `EmployeeManagement.SearchMembers` | components/employee-management.tsx:89-94 | an employee is shown iff it is in the list and matches the term |
| `EmployeeManagement.SearchEmptyTerm` | components/employee-management.tsx:89-94 | an empty search term shows the whole list |
| `EmployeeManagement.SearchCaseInsensitive` | components/employee-management.tsx:91-93 | lowercasing the term does not change the result |
| `EmployeeManagement.SearchIdempotent` | components/employee-management.tsx:89-94 | filtering the result again with the same term changes nothing |
| `EmployeeManagement.NewEmployee` | components/employee-management.tsx:97-107 | the new record carries the form's fields, the given id and join date, and is not active; searching for its own name, email or position finds it |
| `EmployeeManagement.ReplaceById` | components/employee-management.tsx:124 | the edit keeps the length; every record with the edited id becomes the edited record, every other record is unchanged |
| `EmployeeManagement.ReplaceIdempotent` | components/employee-management.tsx:124 | editing with the same record twice equals editing once |
| `EmployeeManagement.ReplaceUnknownIsNoOp` | components/employee-management.tsx:124 | editing a record whose id is absent changes nothing |
| `EmployeeManagement.RemoveById` | components/employee-management.tsx:134 | the delete keeps, in order and with their multiplicity, exactly the records whose id differs, so none with the id remains |
| `EmployeeManagement.RemoveUnknownIsNoOp` | components/employee-management.tsx:134 | deleting an absent id changes nothing |
| `EmployeeManagement.RemoveIdempotent` | components/employee-management.tsx:134 | deleting the same id again changes nothing |
| `EmployeeManagement.ActiveEmployees` | components/employee-management.tsx:454 | the active employees form an order-preserving subsequence holding each active employee as often as the list does and nothing else |
| `EmployeeManagement.ActiveCount` | components/employee-management.tsx:442-454 | the "Active" figure is at most the "Total Employees" figure |
| `EmployeeManagement.ActiveCountAfterAdd` | components/employee-management.tsx:105-109 | adding a pending employee leaves the active count unchanged |
| `EmployeeManagement.ActiveCountAfterRemove` | components/employee-management.tsx:134 | deleting never raises the active count |
| `EmployeeManagement.EmployeeDirectory.constructor` | components/employee-management.tsx:37-87 | the directory starts from the given list with an empty search term, nothing being edited or deleted and all dialogs closed |
| `EmployeeManagement.EmployeeDirectory.Filtered` | components/employee-management.tsx:89-94 | the shown list is an order-preserving subsequence of the employees, all of them while the term is empty, and the same for the term and its lowercase |
| `EmployeeManagement.EmployeeDirectory.ChangeSearchTerm` | components/employee-management.tsx:430 | typing into the search box sets the term and nothing else; the shown list becomes the search of the list for the new term, the whole list for an empty term |
| `EmployeeManagement.EmployeeDirectory.ChangeAddDialog` | components/employee-management.tsx:171 | the add dialog opens or closes and nothing else changes |
| `EmployeeManagement.EmployeeDirectory.AddEmployee` | components/employee-management.tsx:96-119 | exactly one new employee is appended after the unchanged earlier ones, carrying the form's fields and status pending; the active count is unchanged and the add dialog closes |
| `EmployeeManagement.EmployeeDirectory.OpenEditDialog` | components/employee-management.tsx:140-143 | the chosen record becomes the one being edited and the edit dialog opens |
| `EmployeeManagement.EmployeeDirectory.ChangeEditDialog` | components/employee-management.tsx:276 | the edit dialog opens or closes; closing keeps the record being edited |
| `EmployeeManagement.EmployeeDirectory.ChangeEditing` | components/employee-management.tsx:284-375 | while a record is being edited, a field change replaces the edited copy and leaves the list alone |
| `EmployeeManagement.EmployeeDirectory.EditEmployee` | components/employee-management.tsx:121-129 | with a record being edited the list becomes `ReplaceById` of it and the dialog state is cleared; with none, nothing changes; the length is kept |
| `EmployeeManagement.EmployeeDirectory.OpenDeleteDialog` | components/employee-management.tsx:145-148 | the chosen id awaits deletion and the confirmation dialog opens |
| `EmployeeManagement.EmployeeDirectory.ChangeDeleteDialog` | components/employee-management.tsx:395-409 | the confirmation dialog opens or closes (also by Cancel); the id awaiting deletion is kept and nothing is deleted |
| `EmployeeManagement.EmployeeDirectory.DeleteEmployee` | components/employee-management.tsx:131-138 | with a non-empty id pending the list becomes `RemoveById` of it and the dialog state is cleared; with a null or empty id nothing changes; the active count never rises |
| `Text.LowerChar` | components/employee-management.tsx:91 | a folded character is never an upper-case ASCII letter, and only upper-case letters change (each to its lower-case letter) |
| `Text.Lower` | components/employee-management.tsx:91-93 | `toLowerCase` keeps the length and lowercases each character |
| `Text.LowerIdempotent` | components/employee-management.tsx:91-93 | lowercasing twice equals lowercasing once |
| `Text.IncludesEmpty` | components/employee-management.tsx:91-93 | every string includes the empty term |
| `Text.IncludesFromOccurrence` | components/employee-management.tsx:91-93 | a term that occurs at some position is included |
| `Text.IncludesAt` | components/employee-management.tsx:91-93 | `includes` holds iff the term occurs at some position (both directions) |
| `IcpIntegration.PackUpdateEmployee` | lib/icp-integration.ts:335-342 | the employee id passes through; name, position and wallet address are sent as `[v]` iff defined and non-empty, else `[]`; salary iff defined and non-zero; `isActive` iff defined |
| `IcpIntegration.UnpackAfterPack` | lib/icp-integration.ts:335-342 | what the canister reads back from the packed arguments is the update minus its falsy fields |
| `IcpIntegration.PackLosslessWithoutFalsy` | lib/icp-integration.ts:335-342 | an update with no falsy field crosses the interface unchanged |
| `IcpIntegration.PackAfterUnpack` | lib/icp-integration.ts:335-342 | candid arguments with at most one element per optional and no `""` or `0` are reproduced by packing their own unpacking |
| `IcpIntegration.ZeroSalaryIsDropped` | lib/icp-integration.ts:339 | an explicit salary of 0 packs exactly like an absent salary |
| `IcpIntegration.FalseIsActiveIsKept` | lib/icp-integration.ts:341 | an explicit `isActive: false` is sent as `[false]`, unlike an absent one |
| `IcpIntegration.MillisToNanosAsWritten` | lib/icp-integration.ts:361 | the double-precision product lies within half the spacing of doubles at the exact product, so within 511 ns below 2^62 ns (the year 2116); it is exact when the exact product is a double, in particular while its magnitude stays below 2^53 |
| `IcpIntegration.WholeSecondDatesAreExact` | lib/icp-integration.ts:361 | a date on a whole second up to 2^62 ns (the year 2116) is sent as its exact nanosecond value |
| `IcpIntegration.AsWrittenLosesNanoseconds` | lib/icp-integration.ts:361 | for 1706659200001 ms the source sends 1706659200000999936 ns, 64 ns short of the exact value |
| `IcpIntegration.MillisToNanos` | lib/icp-integration.ts:361 | the nanosecond value is an exact multiple of 1000000 whose quotient is the millisecond value |
| `IcpIntegration.MillisToNanosMonotone` | lib/icp-integration.ts:361 | later instants get nanosecond values at least 1000000 larger |
| `IcpIntegration.PackCreateEscrow` | lib/icp-integration.ts:357-363 | the corrected packing from the Findings table: title, target, head count and required approvals pass through, and the release date is the exact nanosecond value. The source instead sends `MillisToNanosAsWritten` of the date |
| `Float64.Ulp` | lib/icp-integration.ts:361 | doubles are spaced 1 apart below 2^53; at or above 2^53 the spacing u is even and 2^53 * u / 2 <= n < 2^53 * u |
| `Float64.UlpInBinade` | lib/icp-integration.ts:361 | in the binade [2^53 * 2^(k-1), 2^53 * 2^k) the spacing is exactly 2^k |
| `Float64.RoundNat` | lib/icp-integration.ts:361 | rounding a non-negative integer gives one of its two neighbouring multiples of the spacing, within half the spacing; a tie goes to the even multiple; multiples of the spacing, and everything below 2^53, are unchanged |
| `Float64.Round` | lib/icp-integration.ts:361 | rounding an integer gives the neighbouring double of its magnitude, with its sign, within half the spacing; integers that are doubles, including all strictly between -2^53 and 2^53, are unchanged |
| `Float64.MultipleOf512IsExact` | lib/icp-integration.ts:361 | every multiple of 512 below 2^62 is a double |

## Findings

| source | as written | input that shows it | evidently intended | confidence | as-written member | corrected member |
|---|---|---|---|---|---|---|
| lib/icp-integration.ts:361 | `BigInt(releaseDate.getTime() * 1000000)` multiplies two doubles before the conversion, so any product above 2^53 ns (every date after mid-April 1970) is rounded to the nearest double | release date 2024-01-31T00:00:00.001Z (1706659200001 ms) is sent as 1706659200000999936 ns instead of 1706659200001000000 | the exact nanosecond value `BigInt(ms) * 1000000n` | not executed; the rounding is certain, but dates on whole seconds (multiples of 1000 ms, as a date picker gives) come out exact up to the year 2116 (`WholeSecondDatesAreExact`), so only millisecond-precise dates are affected, by at most 511 ns | `IcpIntegration.MillisToNanosAsWritten`, `IcpIntegration.AsWrittenLosesNanoseconds` | `IcpIntegration.MillisToNanos`, `IcpIntegration.PackCreateEscrow` |

## Left out

- Rendering, styling, icons, badges and the percentage funding bar (components/escrow-manager.tsx:333) are left out. They are display only, and the bar divides floating-point numbers.
- The form drafts (`newContract`, `newEmployee`) and their reset after submission are left out. The handlers take the form's current values as parameters. The edit form's field edits are one method, `ChangeEditing`, that takes the whole edited record.
- Text-to-number parsing is left out: `Number.parseInt` and `Number` on form text, including `NaN` for empty or non-numeric text. The model receives integers. A non-empty fund amount that does not parse is not modelled.
- `Date.now()` ids and `new Date().toISOString()` join dates are parameters.
- The mock contract and employee lists that seed the components are left out. The constructors take any initial list.
- `toLowerCase` is ASCII case folding. Unicode case mapping is not modelled.
- The admin-only view switches on `userRole === "employee"` (components/escrow-manager.tsx:130-141 and components/employee-management.tsx:150-161) are not modelled. Each only replaces the whole component with an "Access Restricted" card.
- The Approve, Release and Cancel buttons have no click handler in the source, so they change nothing. Only whether each is offered is modelled.
- `ICPPayrollService` network plumbing is left out: agent and actor creation, authentication, every remote `await this.actor.*` call and the fallback to `{ err }` or `[]` when a call throws. These are I/O with a collaborator that cannot be seen.
- Non-integer numbers are not modelled. In the source, `BigInt(x)` on a number that is not an integer throws a `RangeError` inside the handlers' own expressions (lib/icp-integration.ts:339 and 359-362). The `catch` blocks at lib/icp-integration.ts:343-345 and 364-366 turn that into `{ err }`. The model takes integers, so it has no such failure.
- Candid encoding of a negative `Nat` fails inside the agent library, and that failure is left out.
- The payroll canister's ledger, approval sets, payment distribution, admin checks and rate setting are left out. Only their interface signatures exist in this repository, so the variant types are declared but no behaviour is given to them.
- The token manager, the wallet connection, the page layout and the SDK configuration are not part of this model. They hold floating-point balances, timers, randomness and third-party configuration.
- `Float64.Round`: overflow to infinity above about 1.8e308 is not modelled. The products in question are far below it.
