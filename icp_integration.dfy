/** The candid-facing part of `ICPPayrollService` that is plain computation:
    the variant types of the payroll canister's interface, the optional
    arguments `updateEmployee` builds from a partial update record, and the
    millisecond-to-nanosecond release date `createEscrowContract` sends. */
module IcpIntegration {
  import opened Wrappers
  import Float64

  /** Lifecycle of an escrow contract. */
  datatype EscrowStatus = Pending | Active | Released | Cancelled

  /** Outcome of one payroll payment. */
  datatype PaymentStatus = Pending | Completed | Failed

  /** Kind of a ledger movement. */
  datatype TokenTransactionType = Mint | Burn | Transfer | Convert | FundEscrow | PayrollDistribution

  /** Outcome of one ledger movement. */
  datatype TransactionStatus = Pending | Completed | Failed

  // ---------------------------------------------------------------------------
  // updateEmployee: partial update record -> candid optionals

  /** The `updates` argument of `updateEmployee`: every field may be left undefined (`None`). */
  datatype EmployeeUpdates = EmployeeUpdates(
    name: Option<string>,
    position: Option<string>,
    salary: Option<int>,
    walletAddress: Option<string>,
    isActive: Option<bool>)

  /** The six arguments passed to the canister's `updateEmployee`. A candid
      `opt T` is written by the agent library as `[]` (absent) or `[x]`. */
  datatype UpdateEmployeeArgs = UpdateEmployeeArgs(
    employeeId: string,
    name: seq<string>,
    position: seq<string>,
    salary: seq<int>,
    walletAddress: seq<string>,
    isActive: seq<bool>)

  /** JavaScript truthiness of an optional string: defined and not `""`. */
  predicate TextTruthy(s: Option<string>)
  {
    s.Some? && s.value != ""
  }

  /** JavaScript truthiness of an optional integer: defined and not `0`. */
  predicate NumberTruthy(n: Option<int>)
  {
    n.Some? && n.value != 0
  }

  /** `v ? [v] : []` */
  function OptIfTruthy<T>(present: bool, v: Option<T>): seq<T>
    requires present ==> v.Some?
  {
    if present then [v.value] else []
  }

  /** Builds the candid arguments of `updateEmployee`. Text fields and the
      salary are sent only when truthy; `isActive` whenever it is defined. */
  function PackUpdateEmployee(employeeId: string, updates: EmployeeUpdates): (args: UpdateEmployeeArgs)
    ensures args.employeeId == employeeId
    ensures args.name == [] <==> updates.name == None || updates.name == Some("")
    ensures args.name != [] ==> args.name == [updates.name.value]
    ensures args.position == [] <==> updates.position == None || updates.position == Some("")
    ensures args.position != [] ==> args.position == [updates.position.value]
    ensures args.salary == [] <==> updates.salary == None || updates.salary == Some(0)
    ensures args.salary != [] ==> args.salary == [updates.salary.value]
    ensures args.walletAddress == [] <==> updates.walletAddress == None || updates.walletAddress == Some("")
    ensures args.walletAddress != [] ==> args.walletAddress == [updates.walletAddress.value]
    ensures args.isActive == [] <==> updates.isActive == None
    ensures args.isActive != [] ==> args.isActive == [updates.isActive.value]
  {
    UpdateEmployeeArgs(
      employeeId,
      OptIfTruthy(TextTruthy(updates.name), updates.name),
      OptIfTruthy(TextTruthy(updates.position), updates.position),
      OptIfTruthy(NumberTruthy(updates.salary), updates.salary),
      OptIfTruthy(TextTruthy(updates.walletAddress), updates.walletAddress),
      OptIfTruthy(updates.isActive.Some?, updates.isActive))
  }

  /** How a candid decoder reads an `opt T` argument back. */
  function OptionOf<T>(s: seq<T>): (o: Option<T>)
    ensures o.Some? <==> s != []
    ensures o.Some? ==> o.value == s[0]
  {
    if s == [] then None else Some(s[0])
  }

  /** The partial update a receiver of `args` sees. */
  function UnpackUpdates(args: UpdateEmployeeArgs): EmployeeUpdates
  {
    EmployeeUpdates(OptionOf(args.name), OptionOf(args.position), OptionOf(args.salary),
                    OptionOf(args.walletAddress), OptionOf(args.isActive))
  }

  /** The update with every falsy field turned into an absent one: exactly what survives packing. */
  function DropFalsy(u: EmployeeUpdates): EmployeeUpdates
  {
    EmployeeUpdates(
      if TextTruthy(u.name) then u.name else None,
      if TextTruthy(u.position) then u.position else None,
      if NumberTruthy(u.salary) then u.salary else None,
      if TextTruthy(u.walletAddress) then u.walletAddress else None,
      u.isActive)
  }

  /** Unpacking what was packed gives back the update minus its falsy fields. */
  lemma UnpackAfterPack(employeeId: string, u: EmployeeUpdates)
    ensures UnpackUpdates(PackUpdateEmployee(employeeId, u)) == DropFalsy(u)
  {
  }

  /** An update without falsy fields crosses the interface unchanged. */
  lemma PackLosslessWithoutFalsy(employeeId: string, u: EmployeeUpdates)
    requires DropFalsy(u) == u
    ensures UnpackUpdates(PackUpdateEmployee(employeeId, u)) == u
  {
    UnpackAfterPack(employeeId, u);
  }

  /** Candid arguments that use no falsy value and at most one element per
      optional are what packing produces from their own unpacking. */
  lemma PackAfterUnpack(args: UpdateEmployeeArgs)
    requires |args.name| <= 1 && |args.position| <= 1 && |args.salary| <= 1
    requires |args.walletAddress| <= 1 && |args.isActive| <= 1
    requires "" !in args.name && "" !in args.position && "" !in args.walletAddress && 0 !in args.salary
    ensures PackUpdateEmployee(args.employeeId, UnpackUpdates(args)) == args
  {
  }

  /** An explicit salary of 0 is indistinguishable from no salary at all. */
  lemma ZeroSalaryIsDropped(employeeId: string, u: EmployeeUpdates)
    ensures PackUpdateEmployee(employeeId, u.(salary := Some(0))) == PackUpdateEmployee(employeeId, u.(salary := None))
  {
  }

  /** An explicit `isActive: false` is sent, unlike the falsy text and salary fields. */
  lemma FalseIsActiveIsKept(employeeId: string, u: EmployeeUpdates)
    ensures PackUpdateEmployee(employeeId, u.(isActive := Some(false))).isActive == [false]
    ensures PackUpdateEmployee(employeeId, u.(isActive := Some(false))) != PackUpdateEmployee(employeeId, u.(isActive := None))
  {
  }

  // ---------------------------------------------------------------------------
  // createEscrowContract: release date in nanoseconds

  const NanosPerMilli: int := 1_000_000

  /** The largest magnitude of a JavaScript `Date` time value, in milliseconds. */
  const MaxTimeValue: int := 8_640_000_000_000_000

  /** `releaseDate.getTime() * 1000000` as the source evaluates it: a double
      multiplication, rounded, then converted exactly by `BigInt`. The result is
      within half a gap of the exact product, so within 511 ns for every date
      before the year 2116, and exact when the product is itself a double. */
  function MillisToNanosAsWritten(ms: int): (ns: int)
    requires -MaxTimeValue <= ms <= MaxTimeValue
    ensures var p := ms * NanosPerMilli; var u := Float64.Ulp(Float64.Abs(p));
      -(u / 2) <= ns - p <= u / 2
    ensures var p := ms * NanosPerMilli;
      Float64.Abs(p) < Float64.TwoTo53 * 512 ==> -512 < ns - p < 512
    ensures var p := ms * NanosPerMilli;
      Float64.Abs(p) % Float64.Ulp(Float64.Abs(p)) == 0 ==> ns == p
    ensures -9_007_199_254 <= ms <= 9_007_199_254 ==> ns == ms * NanosPerMilli
  {
    Float64.Round(ms * NanosPerMilli)
  }

  /** Up to 2^62 ns (the year 2116), a release date on a whole second is sent exactly. */
  lemma WholeSecondDatesAreExact(ms: int)
    requires ms % 1000 == 0
    requires -4_611_686_018_427 <= ms <= 4_611_686_018_427
    ensures MillisToNanosAsWritten(ms) == MillisToNanos(ms)
  {
    var j := ms / 1000;
    assert ms == 1000 * j;
    var a := Float64.Abs(ms * NanosPerMilli);
    var m := if j >= 0 then j * 1_953_125 else -j * 1_953_125;
    assert a == 512 * m;
    Float64.ModOfMultiple(512, m);
    Float64.MultipleOf512IsExact(a);
  }

  /** A release date one millisecond after midnight on 31 January 2024 is sent 64 ns early. */
  lemma AsWrittenLosesNanoseconds()
    ensures MillisToNanosAsWritten(1_706_659_200_001) == 1_706_659_200_000_999_936
    ensures MillisToNanosAsWritten(1_706_659_200_001) != 1_706_659_200_001 * NanosPerMilli
  {
    var n := 1_706_659_200_001_000_000;
    assert Float64.Ulp(n / 256) == 1;
    assert Float64.Ulp(n / 128) == 2;
    assert Float64.Ulp(n / 64) == 4;
    assert Float64.Ulp(n / 32) == 8;
    assert Float64.Ulp(n / 16) == 16;
    assert Float64.Ulp(n / 8) == 32;
    assert Float64.Ulp(n / 4) == 64;
    assert Float64.Ulp(n / 2) == 128;
    assert Float64.Ulp(n) == 256;
  }

  /** The release date in nanoseconds, computed exactly. */
  function MillisToNanos(ms: int): (ns: int)
    ensures ns / NanosPerMilli == ms
    ensures ns % NanosPerMilli == 0
  {
    ms * NanosPerMilli
  }

  /** The conversion keeps the order of instants and loses nothing. */
  lemma MillisToNanosMonotone(a: int, b: int)
    requires a < b
    ensures MillisToNanos(b) - MillisToNanos(a) >= NanosPerMilli
  {
    assert MillisToNanos(b) - MillisToNanos(a) == (b - a) * NanosPerMilli;
  }

  /** The five arguments passed to the canister's `createEscrowContract`. */
  datatype CreateEscrowArgs = CreateEscrowArgs(
    title: string,
    totalAmount: int,
    employeeCount: int,
    releaseDate: int,
    requiredApprovals: int)

  /** Builds the candid arguments of `createEscrowContract`; the release date goes from milliseconds to nanoseconds. */
  function PackCreateEscrow(title: string, totalAmount: int, employeeCount: int, releaseDateMs: int,
                            requiredApprovals: int): (args: CreateEscrowArgs)
    ensures args.title == title && args.totalAmount == totalAmount
    ensures args.employeeCount == employeeCount && args.requiredApprovals == requiredApprovals
    ensures args.releaseDate / NanosPerMilli == releaseDateMs && args.releaseDate % NanosPerMilli == 0
  {
    CreateEscrowArgs(title, totalAmount, employeeCount, MillisToNanos(releaseDateMs), requiredApprovals)
  }
}
