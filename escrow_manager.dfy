/** The escrow board of the admin dashboard: a list of payroll escrow
    contracts held in component state, the creation and funding handlers that
    replace that list, and the rules that decide which of Fund, Approve,
    Release and Cancel each contract offers. */
module EscrowManager {
  import opened Wrappers
  import opened Seqs
  import opened IcpIntegration

  /** One escrow contract as the board keeps it. `approvals` is a counter. */
  datatype Contract = Contract(
    id: string,
    title: string,
    totalAmount: int,
    fundedAmount: int,
    employeeCount: int,
    releaseDate: string,
    status: EscrowStatus,
    approvals: int,
    requiredApprovals: int)

  /** Every contract created from the board needs this many approvals. */
  const DefaultRequiredApprovals: int := 3

  /** The funding invariant the board's own controls assume: the fund input
      caps an amount at what remains (`max` in components/escrow-manager.tsx:392),
      so funding stays within the target, and funding activates a contract only
      once the target is reached. */
  predicate WellFunded(c: Contract)
  {
    0 <= c.fundedAmount <= c.totalAmount && (c.status == EscrowStatus.Active ==> c.fundedAmount == c.totalAmount)
  }

  // ---------------------------------------------------------------------------
  // Which actions a contract offers

  /** The buttons shown under a contract. */
  datatype Actions = Actions(fund: bool, approve: bool, release: bool, cancel: bool)

  /** The action bar of one contract card. */
  function Offered(c: Contract): (a: Actions)
    ensures a.fund <==> c.fundedAmount < c.totalAmount
    ensures a.approve || a.release <==> c.status == EscrowStatus.Active
    ensures !(a.approve && a.release)
    ensures a.approve ==> c.approvals < c.requiredApprovals
    ensures a.release ==> c.approvals >= c.requiredApprovals
    ensures a.cancel <==> c.status == EscrowStatus.Pending
    ensures a.cancel ==> !a.approve && !a.release
  {
    Actions(
      fund := c.fundedAmount < c.totalAmount,
      approve := c.status == EscrowStatus.Active && c.approvals < c.requiredApprovals,
      release := c.status == EscrowStatus.Active && c.approvals >= c.requiredApprovals,
      cancel := c.status == EscrowStatus.Pending)
  }

  // ---------------------------------------------------------------------------
  // Creation

  /** The contract `handleCreateContract` builds from the form: nothing funded,
      no approvals, so it can be funded (if its target is positive) or cancelled,
      never approved or released, and it meets the funding invariant exactly
      when its target is not negative. */
  function NewContract(id: string, title: string, totalAmount: int, employeeCount: int, releaseDate: string): (c: Contract)
    ensures c.id == id && c.title == title && c.totalAmount == totalAmount
    ensures c.employeeCount == employeeCount && c.releaseDate == releaseDate
    ensures Offered(c) == Actions(fund := totalAmount > 0, approve := false, release := false, cancel := true)
    ensures WellFunded(c) <==> totalAmount >= 0
    ensures c.status != EscrowStatus.Active
  {
    Contract(id, title, totalAmount, 0, employeeCount, releaseDate, EscrowStatus.Pending, 0, DefaultRequiredApprovals)
  }

  // ---------------------------------------------------------------------------
  // Funding

  /** `Math.min`. */
  function Min(a: int, b: int): (m: int)
    ensures m <= a && m <= b && (m == a || m == b)
  {
    if a <= b then a else b
  }

  /** One contract after receiving `amount`: the funded amount is clamped to the
      target, and reaching the target (before clamping) makes it active. */
  function Fund(c: Contract, amount: int): (d: Contract)
    ensures d.fundedAmount <= c.totalAmount
    ensures c.fundedAmount + amount <= c.totalAmount ==> d.fundedAmount == c.fundedAmount + amount
    ensures c.fundedAmount + amount >= c.totalAmount ==> d.fundedAmount == c.totalAmount && d.status == EscrowStatus.Active
    ensures c.fundedAmount + amount < c.totalAmount ==> d.status == c.status
    ensures d.(fundedAmount := c.fundedAmount, status := c.status) == c
  {
    c.(fundedAmount := Min(c.fundedAmount + amount, c.totalAmount),
       status := if c.fundedAmount + amount >= c.totalAmount then EscrowStatus.Active else c.status)
  }

  /** A status change made by funding is always to active, at full funding. */
  lemma FundActivatesOnlyAtTarget(c: Contract, amount: int)
    requires Fund(c, amount).status != c.status
    ensures Fund(c, amount).status == EscrowStatus.Active
    ensures Fund(c, amount).fundedAmount == c.totalAmount
  {
  }

  /** Overfunding still activates the contract; the excess is dropped. */
  lemma OverfundingClamps(c: Contract, amount: int)
    requires c.fundedAmount + amount > c.totalAmount
    ensures Fund(c, amount).fundedAmount == c.totalAmount < c.fundedAmount + amount
    ensures Fund(c, amount).status == EscrowStatus.Active
  {
  }

  /** With a non-negative amount the funded amount never goes down. */
  lemma FundNeverDecreases(c: Contract, amount: int)
    requires amount >= 0 && c.fundedAmount <= c.totalAmount
    ensures c.fundedAmount <= Fund(c, amount).fundedAmount <= c.totalAmount
  {
  }

  /** No sign check exists: a negative amount lowers the funded amount. */
  lemma NegativeAmountLowersFunding(c: Contract, amount: int)
    requires amount < 0 && c.fundedAmount <= c.totalAmount
    ensures Fund(c, amount).fundedAmount < c.fundedAmount
  {
  }

  /** Funding with a non-negative amount preserves the funding invariant. */
  lemma FundPreservesWellFunded(c: Contract, amount: int)
    requires WellFunded(c) && amount >= 0
    ensures WellFunded(Fund(c, amount))
  {
  }

  /** No status check exists: a released or cancelled contract that is funded up to its target becomes active again. */
  lemma FundReopensClosedContract(c: Contract)
    requires c.status == EscrowStatus.Released || c.status == EscrowStatus.Cancelled
    requires c.fundedAmount < c.totalAmount
    ensures Offered(c).fund
    ensures Fund(c, c.totalAmount - c.fundedAmount).status == EscrowStatus.Active
  {
  }

  /** After funding to the target, Fund is withdrawn and Approve or Release is offered. */
  lemma FullFundingOffersApproval(c: Contract, amount: int)
    requires c.fundedAmount + amount >= c.totalAmount
    ensures !Offered(Fund(c, amount)).fund
    ensures Offered(Fund(c, amount)).approve || Offered(Fund(c, amount)).release
  {
  }

  /** The list after funding: every contract whose id is `selected` is funded, the others are kept. */
  function FundSelected(cs: seq<Contract>, selected: string, amount: int): (r: seq<Contract>)
    ensures |r| == |cs|
    ensures forall i :: 0 <= i < |cs| && cs[i].id == selected ==> r[i] == Fund(cs[i], amount)
    ensures forall i :: 0 <= i < |cs| && cs[i].id != selected ==> r[i] == cs[i]
  {
    if cs == [] then []
    else [if cs[0].id == selected then Fund(cs[0], amount) else cs[0]] + FundSelected(cs[1..], selected, amount)
  }

  /** Funding an id that no contract carries leaves the list as it was. */
  lemma FundUnknownIdIsNoOp(cs: seq<Contract>, selected: string, amount: int)
    requires forall c :: c in cs ==> c.id != selected
    ensures FundSelected(cs, selected, amount) == cs
  {
  }

  /** Ids are kept, so a contract found by id before funding is found at the same place after. */
  lemma FundKeepsIds(cs: seq<Contract>, selected: string, amount: int)
    ensures forall i :: 0 <= i < |cs| ==> FundSelected(cs, selected, amount)[i].id == cs[i].id
  {
  }

  // ---------------------------------------------------------------------------
  // Active contract count

  /** The contracts whose status is active, in list order. */
  function ActiveContracts(cs: seq<Contract>): (r: seq<Contract>)
    ensures |r| <= |cs|
    ensures IsSubsequence(r, cs)
    ensures forall c :: multiset(r)[c] == if c.status == EscrowStatus.Active then multiset(cs)[c] else 0
  {
    if cs == [] then []
    else
      var rest := ActiveContracts(cs[1..]);
      assert cs == [cs[0]] + cs[1..];
      if cs[0].status == EscrowStatus.Active then [cs[0]] + rest
      else
        ActiveHeadDiffers(rest, cs[0]);
        rest
  }

  lemma ActiveHeadDiffers(rest: seq<Contract>, c: Contract)
    requires c.status != EscrowStatus.Active
    requires forall d :: multiset(rest)[d] > 0 ==> d.status == EscrowStatus.Active
    ensures rest != [] ==> rest[0] != c
  {
    if rest != [] {
      assert multiset(rest)[rest[0]] > 0;
    }
  }

  /** The "Active Contracts" figure. */
  function ActiveCount(cs: seq<Contract>): (n: nat)
    ensures n <= |cs|
  {
    |ActiveContracts(cs)|
  }

  /** Creating a contract does not change the active count. */
  lemma {:induction false} ActiveCountAfterCreate(cs: seq<Contract>, c: Contract)
    requires c.status == EscrowStatus.Pending
    ensures ActiveCount(cs + [c]) == ActiveCount(cs)
    decreases |cs|
  {
    if cs != [] {
      assert (cs + [c])[1..] == cs[1..] + [c];
      ActiveCountAfterCreate(cs[1..], c);
    }
  }

  /** Funding never lowers the active count. */
  lemma {:induction false} ActiveCountAfterFund(cs: seq<Contract>, selected: string, amount: int)
    ensures ActiveCount(cs) <= ActiveCount(FundSelected(cs, selected, amount))
    decreases |cs|
  {
    if cs != [] {
      var r := FundSelected(cs, selected, amount);
      assert r[1..] == FundSelected(cs[1..], selected, amount);
      ActiveCountAfterFund(cs[1..], selected, amount);
    }
  }

  // ---------------------------------------------------------------------------
  // The component state

  /** The state of the escrow board: the contract list, the contract whose fund
      dialog is open, the amount typed into it (`None` while the field is empty)
      and the two dialog flags. */
  class EscrowBoard {
    var contracts: seq<Contract>
    var selected: Option<string>
    var fundAmount: Option<int>
    var fundDialogOpen: bool
    var createDialogOpen: bool

    constructor (initial: seq<Contract>)
      ensures contracts == initial
      ensures selected == None && fundAmount == None
      ensures !fundDialogOpen && !createDialogOpen
    {
      contracts := initial;
      selected := None;
      fundAmount := None;
      fundDialogOpen := false;
      createDialogOpen := false;
    }

    /** `handleCreateContract`: appends a new pending contract and closes the create dialog. */
    method CreateContract(id: string, title: string, totalAmount: int, employeeCount: int, releaseDate: string)
      modifies this
      ensures contracts == old(contracts) + [NewContract(id, title, totalAmount, employeeCount, releaseDate)]
      ensures |contracts| == |old(contracts)| + 1 && contracts[..|old(contracts)|] == old(contracts)
      ensures var c := contracts[|old(contracts)|];
        && c.id == id && c.title == title && c.totalAmount == totalAmount
        && c.employeeCount == employeeCount && c.releaseDate == releaseDate
        && c.fundedAmount == 0 && c.status == EscrowStatus.Pending
        && c.approvals == 0 && c.requiredApprovals == DefaultRequiredApprovals
      ensures ActiveCount(contracts) == ActiveCount(old(contracts))
      ensures !createDialogOpen
      ensures selected == old(selected) && fundAmount == old(fundAmount) && fundDialogOpen == old(fundDialogOpen)
    {
      var c := NewContract(id, title, totalAmount, employeeCount, releaseDate);
      ActiveCountAfterCreate(contracts, c);
      contracts := contracts + [c];
      createDialogOpen := false;
    }

    /** The create dialog's `onOpenChange`. */
    method ChangeCreateDialog(open: bool)
      modifies this
      ensures createDialogOpen == open
      ensures contracts == old(contracts) && selected == old(selected)
      ensures fundAmount == old(fundAmount) && fundDialogOpen == old(fundDialogOpen)
    {
      createDialogOpen := open;
    }

    /** The fund dialog's `onOpenChange` for the contract `id`: opening selects it, closing clears the selection. */
    method ChangeFundDialog(open: bool, id: string)
      modifies this
      ensures fundDialogOpen == open
      ensures selected == if open then Some(id) else None
      ensures contracts == old(contracts) && fundAmount == old(fundAmount) && createDialogOpen == old(createDialogOpen)
    {
      fundDialogOpen := open;
      selected := if open then Some(id) else None;
    }

    /** The amount field's `onChange`. */
    method ChangeFundAmount(amount: Option<int>)
      modifies this
      ensures fundAmount == amount
      ensures contracts == old(contracts) && selected == old(selected)
      ensures fundDialogOpen == old(fundDialogOpen) && createDialogOpen == old(createDialogOpen)
    {
      fundAmount := amount;
    }

    /** `handleFundContract`: with a contract selected and an amount entered, funds
        every contract carrying the selected id, then clears the dialog; otherwise does nothing. */
    method FundContract()
      modifies this
      ensures var go := old(selected).Some? && old(selected).value != "" && old(fundAmount).Some?;
        if go then
          && contracts == FundSelected(old(contracts), old(selected).value, old(fundAmount).value)
          && selected == None && fundAmount == None && !fundDialogOpen
          && createDialogOpen == old(createDialogOpen)
        else
          && contracts == old(contracts) && selected == old(selected) && fundAmount == old(fundAmount)
          && fundDialogOpen == old(fundDialogOpen) && createDialogOpen == old(createDialogOpen)
      ensures |contracts| == |old(contracts)|
      ensures ActiveCount(old(contracts)) <= ActiveCount(contracts)
    {
      if selected.Some? && selected.value != "" && fundAmount.Some? {
        ActiveCountAfterFund(contracts, selected.value, fundAmount.value);
        contracts := FundSelected(contracts, selected.value, fundAmount.value);
        fundAmount := None;
        fundDialogOpen := false;
        selected := None;
      }
    }

    /** "Fund from ICP Wallet": closes the fund dialog and funds nothing; the
        selection and the typed amount are kept. */
    method FundFromWallet()
      modifies this
      ensures !fundDialogOpen
      ensures contracts == old(contracts) && selected == old(selected)
      ensures fundAmount == old(fundAmount) && createDialogOpen == old(createDialogOpen)
    {
      fundDialogOpen := false;
    }
  }
}
