/** The read side: the lists and single records a caller may see, always
    restricted to the caller's own accounts and loans. */
module Queries {
  import opened Outcomes
  import opened Models
  import opened Ledger

  /** Page size of the entry list when no limit is given. */
  const DefaultLimit: nat := 50
  /** Page size of the bill-payment list. */
  const BillPageSize: nat := 50
  /** Number of entries on the dashboard. */
  const RecentCount: nat := 10

  function Min(a: nat, b: nat): nat { if a <= b then a else b }

  function TxAccount(t: Transaction): Id { t.accountId }
  function BillAccount(p: BillPayment): Id { p.accountId }

  /** The ids of the caller's accounts, whatever their status. */
  function OwnedIds(s: Store, caller: Id): (ids: set<Id>)
    ensures forall id :: id in ids <==> Owned(s, id, caller)
  {
    set id | id in s.accounts && s.accounts[id].userId == caller
  }

  /** The records of `xs` whose account is in `ids`, in their original order. */
  function InAccounts<T(!new)>(xs: seq<T>, accountOf: T -> Id, ids: set<Id>): (r: seq<T>)
    ensures |r| <= |xs|
    ensures forall x :: x in r <==> x in xs && accountOf(x) in ids
    decreases |xs|
  {
    if xs == [] then []
    else
      var rest := InAccounts(xs[..|xs| - 1], accountOf, ids);
      var last := xs[|xs| - 1];
      assert xs == xs[..|xs| - 1] + [last];
      if accountOf(last) in ids then rest + [last] else rest
  }

  /** `find({ accountId: { $in: ids } }).sort({ <time>: -1 }).limit(n)` over an
      append-only list: scanning from the newest end, the first `n` records of
      those accounts. The result is the matching records in reverse order, cut
      to `n`. */
  function NewestFirst<T(!new)>(xs: seq<T>, accountOf: T -> Id, ids: set<Id>, n: nat): (r: seq<T>)
    ensures var m := InAccounts(xs, accountOf, ids);
      && |r| == Min(n, |m|)
      && forall i :: 0 <= i < |r| ==> r[i] == m[|m| - 1 - i]
    decreases |xs|
  {
    if xs == [] || n == 0 then []
    else
      var last := xs[|xs| - 1];
      if accountOf(last) in ids then [last] + NewestFirst(xs[..|xs| - 1], accountOf, ids, n - 1)
      else NewestFirst(xs[..|xs| - 1], accountOf, ids, n)
  }

  /** Every record `NewestFirst` returns is a record of one of the accounts. */
  lemma NewestFirstMembers<T(!new)>(xs: seq<T>, accountOf: T -> Id, ids: set<Id>, n: nat)
    ensures forall x :: x in NewestFirst(xs, accountOf, ids, n) ==> x in xs && accountOf(x) in ids
  {
    var r := NewestFirst(xs, accountOf, ids, n);
    var m := InAccounts(xs, accountOf, ids);
    forall x | x in r
      ensures x in xs && accountOf(x) in ids
    {
      var i :| 0 <= i < |r| && r[i] == x;
      assert m[|m| - 1 - i] in m;
    }
  }

  /** When the limit is at least the number of matching records, none is lost. */
  lemma NewestFirstComplete<T(!new)>(xs: seq<T>, accountOf: T -> Id, ids: set<Id>, n: nat)
    requires |InAccounts(xs, accountOf, ids)| <= n
    ensures forall x :: x in xs && accountOf(x) in ids ==> x in NewestFirst(xs, accountOf, ids, n)
  {
    var r := NewestFirst(xs, accountOf, ids, n);
    var m := InAccounts(xs, accountOf, ids);
    forall x | x in xs && accountOf(x) in ids
      ensures x in r
    {
      var j :| 0 <= j < |m| && m[j] == x;
      assert r[|m| - 1 - j] == x;
    }
  }

  /** `.limit(parseInt(limit))` with `limit = 50` when absent. A limit of 0 means
      no limit, and a negative limit is taken by its magnitude. */
  function PageSize(limit: Option<int>, available: nat): (n: nat)
    ensures limit.None? ==> n == DefaultLimit
    ensures limit == Some(0) ==> available <= n
    ensures limit.Some? && limit.value != 0 ==> n == if limit.value < 0 then -limit.value else limit.value
  {
    match limit
    case None => DefaultLimit
    case Some(l) => if l == 0 then available else if l < 0 then -l else l
  }

  /** The entries of one owned account, or of all the caller's accounts when no
      account is named, newest first. An account that is not the caller's is
      not found, whatever its status. */
  function GetTransactions(s: Store, caller: Id, accountId: Option<Id>, limit: Option<int>)
    : (r: Result<seq<Transaction>>)
    ensures r.Err? <==> accountId.Some? && !Owned(s, accountId.value, caller)
    ensures r.Err? ==> r.error == NotFound
    ensures r.Ok? ==>
      var ids := if accountId.Some? then {accountId.value} else OwnedIds(s, caller);
      var m := InAccounts(s.transactions, TxAccount, ids);
      && |r.value| == Min(PageSize(limit, |s.transactions|), |m|)
      && (forall i :: 0 <= i < |r.value| ==> r.value[i] == m[|m| - 1 - i])
      && (forall t :: t in r.value ==> t in s.transactions && Owned(s, t.accountId, caller))
      && (accountId.Some? ==> forall t :: t in r.value ==> t.accountId == accountId.value)
      && (limit == Some(0) ==> forall t :: t in s.transactions && t.accountId in ids ==> t in r.value)
  {
    if accountId.Some? && !Owned(s, accountId.value, caller) then Err(NotFound)
    else
      var ids := if accountId.Some? then {accountId.value} else OwnedIds(s, caller);
      var n := PageSize(limit, |s.transactions|);
      NewestFirstMembers(s.transactions, TxAccount, ids, n);
      assert limit == Some(0) ==>
        forall t :: t in s.transactions && t.accountId in ids ==> t in NewestFirst(s.transactions, TxAccount, ids, n)
      by {
        if limit == Some(0) {
          NewestFirstComplete(s.transactions, TxAccount, ids, n);
        }
      }
      Ok(NewestFirst(s.transactions, TxAccount, ids, n))
  }

  /** The caller's last 50 bill payments, newest first. */
  function GetBillPayments(s: Store, caller: Id): (r: seq<BillPayment>)
    ensures var m := InAccounts(s.billPayments, BillAccount, OwnedIds(s, caller));
      && |r| == Min(BillPageSize, |m|)
      && (forall i :: 0 <= i < |r| ==> r[i] == m[|m| - 1 - i])
      && (forall p :: p in r ==> p in s.billPayments && Owned(s, p.accountId, caller))
  {
    NewestFirstMembers(s.billPayments, BillAccount, OwnedIds(s, caller), BillPageSize);
    NewestFirst(s.billPayments, BillAccount, OwnedIds(s, caller), BillPageSize)
  }

  /** The caller's accounts, whatever their status. */
  function GetAccounts(s: Store, caller: Id): (r: map<Id, Account>)
    ensures forall id :: id in r <==> Owned(s, id, caller)
    ensures forall id :: id in r ==> id in s.accounts && r[id] == s.accounts[id]
  {
    map id | id in s.accounts && s.accounts[id].userId == caller :: s.accounts[id]
  }

  /** One account, found only when the caller owns it. */
  function GetAccountById(s: Store, caller: Id, id: Id): (r: Result<Account>)
    ensures r.Ok? <==> Owned(s, id, caller)
    ensures r.Ok? ==> r.value == s.accounts[id] && r.value.userId == caller
    ensures r.Err? ==> r.error == NotFound
  {
    if id in s.accounts && s.accounts[id].userId == caller then Ok(s.accounts[id]) else Err(NotFound)
  }

  /** The caller's loans with ids below `below`, highest id first; with
      `activeOnly` only the active ones. */
  function LoansBelow(s: Store, caller: Id, below: Id, activeOnly: bool): (r: seq<Loan>)
    requires forall k :: k in s.loans ==> s.loans[k].id == k
    ensures forall loan :: loan in r <==>
      && loan.id < below && loan.id in s.loans && s.loans[loan.id] == loan && loan.userId == caller
      && (activeOnly ==> loan.status == LoanStatus.Active)
    ensures forall i, j :: 0 <= i < j < |r| ==> r[j].id < r[i].id
    decreases below
  {
    if below == 0 then []
    else
      var id := below - 1;
      var rest := LoansBelow(s, caller, id, activeOnly);
      if id in s.loans && s.loans[id].userId == caller && (!activeOnly || s.loans[id].status == LoanStatus.Active)
      then [s.loans[id]] + rest
      else rest
  }

  /** Every stored loan sits under its own id, and that id was issued. */
  lemma LoansIssued(s: Store)
    requires Valid(s)
    ensures forall loan :: loan in s.loans.Values <==>
      loan.id < s.nextLoanId && loan.id in s.loans && s.loans[loan.id] == loan
  {
    forall loan | loan in s.loans.Values
      ensures loan.id < s.nextLoanId && loan.id in s.loans && s.loans[loan.id] == loan
    {
      var k :| k in s.loans && s.loans[k] == loan;
      assert LoanWellFormed(s, s.loans[k]);
    }
  }

  /** Every loan of the caller, newest first: ids are handed out in increasing
      order, so that is highest id first. */
  function GetLoans(s: Store, caller: Id): (r: seq<Loan>)
    requires Valid(s)
    ensures forall loan :: loan in r <==> loan in s.loans.Values && loan.userId == caller
    ensures forall i, j :: 0 <= i < j < |r| ==> r[j].id < r[i].id
  {
    LoansIssued(s);
    LoansBelow(s, caller, s.nextLoanId, false)
  }

  /** One loan, found only when the caller owns it, whatever its status. */
  function GetLoanById(s: Store, caller: Id, id: Id): (r: Result<Loan>)
    ensures r.Ok? <==> id in s.loans && s.loans[id].userId == caller
    ensures r.Ok? ==> r.value == s.loans[id]
    ensures r.Err? ==> r.error == NotFound
  {
    if id in s.loans && s.loans[id].userId == caller then Ok(s.loans[id]) else Err(NotFound)
  }

  datatype Dashboard = Dashboard(
    accounts: map<Id, Account>,
    recentTransactions: seq<Transaction>,
    activeLoans: seq<Loan>,
    totalBalance: nat)

  /** The caller's accounts, their 10 newest entries, their active loans and the
      sum of their balances. */
  ghost function GetDashboard(s: Store, caller: Id): (d: Dashboard)
    requires Valid(s)
    ensures d.accounts == GetAccounts(s, caller)
    ensures d.totalBalance == BalanceSum(d.accounts)
    ensures forall id :: id in d.accounts ==> d.accounts[id].balance <= d.totalBalance
    ensures d.accounts == map[] ==> d.totalBalance == 0
    ensures var m := InAccounts(s.transactions, TxAccount, OwnedIds(s, caller));
      && |d.recentTransactions| == Min(RecentCount, |m|)
      && forall i :: 0 <= i < |d.recentTransactions| ==> d.recentTransactions[i] == m[|m| - 1 - i]
    ensures forall t :: t in d.recentTransactions ==> t in s.transactions && Owned(s, t.accountId, caller)
    ensures forall loan :: loan in d.activeLoans <==>
      loan in s.loans.Values && loan.userId == caller && loan.status == LoanStatus.Active
  {
    var accounts := GetAccounts(s, caller);
    forall id | id in accounts
      ensures accounts[id].balance <= BalanceSum(accounts)
    {
      BalanceSumPick(accounts, id);
    }
    NewestFirstMembers(s.transactions, TxAccount, OwnedIds(s, caller), RecentCount);
    LoansIssued(s);
    var loans := LoansBelow(s, caller, s.nextLoanId, true);
    Dashboard(accounts, NewestFirst(s.transactions, TxAccount, OwnedIds(s, caller), RecentCount), loans,
              BalanceSum(accounts))
  }

  /** A deposit raises the depositor's dashboard total by the amount and leaves
      every other user's total as it was. */
  lemma DepositRaisesTotal(s: Store, caller: Id, id: Id, amount: int, description: Option<string>, user: Id)
    requires Valid(s) && Ledger.Deposit(s, caller, Some(id), amount, description).0.Ok?
    ensures var s' := Ledger.Deposit(s, caller, Some(id), amount, description).1;
      GetDashboard(s', user).totalBalance
        == GetDashboard(s, user).totalBalance + (if user == caller then amount else 0)
  {
    var s' := Ledger.Deposit(s, caller, Some(id), amount, description).1;
    var before, after := GetAccounts(s, user), GetAccounts(s', user);
    if user == caller {
      assert after == before[id := s'.accounts[id]];
      BalanceSumUpdate(before, id, s'.accounts[id]);
    } else {
      assert after == before;
    }
  }
}
