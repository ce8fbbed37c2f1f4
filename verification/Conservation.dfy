/** The ETH conservation check of one block (op-monitorism/conservation_monitor). */
module Conservation {
  import opened Basics

  type Address = nat

  const L1_FEE_VAULT: Address := 0x420000000000000000000000000000000000001a
  const SEQUENCER_FEE_VAULT: Address := 0x4200000000000000000000000000000000000011
  const BASE_FEE_VAULT: Address := 0x4200000000000000000000000000000000000019
  const OPERATOR_FEE_VAULT: Address := 0x420000000000000000000000000000000000001b

  /** The four fee vaults: credited outside of execution, so no call trace shows them. */
  const VAULTS: seq<Address> := [L1_FEE_VAULT, SEQUENCER_FEE_VAULT, BASE_FEE_VAULT, OPERATOR_FEE_VAULT]

  datatype CallTrace = CallTrace(from: Address, to: Option<Address>, calls: seq<CallTrace>)

  datatype Transaction = Transaction(isDeposit: bool, mint: Option<nat>)

  datatype Block = Block(number: nat, transactions: seq<Transaction>)

  // ---------- Touched addresses ----------

  function Own(t: CallTrace): seq<Address> { [t.from] + if t.to.Some? then [t.to.value] else [] }

  function Touched(t: CallTrace): seq<Address> { Own(t) + TouchedByAll(t.calls) }

  function TouchedByAll(traces: seq<CallTrace>): seq<Address> {
    if traces == [] then [] else Touched(traces[0]) + TouchedByAll(traces[1..])
  }

  lemma {:induction false} TouchedByAllAppend(traces: seq<CallTrace>, t: CallTrace)
    ensures TouchedByAll(traces + [t]) == TouchedByAll(traces) + Touched(t)
  {
    if traces == [] {
      assert traces + [t] == [t] && [t][1..] == [];
    } else {
      TouchedByAllAppend(traces[1..], t);
      assert (traces + [t])[1..] == traces[1..] + [t];
    }
  }

  method ExtractAllTouchedAddressesRecursive(txTrace: CallTrace) returns (addresses: seq<Address>)
    ensures addresses == Touched(txTrace)
  {
    addresses := [txTrace.from];
    if txTrace.to.Some? {
      addresses := addresses + [txTrace.to.value];
    }
    for i := 0 to |txTrace.calls|
      invariant addresses == Own(txTrace) + TouchedByAll(txTrace.calls[..i])
    {
      var internalTouched := ExtractAllTouchedAddressesRecursive(txTrace.calls[i]);
      TouchedByAllAppend(txTrace.calls[..i], txTrace.calls[i]);
      assert txTrace.calls[..i + 1] == txTrace.calls[..i] + [txTrace.calls[i]];
      addresses := addresses + internalTouched;
    }
    assert txTrace.calls[..|txTrace.calls|] == txTrace.calls;
  }

  /** f is t itself or a call made, at any depth, inside it. */
  ghost predicate IsFrameOf(t: CallTrace, f: CallTrace) {
    f == t || exists i :: 0 <= i < |t.calls| && IsFrameOf(t.calls[i], f)
  }

  ghost predicate IsParty(f: CallTrace, a: Address) { f.from == a || f.to == Some(a) }

  /** The walk finds exactly the senders and receivers of all frames, at every depth. */
  lemma {:induction false} TouchedExactly(t: CallTrace, a: Address)
    ensures a in Touched(t) <==> exists f :: IsFrameOf(t, f) && IsParty(f, a)
    decreases t
  {
    TouchedByAllExactly(t.calls, a);
    if IsParty(t, a) {
      assert IsFrameOf(t, t);
      assert a in Own(t);
    }
    if a in TouchedByAll(t.calls) {
      var i, f :| 0 <= i < |t.calls| && IsFrameOf(t.calls[i], f) && IsParty(f, a);
      assert IsFrameOf(t, f);
    }
    if f :| IsFrameOf(t, f) && IsParty(f, a) {
      if f != t {
        var i :| 0 <= i < |t.calls| && IsFrameOf(t.calls[i], f);
        assert a in TouchedByAll(t.calls);
      }
    }
  }

  lemma {:induction false} TouchedByAllExactly(traces: seq<CallTrace>, a: Address)
    ensures a in TouchedByAll(traces) <==> exists i, f :: 0 <= i < |traces| && IsFrameOf(traces[i], f) && IsParty(f, a)
    decreases traces
  {
    if traces != [] {
      TouchedExactly(traces[0], a);
      TouchedByAllExactly(traces[1..], a);
      if i, f :| 0 <= i < |traces| && IsFrameOf(traces[i], f) && IsParty(f, a) {
        if i > 0 { assert traces[1..][i - 1] == traces[i]; }
      }
      if i, f :| 0 <= i < |traces[1..]| && IsFrameOf(traces[1..][i], f) && IsParty(f, a) {
        assert traces[i + 1] == traces[1..][i];
      }
    }
  }

  // ---------- Deduplication ----------

  /** The distinct elements, in the order of their first occurrence. */
  function Deduplicated<T(==, !new)>(arr: seq<T>): (r: seq<T>)
    ensures forall x :: x in r <==> x in arr
  {
    if arr == [] then []
    else
      var before, item := Deduplicated(arr[..|arr| - 1]), arr[|arr| - 1];
      if item in before then before else before + [item]
  }

  method Deduplicate<T(==, !new)>(arr: seq<T>) returns (list: seq<T>)
    ensures list == Deduplicated(arr)
  {
    var present: map<T, bool> := map[];
    list := [];
    for i := 0 to |arr|
      invariant list == Deduplicated(arr[..i])
      invariant forall x :: x in present <==> x in list
    {
      var item := arr[i];
      assert arr[..i + 1][..i] == arr[..i];
      if item !in present {
        present := present[item := true];
        list := list + [item];
      }
    }
    assert arr[..|arr|] == arr;
  }

  /** Where x first occurs. */
  ghost function First<T>(arr: seq<T>, x: T): (i: nat)
    requires x in arr
    ensures i < |arr| && arr[i] == x && x !in arr[..i]
  {
    if arr[0] == x then 0 else First(arr[1..], x) + 1
  }

  lemma {:induction false} FirstOfPrefix<T>(arr: seq<T>, n: nat, x: T)
    requires n <= |arr| && x in arr[..n]
    ensures First(arr, x) == First(arr[..n], x) < n
  {
    var i, j := First(arr, x), First(arr[..n], x);
    assert forall k :: 0 <= k < j ==> arr[..n][..j][k] == arr[k];
    assert forall k :: 0 <= k < i ==> arr[..i][k] == arr[k];
    assert arr[..n][j] == arr[j];
  }

  /** Nothing is lost, nothing is listed twice, and first occurrences keep their order. */
  lemma {:induction false} DeduplicatedExactly<T(!new)>(arr: seq<T>)
    ensures forall x :: x in Deduplicated(arr) <==> x in arr
    ensures forall i, j :: 0 <= i < j < |Deduplicated(arr)| ==>
              Deduplicated(arr)[i] != Deduplicated(arr)[j] && First(arr, Deduplicated(arr)[i]) < First(arr, Deduplicated(arr)[j])
  {
    if arr != [] {
      var n := |arr| - 1;
      DeduplicatedExactly(arr[..n]);
      var r := Deduplicated(arr);
      forall i, j | 0 <= i < j < |r| ensures r[i] != r[j] && First(arr, r[i]) < First(arr, r[j]) {
        assert r[i] in Deduplicated(arr[..n]);
        FirstOfPrefix(arr, n, r[i]);
        if r[j] in arr[..n] {
          FirstOfPrefix(arr, n, r[j]);
        }
      }
    }
  }

  // ---------- Sums over accounts ----------

  type Balances = Address -> int

  ghost function Sum(accounts: set<Address>, f: Balances): int {
    if accounts == {} then 0
    else
      var a :| a in accounts;
      f(a) + Sum(accounts - {a}, f)
  }

  /** Any account may be taken out first, so the order of summation is irrelevant. */
  lemma {:induction false} SumTakes(accounts: set<Address>, f: Balances, a: Address)
    requires a in accounts
    ensures Sum(accounts, f) == f(a) + Sum(accounts - {a}, f)
  {
    var b :| b in accounts && Sum(accounts, f) == f(b) + Sum(accounts - {b}, f);
    if a != b {
      SumTakes(accounts - {b}, f, a);
      SumTakes(accounts - {a}, f, b);
      assert accounts - {a} - {b} == accounts - {b} - {a};
    }
  }

  lemma {:induction false} SumSplits(accounts: set<Address>, part: set<Address>, f: Balances)
    requires part <= accounts
    ensures Sum(accounts, f) == Sum(part, f) + Sum(accounts - part, f)
  {
    if part == {} {
      assert accounts - part == accounts;
    } else {
      var a :| a in part;
      SumTakes(part, f, a);
      SumTakes(accounts, f, a);
      SumSplits(accounts - {a}, part - {a}, f);
      assert accounts - {a} - (part - {a}) == accounts - part;
    }
  }

  lemma {:induction false} SumAgrees(accounts: set<Address>, f: Balances, g: Balances)
    requires forall a :: a in accounts ==> f(a) == g(a)
    ensures Sum(accounts, f) == Sum(accounts, g)
  {
    if accounts != {} {
      var a :| a in accounts;
      SumTakes(accounts, f, a);
      SumTakes(accounts, g, a);
      SumAgrees(accounts - {a}, f, g);
    }
  }

  // ---------- The balance query ----------

  /** The node's reply to a batch: none, or for each element a balance or an error. */
  type Reply = Option<nat -> Option<nat>>

  function Read(element: Option<nat>): nat { if element.Some? then element.value else 0 }

  /** The balance kept for each address: that of its last element; an element error leaves zero. */
  function BalancesOf(addresses: seq<Address>, element: nat -> Option<nat>): (r: map<Address, nat>)
    ensures forall a :: a in r <==> a in addresses
  {
    if addresses == [] then map[]
    else
      var n := |addresses| - 1;
      BalancesOf(addresses[..n], element)[addresses[n] := Read(element(n))]
  }

  /** What the result objects, named by position, hold once the batch was answered. */
  function ReadAll(slot: map<Address, nat>, element: nat -> Option<nat>): map<Address, nat> {
    map a | a in slot :: Read(element(slot[a]))
  }

  /** Result objects are allocated before the call, and filled by it: the map names them by position. */
  method BatchGetBalance(addresses: seq<Address>, reply: Reply) returns (balances: Option<map<Address, nat>>)
    ensures balances == if reply.None? then None else Some(BalancesOf(addresses, reply.value))
  {
    hide SlotsAreLast, BalancesOf;
    var slot: map<Address, nat> := map[];
    NoSlots();
    for i := 0 to |addresses|
      invariant SlotsAreLast(addresses[..i], slot)
    {
      SlotsStep(addresses[..i], slot, addresses[i]);
      assert addresses[..i + 1] == addresses[..i] + [addresses[i]];
      slot := slot[addresses[i] := i];
    }
    if reply.None? {
      return None;
    }
    assert addresses[..|addresses|] == addresses;
    SlotsRead(addresses, reply.value, slot);
    balances := Some(ReadAll(slot, reply.value));
  }

  ghost predicate SlotsAreLast(addresses: seq<Address>, slot: map<Address, nat>) {
    && (forall a :: a in slot <==> a in addresses)
    && forall a :: a in slot ==> slot[a] < |addresses| && addresses[slot[a]] == a && a !in addresses[slot[a] + 1..]
  }

  lemma {:induction false} NoSlots()
    ensures SlotsAreLast([], map[])
  {
  }

  lemma {:induction false} SlotsStep(addresses: seq<Address>, slot: map<Address, nat>, a: Address)
    requires SlotsAreLast(addresses, slot)
    ensures SlotsAreLast(addresses + [a], slot[a := |addresses|])
  {
    var more, now := addresses + [a], slot[a := |addresses|];
    forall b | b in now ensures now[b] < |more| && more[now[b]] == b && b !in more[now[b] + 1..] {
      if b != a {
        assert more[now[b] + 1..] == addresses[slot[b] + 1..] + [a];
      }
    }
  }

  lemma {:induction false} SlotsRead(addresses: seq<Address>, element: nat -> Option<nat>, slot: map<Address, nat>)
    requires SlotsAreLast(addresses, slot)
    ensures ReadAll(slot, element) == BalancesOf(addresses, element)
  {
    forall a | a in slot ensures BalancesOf(addresses, element)[a] == Read(element(slot[a])) {
      LastElement(addresses, element, slot[a]);
    }
  }

  lemma {:induction false} LastElement(addresses: seq<Address>, element: nat -> Option<nat>, i: nat)
    requires i < |addresses| && addresses[i] !in addresses[i + 1..]
    ensures BalancesOf(addresses, element)[addresses[i]] == Read(element(i))
  {
    var n := |addresses| - 1;
    if i < n {
      assert addresses[n] == addresses[i + 1..][n - i - 1];
      assert addresses[..n][i + 1..] == addresses[i + 1..][..n - i - 1];
      LastElement(addresses[..n], element, i);
    }
  }

  // ---------- The check ----------

  datatype Failure = ParentBalances | CurrentBalances

  function Minted(transactions: seq<Transaction>): nat {
    if transactions == [] then 0
    else
      var n := |transactions| - 1;
      Minted(transactions[..n]) + if transactions[n].isDeposit && transactions[n].mint.Some? then transactions[n].mint.value else 0
  }

  /** The accounts looked at: all that the traces touch, then the fee vaults. */
  function Accounts(traces: seq<CallTrace>): seq<Address> { Deduplicated(TouchedByAll(traces)) + VAULTS }

  ghost function Total(balances: map<Address, nat>): int {
    Sum(balances.Keys, Lookup(balances))
  }

  /** A balance map as a function of the account. */
  function Lookup(balances: map<Address, nat>): Balances { (a: Address) => if a in balances then balances[a] else 0 }

  function Ints(balance: Address -> nat): Balances { (a: Address) => balance(a) }

  function Listed(addresses: seq<Address>): set<Address> { set a | a in addresses }

  /** The height of the parent block, in unsigned 64-bit arithmetic. */
  function Parent(number: nat): nat { if number == 0 then TWO_64 - 1 else number - 1 }

  /** What the check answers about a block, given the replies for its parent and for itself. */
  ghost function Verdict(block: Block, traces: seq<CallTrace>, parent: Reply, current: Reply): Result<bool, Failure> {
    if parent.None? then Err(ParentBalances)
    else if current.None? then Err(CurrentBalances)
    else
      Ok(Total(BalancesOf(Accounts(traces), parent.value))
         >= Total(BalancesOf(Accounts(traces), current.value)) - Minted(block.transactions))
  }

  ghost function Check(block: Block, traces: seq<CallTrace>, node: nat -> Reply): Result<bool, Failure> {
    Verdict(block, traces, node(Parent(block.number)), node(block.number))
  }

  method TotalOf(balances: map<Address, nat>) returns (total: nat)
    ensures total == Total(balances)
  {
    ghost var f := Lookup(balances);
    var todo := balances.Keys;
    total := 0;
    SumSplits(balances.Keys, {}, f);
    while todo != {}
      invariant todo <= balances.Keys && total + Sum(todo, f) == Sum(balances.Keys, f)
      decreases |todo|
    {
      var a :| a in todo;
      SumTakes(todo, f, a);
      total := total + balances[a];
      todo := todo - {a};
    }
  }

  method CheckInvariantHeld(block: Block, traces: seq<CallTrace>, node: nat -> Reply) returns (held: Result<bool, Failure>)
    requires block.number < TWO_64
    ensures held == Check(block, traces, node)
  {
    var totalMinted: int := 0;
    for i := 0 to |block.transactions|
      invariant totalMinted == Minted(block.transactions[..i])
    {
      assert block.transactions[..i + 1][..i] == block.transactions[..i];
      if block.transactions[i].isDeposit && block.transactions[i].mint.Some? {
        totalMinted := totalMinted + block.transactions[i].mint.value;
      }
    }
    assert block.transactions[..|block.transactions|] == block.transactions;
    var addresses := ExtractAllTouchedAddresses(traces);
    addresses := addresses + VAULTS;
    var balancesParent := BatchGetBalance(addresses, node(Parent(block.number)));
    if balancesParent.None? {
      return Err(ParentBalances);
    }
    var balancesCurrent := BatchGetBalance(addresses, node(block.number));
    if balancesCurrent.None? {
      return Err(CurrentBalances);
    }
    var totalBalancesParent := TotalOf(balancesParent.value);
    var totalBalancesCurrent := TotalOf(balancesCurrent.value);
    held := Ok(totalBalancesParent >= totalBalancesCurrent - totalMinted);
  }

  method ExtractAllTouchedAddresses(traces: seq<CallTrace>) returns (addresses: seq<Address>)
    ensures addresses == Deduplicated(TouchedByAll(traces))
  {
    var all: seq<Address> := [];
    for i := 0 to |traces|
      invariant all == TouchedByAll(traces[..i])
    {
      var touched := ExtractAllTouchedAddressesRecursive(traces[i]);
      TouchedByAllAppend(traces[..i], traces[i]);
      assert traces[..i + 1] == traces[..i] + [traces[i]];
      all := all + touched;
    }
    assert traces[..|traces|] == traces;
    addresses := Deduplicate(all);
  }

  // ---------- The local check and the whole state ----------

  /** The node answers each element of the batch with the true balance, or with an error. */
  ghost predicate Truthful(reply: Reply, addresses: seq<Address>, balance: Address -> nat) {
    reply.Some? && forall i :: 0 <= i < |addresses| && reply.value(i).Some? ==> reply.value(i).value == balance(addresses[i])
  }

  /** The last position of an address: the element that decides its balance. */
  ghost function LastAt(addresses: seq<Address>, a: Address): (i: nat)
    requires a in addresses
    ensures i < |addresses| && addresses[i] == a && a !in addresses[i + 1..]
  {
    var n := |addresses| - 1;
    if addresses[n] == a then n
    else
      var i := LastAt(addresses[..n], a);
      assert addresses[i + 1..] == addresses[..n][i + 1..] + [addresses[n]];
      i
  }

  /** The accounts whose deciding element failed: they count as empty. */
  ghost function Unread(addresses: seq<Address>, element: nat -> Option<nat>): set<Address> {
    set a | a in addresses && element(LastAt(addresses, a)).None?
  }

  lemma {:induction false} ReadOrEmpty(addresses: seq<Address>, reply: Reply, balance: Address -> nat, a: Address)
    requires Truthful(reply, addresses, balance) && a in addresses
    ensures BalancesOf(addresses, reply.value)[a] == if a in Unread(addresses, reply.value) then 0 else balance(a)
  {
    LastElement(addresses, reply.value, LastAt(addresses, a));
  }

  /** Each address is counted once, however often it is listed; those that could not be read count as empty. */
  lemma {:induction false} TotalIsSum(addresses: seq<Address>, reply: Reply, balance: Address -> nat)
    requires Truthful(reply, addresses, balance)
    ensures Total(BalancesOf(addresses, reply.value))
         == Sum(Listed(addresses), Ints(balance)) - Sum(Unread(addresses, reply.value), Ints(balance))
  {
    var r, all, unread := BalancesOf(addresses, reply.value), Listed(addresses), Unread(addresses, reply.value);
    assert r.Keys == all && unread <= all;
    forall a | a in addresses ensures r[a] == if a in unread then 0 else balance(a) {
      ReadOrEmpty(addresses, reply, balance, a);
    }
    SumSplits(all, unread, Lookup(r));
    SumSplits(all, unread, Ints(balance));
    SumBounds(unread, Lookup(r));
    SumAgrees(all - unread, Lookup(r), Ints(balance));
  }

  /** What the deposits of a block mint: the sum over the positions of all deposits that mint. */
  ghost function MintedByDeposits(transactions: seq<Transaction>): int {
    Sum(DepositMints(transactions), MintAt(transactions))
  }

  ghost function DepositMints(transactions: seq<Transaction>): set<nat> {
    set i: nat | i < |transactions| && transactions[i].isDeposit && transactions[i].mint.Some?
  }

  function MintAt(transactions: seq<Transaction>): nat -> int {
    (i: nat) => if i < |transactions| && transactions[i].mint.Some? then transactions[i].mint.value else 0
  }

  lemma {:induction false} MintedExactly(transactions: seq<Transaction>)
    ensures Minted(transactions) == MintedByDeposits(transactions)
  {
    if transactions != [] {
      var n := |transactions| - 1;
      var before, all := DepositMints(transactions[..n]), DepositMints(transactions);
      MintedExactly(transactions[..n]);
      SumAgrees(before, MintAt(transactions[..n]), MintAt(transactions));
      if transactions[n].isDeposit && transactions[n].mint.Some? {
        assert all == before + {n};
        SumTakes(all, MintAt(transactions), n);
        assert all - {n} == before;
      } else {
        assert all == before;
      }
    }
  }

  /** Some frame of the block's execution has this account as a party, or it is a fee vault. */
  ghost predicate SeenByCheck(traces: seq<CallTrace>, a: Address) {
    || a == 0x420000000000000000000000000000000000001a || a == 0x4200000000000000000000000000000000000011
    || a == 0x4200000000000000000000000000000000000019 || a == 0x420000000000000000000000000000000000001b
    || exists i, f :: 0 <= i < |traces| && IsFrameOf(traces[i], f) && IsParty(f, a)
  }

  lemma {:induction false} AccountsExactly(traces: seq<CallTrace>, a: Address)
    ensures a in Accounts(traces) <==> SeenByCheck(traces, a)
  {
    TouchedByAllExactly(traces, a);
  }

  lemma {:induction false} ListedAll(addresses: seq<Address>, all: set<Address>)
    requires forall a :: a in addresses ==> a in all
    ensures Listed(addresses) <= all
  {
  }

  /**
   The check's verdict on the whole state, whatever it looked at and could read: it is the global
   inequality, corrected by the accounts it did not look at and by those it could not read.
  */
  lemma {:induction false} VerdictExactly(block: Block, traces: seq<CallTrace>, before: Reply, after: Reply, all: set<Address>,
                                          parent: Address -> nat, current: Address -> nat)
    requires Truthful(before, Accounts(traces), parent) && Truthful(after, Accounts(traces), current)
    requires forall a :: a in Accounts(traces) ==> a in all
    ensures var unseen := all - Listed(Accounts(traces));
            var unreadBefore, unreadAfter := Unread(Accounts(traces), before.value), Unread(Accounts(traces), after.value);
            Verdict(block, traces, before, after) ==
            Ok(Sum(all, Ints(parent)) - Sum(unseen, Ints(parent)) - Sum(unreadBefore, Ints(parent))
               >= Sum(all, Ints(current)) - Sum(unseen, Ints(current)) - Sum(unreadAfter, Ints(current)) - MintedByDeposits(block.transactions))
  {
    hide Accounts, BalancesOf, Total, Sum, Listed, Minted, MintedByDeposits, Unread;
    MintedExactly(block.transactions);
    var seen := Listed(Accounts(traces));
    ListedAll(Accounts(traces), all);
    TotalIsSum(Accounts(traces), before, parent);
    TotalIsSum(Accounts(traces), after, current);
    SumSplits(all, seen, Ints(parent));
    SumSplits(all, seen, Ints(current));
  }

  /** Only accounts that the check sees changed. */
  ghost predicate ChangesSeen(traces: seq<CallTrace>, all: set<Address>, parent: Address -> nat, current: Address -> nat) {
    forall a :: a in all && parent(a) != current(a) ==> SeenByCheck(traces, a)
  }

  /** The ETH of all accounts did not grow beyond what was minted. */
  ghost predicate Conserved(block: Block, all: set<Address>, parent: Address -> nat, current: Address -> nat) {
    Sum(all, Ints(parent)) + MintedByDeposits(block.transactions) >= Sum(all, Ints(current))
  }

  /**
   The local check is the global one: if every account whose balance changed is seen by the check
   and could be read, the check holds exactly if ETH is conserved over all accounts.
  */
  lemma {:induction false} LocalIsGlobal(block: Block, traces: seq<CallTrace>, before: Reply, after: Reply, all: set<Address>,
                                         parent: Address -> nat, current: Address -> nat)
    requires Truthful(before, Accounts(traces), parent) && Truthful(after, Accounts(traces), current)
    requires Unread(Accounts(traces), before.value) == {} && Unread(Accounts(traces), after.value) == {}
    requires forall a :: SeenByCheck(traces, a) ==> a in all
    requires ChangesSeen(traces, all, parent, current)
    ensures Verdict(block, traces, before, after) == Ok(Conserved(block, all, parent, current))
  {
    hide Accounts, BalancesOf, Total, Truthful, Unread, Verdict, MintedByDeposits, SeenByCheck;
    forall a ensures a in Accounts(traces) <==> SeenByCheck(traces, a) {
      AccountsExactly(traces, a);
    }
    VerdictExactly(block, traces, before, after, all, parent, current);
    SumAgrees(all - Listed(Accounts(traces)), Ints(parent), Ints(current));
  }

  /** The node answers every element of both batches with the true balances at these heights. */
  ghost predicate NodeKnows(node: nat -> Reply, addresses: seq<Address>, height: nat, balance: Address -> nat) {
    && Truthful(node(height), addresses, balance)
    && forall i :: 0 <= i < |addresses| ==> node(height).value(i).Some?
  }

  /**
   End to end: of a block after genesis, the check says whether the ETH of all accounts, from the state
   at the height before the block to the state at its own height, grew by no more than its deposits minted.
  */
  lemma {:induction false} CheckIsConservation(block: Block, traces: seq<CallTrace>, node: nat -> Reply, all: set<Address>,
                                               state: nat -> (Address -> nat))
    requires block.number > 0
    requires NodeKnows(node, Accounts(traces), block.number - 1, state(block.number - 1))
    requires NodeKnows(node, Accounts(traces), block.number, state(block.number))
    requires forall a :: SeenByCheck(traces, a) ==> a in all
    requires ChangesSeen(traces, all, state(block.number - 1), state(block.number))
    ensures Check(block, traces, node) == Ok(Conserved(block, all, state(block.number - 1), state(block.number)))
  {
    hide Accounts, Truthful, Verdict, SeenByCheck, Conserved, ChangesSeen;
    AllRead(Accounts(traces), node(block.number - 1), state(block.number - 1));
    AllRead(Accounts(traces), node(block.number), state(block.number));
    LocalIsGlobal(block, traces, node(block.number - 1), node(block.number), all, state(block.number - 1), state(block.number));
  }

  /** Of the genesis block the check asks for the state at the last height there is, since the height wraps around. */
  lemma {:induction false} GenesisAsksForLastHeight(block: Block, traces: seq<CallTrace>, node: nat -> Reply)
    requires block.number == 0 && node(0xFFFF_FFFF_FFFF_FFFF).None?
    ensures Check(block, traces, node) == Err(ParentBalances)
  {
  }

  lemma {:induction false} AllRead(addresses: seq<Address>, reply: Reply, balance: Address -> nat)
    requires Truthful(reply, addresses, balance) && forall i :: 0 <= i < |addresses| ==> reply.value(i).Some?
    ensures Unread(addresses, reply.value) == {}
  {
  }

  lemma {:induction false} SumBounds(accounts: set<Address>, f: Balances)
    requires forall a :: a in accounts ==> f(a) >= 0
    ensures Sum(accounts, f) >= 0
    ensures (forall a :: a in accounts ==> f(a) == 0) ==> Sum(accounts, f) == 0
  {
    if accounts != {} {
      var a :| a in accounts;
      SumTakes(accounts, f, a);
      SumBounds(accounts - {a}, f);
    }
  }

  // ---- Failed elements ----

  /** The reply of a node that answers truly except for the elements that fail. */
  function ReplyOf(addresses: seq<Address>, balance: Address -> nat, fails: nat -> bool): Reply {
    Some((i: nat) => if i < |addresses| && !fails(i) then Some(balance(addresses[i])) else None)
  }

  /** Whatever the balances, with only seen accounts changing, the verdict is the global one. */
  ghost predicate AlwaysGlobal(block: Block, traces: seq<CallTrace>, all: set<Address>, failsBefore: nat -> bool, failsAfter: nat -> bool) {
    forall parent: Address -> nat, current: Address -> nat ::
      ChangesSeen(traces, all, parent, current) ==> GlobalVerdict(block, traces, all, failsBefore, failsAfter, parent, current)
  }

  ghost predicate GlobalVerdict(block: Block, traces: seq<CallTrace>, all: set<Address>, failsBefore: nat -> bool, failsAfter: nat -> bool,
                                parent: Address -> nat, current: Address -> nat) {
    Verdict(block, traces, ReplyOf(Accounts(traces), parent, failsBefore), ReplyOf(Accounts(traces), current, failsAfter))
    == Ok(Conserved(block, all, parent, current))
  }

  /** No element that decides an account's balance failed. */
  ghost predicate DecidersAnswered(addresses: seq<Address>, fails: nat -> bool) {
    forall a :: a in addresses ==> !fails(LastAt(addresses, a))
  }

  lemma {:induction false} UnreadExactly(addresses: seq<Address>, balance: Address -> nat, fails: nat -> bool)
    ensures var reply := ReplyOf(addresses, balance, fails);
            && Truthful(reply, addresses, balance)
            && forall a :: a in Unread(addresses, reply.value) <==> a in addresses && fails(LastAt(addresses, a))
  {
    var element := ReplyOf(addresses, balance, fails).value;
    assert forall i: nat :: element(i) == if i < |addresses| && !fails(i) then Some(balance(addresses[i])) else None;
  }

  /** All of the ETH belongs to one account. */
  function Only(owner: Address, amount: nat): Address -> nat { (a: Address) => if a == owner then amount else 0 }

  lemma {:induction false} SumOnly(accounts: set<Address>, owner: Address, amount: nat)
    ensures Sum(accounts, Ints(Only(owner, amount))) == if owner in accounts then amount else 0
  {
    var f := Ints(Only(owner, amount));
    SumBounds(accounts - {owner}, f);
    if owner in accounts {
      SumTakes(accounts, f, owner);
    } else {
      assert accounts - {owner} == accounts;
    }
  }

  /** The verdict when one account owns everything, before and after. */
  lemma {:induction false} OneOwner(block: Block, traces: seq<CallTrace>, all: set<Address>, failsBefore: nat -> bool, failsAfter: nat -> bool,
                                    owner: Address, had: nat, has: nat)
    requires (forall a :: a in Accounts(traces) ==> a in all) && owner in Accounts(traces)
    ensures var i := LastAt(Accounts(traces), owner);
            GlobalVerdict(block, traces, all, failsBefore, failsAfter, Only(owner, had), Only(owner, has)) <==>
            (((if failsBefore(i) then 0 else had) >= (if failsAfter(i) then 0 else has) - MintedByDeposits(block.transactions))
             <==> had >= has - MintedByDeposits(block.transactions))
  {
    hide Accounts, Total, Sum, Listed, MintedByDeposits, Unread, Truthful, Verdict, ReplyOf, LastAt;
    var accounts := Accounts(traces);
    var before, after := ReplyOf(accounts, Only(owner, had), failsBefore), ReplyOf(accounts, Only(owner, has), failsAfter);
    UnreadExactly(accounts, Only(owner, had), failsBefore);
    UnreadExactly(accounts, Only(owner, has), failsAfter);
    VerdictExactly(block, traces, before, after, all, Only(owner, had), Only(owner, has));
    OnlySums(all, accounts, Unread(accounts, before.value), owner, had);
    OnlySums(all, accounts, Unread(accounts, after.value), owner, has);
  }

  lemma {:induction false} OnlySums(all: set<Address>, accounts: seq<Address>, unread: set<Address>, owner: Address, amount: nat)
    requires owner in accounts && owner in all
    ensures Sum(all, Ints(Only(owner, amount))) == amount
    ensures Sum(all - Listed(accounts), Ints(Only(owner, amount))) == 0
    ensures Sum(unread, Ints(Only(owner, amount))) == if owner in unread then amount else 0
  {
    SumOnly(all, owner, amount);
    SumOnly(all - Listed(accounts), owner, amount);
    SumOnly(unread, owner, amount);
  }

  /**
   Failed elements, exactly: the verdict is the global one for all balances if and only if, in both
   batches, the deciding element of every account was answered. Otherwise some balances make the
   check report a creation of ETH that did not happen or hide one that did.
  */
  lemma {:induction false} GlobalExactlyIfAnswered(block: Block, traces: seq<CallTrace>, all: set<Address>,
                                                   failsBefore: nat -> bool, failsAfter: nat -> bool)
    requires forall a :: SeenByCheck(traces, a) ==> a in all
    ensures AlwaysGlobal(block, traces, all, failsBefore, failsAfter) <==>
            DecidersAnswered(Accounts(traces), failsBefore) && DecidersAnswered(Accounts(traces), failsAfter)
  {
    hide Accounts, Minted, MintedByDeposits, Conserved, Unread, Truthful, Verdict, ReplyOf, LastAt, SeenByCheck;
    var accounts := Accounts(traces);
    forall a ensures a in accounts <==> SeenByCheck(traces, a) {
      AccountsExactly(traces, a);
    }
    if DecidersAnswered(accounts, failsBefore) && DecidersAnswered(accounts, failsAfter) {
      forall parent: Address -> nat, current: Address -> nat | ChangesSeen(traces, all, parent, current)
        ensures GlobalVerdict(block, traces, all, failsBefore, failsAfter, parent, current)
      {
        UnreadExactly(accounts, parent, failsBefore);
        UnreadExactly(accounts, current, failsAfter);
        LocalIsGlobal(block, traces, ReplyOf(accounts, parent, failsBefore), ReplyOf(accounts, current, failsAfter), all, parent, current);
      }
    } else {
      var minted := Minted(block.transactions);
      MintedExactly(block.transactions);
      var a :| a in accounts && (failsBefore(LastAt(accounts, a)) || failsAfter(LastAt(accounts, a)));
      var had := if failsAfter(LastAt(accounts, a)) then 0 else minted + 1;
      OneOwner(block, traces, all, failsBefore, failsAfter, a, had, minted + 1);
      assert ChangesSeen(traces, all, Only(a, had), Only(a, minted + 1));
      assert !GlobalVerdict(block, traces, all, failsBefore, failsAfter, Only(a, had), Only(a, minted + 1));
    }
  }

  /**
   Errors of single elements are not looked at, and leave a balance of zero: when the batch for the
   current block is answered but all of its elements failed, the check holds whatever was created.
  */
  lemma {:induction false} FailedElementsHideCreation(block: Block, traces: seq<CallTrace>, node: nat -> Reply)
    requires node(Parent(block.number)).Some? && node(block.number).Some?
    requires forall i :: node(block.number).value(i) == None
    ensures Check(block, traces, node) == Ok(true)
  {
    var parent := BalancesOf(Accounts(traces), node(Parent(block.number)).value);
    var current := BalancesOf(Accounts(traces), node(block.number).value);
    FailedElements(Accounts(traces), node(block.number).value);
    SumBounds(parent.Keys, Lookup(parent));
    SumBounds(current.Keys, Lookup(current));
  }

  lemma {:induction false} FailedElements(addresses: seq<Address>, element: nat -> Option<nat>)
    requires forall i :: element(i) == None
    ensures forall a :: a in addresses ==> BalancesOf(addresses, element)[a] == 0
  {
    if addresses != [] {
      FailedElements(addresses[..|addresses| - 1], element);
    }
  }
}
