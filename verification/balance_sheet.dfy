/**
  The settlement handler of components/BalanceSheet.tsx: a person whose
  computed final balance is negative has exactly that debt added to their
  initial balance, which brings the recomputed final balance to zero.

  The source looks the person up among the rows the calculator produced;
  here the rows are recomputed from the store, which is what the caller
  passes in. The confirmation dialog is the boolean `confirmed`.
 */
module BalanceSheet {
  import opened Types
  import opened MainApp

  /** `rows.find(p => p.id === id)`, as the index of the first matching row. */
  function FindRow(rows: seq<CalculatedBalance>, id: string): (r: Option<nat>)
    ensures r.None? <==> forall k :: 0 <= k < |rows| ==> rows[k].id != id
    ensures r.Some? ==> r.value < |rows| && rows[r.value].id == id
    ensures r.Some? ==> forall k :: 0 <= k < r.value ==> rows[k].id != id
  {
    if rows == [] then None
    else if rows[0].id == id then Some(0)
    else match FindRow(rows[1..], id)
      case None => None
      case Some(k) => Some(k + 1)
  }

  /** The lookup depends only on the ids of the rows. */
  lemma {:induction false} FindRowByIds(a: seq<CalculatedBalance>, b: seq<CalculatedBalance>, id: string)
    requires |a| == |b|
    requires forall k :: 0 <= k < |a| ==> a[k].id == b[k].id
    ensures FindRow(a, id) == FindRow(b, id)
  {
    if a != [] && a[0].id != id {
      FindRowByIds(a[1..], b[1..], id);
    }
  }

  /** `-finalBalance` of the row found for `id`; None when there is no
      such row or its final balance is not negative, the two cases the
      handler refuses. */
  function SettlementAmount(rows: seq<CalculatedBalance>, id: string): (a: Option<real>)
    ensures a.Some? <==> FindRow(rows, id).Some? && rows[FindRow(rows, id).value].finalBalance < 0.0
    ensures a.Some? ==> a.value > 0.0 && a.value == -rows[FindRow(rows, id).value].finalBalance
  {
    match FindRow(rows, id)
    case None => None
    case Some(k) => if rows[k].finalBalance >= 0.0 then None else Some(-rows[k].finalBalance)
  }

  /** `people.map(p => p.id === id ? {...p, initialBalance: p.initialBalance + amount} : p)`. */
  function Credit(people: seq<Person>, id: string, amount: real): (r: seq<Person>)
    ensures |r| == |people|
    ensures forall k :: 0 <= k < |people| ==> r[k].id == people[k].id && r[k].name == people[k].name
    ensures forall k :: 0 <= k < |people| && people[k].id != id ==> r[k] == people[k]
    ensures forall k :: 0 <= k < |people| && people[k].id == id ==>
      r[k].initialBalance == people[k].initialBalance + amount
  {
    seq(|people|, k requires 0 <= k < |people| =>
      if people[k].id == id then people[k].(initialBalance := people[k].initialBalance + amount)
      else people[k])
  }

  /** `handleSettleAccount`. Refused, leaving the store as it is, when
      nobody has the id, when the debt is not negative, or when the dialog
      is declined; otherwise only the people with that id change, by
      exactly the settlement amount. */
  function Settle(data: UserData, id: string, confirmed: bool): (r: UserData)
    ensures r.title == data.title && r.schedule == data.schedule && r.lastReset == data.lastReset
    ensures var a := SettlementAmount(Balances(data.people, data.schedule), id);
            a.None? || !confirmed ==> r == data
    ensures var a := SettlementAmount(Balances(data.people, data.schedule), id);
            a.Some? && confirmed ==> r.people == Credit(data.people, id, a.value)
  {
    match SettlementAmount(Balances(data.people, data.schedule), id)
    case None => data
    case Some(amount) => if confirmed then data.(people := Credit(data.people, id, amount)) else data
  }

  /** Settling brings the recomputed final balance of the person found to
      exactly zero, the schedule being unchanged. */
  lemma SettleZeroesBalance(data: UserData, id: string)
    requires SettlementAmount(Balances(data.people, data.schedule), id).Some?
    ensures var r := Settle(data, id, true);
            var rows := Balances(r.people, r.schedule);
            FindRow(rows, id).Some? && rows[FindRow(rows, id).value].finalBalance == 0.0
  {
    var before := Balances(data.people, data.schedule);
    var r := Settle(data, id, true);
    var after := Balances(r.people, r.schedule);
    FindRowByIds(before, after, id);
    var k := FindRow(before, id).value;
    var amount := SettlementAmount(before, id).value;
    assert r.people[k].initialBalance == data.people[k].initialBalance + amount;
    assert amount == before[k].totalDeductions - data.people[k].initialBalance;
    assert after[k].totalDeductions == before[k].totalDeductions;
  }

  /** Every other person's computed row is the same after a settlement. */
  lemma SettleKeepsOtherRows(data: UserData, id: string, confirmed: bool)
    ensures var r := Settle(data, id, confirmed);
            var before := Balances(data.people, data.schedule);
            var after := Balances(r.people, r.schedule);
            && |after| == |before|
            && forall k :: 0 <= k < |before| && before[k].id != id ==> after[k] == before[k]
  {
    var r := Settle(data, id, confirmed);
    var before := Balances(data.people, data.schedule);
    var after := Balances(r.people, r.schedule);
    forall k | 0 <= k < |before| && before[k].id != id
      ensures after[k] == before[k]
    {
      assert r.people[k] == data.people[k];
    }
  }
}
