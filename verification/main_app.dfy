/**
  The balance calculator and the title edit of components/MainApp.tsx.

  Every meal slot whose cost is positive and whose attendee list is
  non-empty is split evenly among the listed attendees; each occurrence of
  an id in the list is charged one share. A person's total deduction is the
  sum of their shares over every slot of every day, and their final balance
  is their initial balance minus that total.

  `Deduction` is the reference definition; `ComputeBalances` follows the
  source's own accumulation into a map of running totals and is proved to
  agree with it.
 */
module MainApp {
  import opened Types

  /** One row of `calculatedBalances`: the person's fields plus the two
      derived amounts. */
  datatype CalculatedBalance = CalculatedBalance(
    id: string, name: string, initialBalance: real,
    totalDeductions: real, finalBalance: real)

  /** A slot is charged only when it has a positive cost and someone attended. */
  predicate Contributes(m: Meal)
    ensures Contributes(m) ==> |m.attendees| > 0 && m.cost / (|m.attendees| as real) > 0.0
  {
    m.cost > 0.0 && |m.attendees| > 0
  }

  /** `cost / attendees.length`, the amount each attendee occurrence pays. */
  function PerHead(m: Meal): (q: real)
    requires Contributes(m)
    ensures q > 0.0
  {
    m.cost / (|m.attendees| as real)
  }

  /** Splitting evenly loses nothing: the heads times the share is the cost. */
  lemma PerHeadTimesHeads(m: Meal)
    requires Contributes(m)
    ensures (|m.attendees| as real) * PerHead(m) == m.cost
  {
  }

  /** `q` charged once for every occurrence of `id` in `att`. */
  function Portion(att: seq<string>, id: string, q: real): (r: real)
    ensures q >= 0.0 ==> r >= 0.0
    ensures id !in att ==> r == 0.0
  {
    if att == [] then 0.0
    else (if att[0] == id then q else 0.0) + Portion(att[1..], id, q)
  }

  lemma {:induction false} PortionAppend(a: seq<string>, b: seq<string>, id: string, q: real)
    ensures Portion(a + b, id, q) == Portion(a, id, q) + Portion(b, id, q)
  {
    if a == [] {
      assert a + b == b;
    } else {
      assert (a + b)[1..] == a[1..] + b;
      PortionAppend(a[1..], b, id, q);
    }
  }

  /** What the slot `m` charges the person `id`: one even share per
      occurrence of `id` among the attendees, and nothing from a slot that
      does not contribute. */
  function Share(m: Meal, id: string): (r: real)
    ensures r >= 0.0
    ensures !Contributes(m) || id !in m.attendees ==> r == 0.0
  {
    if Contributes(m) then Portion(m.attendees, id, PerHead(m)) else 0.0
  }

  /** An attendee listed once pays exactly `cost / attendees.length`. */
  lemma {:induction false} ShareOfSingleAttendee(m: Meal, id: string)
    requires Contributes(m)
    requires Count(m.attendees, id) == 1
    ensures Share(m, id) == m.cost / (|m.attendees| as real)
  {
    PortionOfSingle(m.attendees, id, PerHead(m));
  }

  /** Every listed occurrence of `id` is charged `q`: the portion is the
      number of occurrences times `q`. */
  lemma {:induction false} PortionIsCountTimes(att: seq<string>, id: string, q: real)
    ensures Portion(att, id, q) == (Count(att, id) as real) * q
  {
    PortionIsTimes(att, id, q);
    TimesIsProduct(Count(att, id), q);
  }

  lemma {:induction false} PortionIsTimes(att: seq<string>, id: string, q: real)
    ensures Portion(att, id, q) == Times(Count(att, id), q)
  {
    if att != [] {
      PortionIsTimes(att[1..], id, q);
    }
  }

  /** The charge of a contributing slot to `id` is one even share per
      occurrence of `id` among its attendees, so a duplicated entry pays
      twice. */
  lemma ShareIsCountTimesPerHead(m: Meal, id: string)
    requires Contributes(m)
    ensures Share(m, id) == (Count(m.attendees, id) as real) * PerHead(m)
  {
    PortionIsCountTimes(m.attendees, id, PerHead(m));
  }

  lemma {:induction false} PortionOfSingle(att: seq<string>, id: string, q: real)
    requires Count(att, id) == 1
    ensures Portion(att, id, q) == q
  {
    if att[0] != id {
      PortionOfSingle(att[1..], id, q);
    }
  }

  /** The slots of the days in `days` that are present in `s`, breakfast
      before lunch, in the order `Object.values` visits them. When every day
      walked is present, day `i` contributes exactly the two slots `2 * i`
      and `2 * i + 1`. */
  function SlotsOf(days: seq<Day>, s: Schedule): (r: seq<Meal>)
    ensures |r| % 2 == 0 && |r| <= 2 * |days|
    ensures (forall d :: d in days ==> d in s) ==>
      && |r| == 2 * |days|
      && forall i :: 0 <= i < |days| ==> r[2 * i] == s[days[i]].breakfast && r[2 * i + 1] == s[days[i]].lunch
  {
    if days == [] then []
    else
      var rest := SlotsOf(days[1..], s);
      var head := if days[0] in s then [s[days[0]].breakfast, s[days[0]].lunch] else [];
      assert (forall d :: d in days ==> d in s) ==>
        forall i :: 0 <= i < |days| ==> (head + rest)[2 * i] == s[days[i]].breakfast && (head + rest)[2 * i + 1] == s[days[i]].lunch
      by {
        if forall d :: d in days ==> d in s {
          assert forall d :: d in days[1..] ==> d in days;
          SlotsOfStep(days, s, rest);
        }
      }
      head + rest
  }

  /** One step of `SlotsOf`: a present first day's two slots in front of the
      rest's slots shift every later day's slots up by two. */
  lemma SlotsOfStep(days: seq<Day>, s: Schedule, rest: seq<Meal>)
    requires |days| > 0 && forall d :: d in days ==> d in s
    requires |rest| == 2 * |days[1..]|
    requires forall i :: 0 <= i < |days[1..]| ==>
      rest[2 * i] == s[days[1..][i]].breakfast && rest[2 * i + 1] == s[days[1..][i]].lunch
    ensures forall i :: 0 <= i < |days| ==>
      && ([s[days[0]].breakfast, s[days[0]].lunch] + rest)[2 * i] == s[days[i]].breakfast
      && ([s[days[0]].breakfast, s[days[0]].lunch] + rest)[2 * i + 1] == s[days[i]].lunch
  {
    var r := [s[days[0]].breakfast, s[days[0]].lunch] + rest;
    forall i | 1 <= i < |days|
      ensures r[2 * i] == s[days[i]].breakfast && r[2 * i + 1] == s[days[i]].lunch
    {
      assert days[1..][i - 1] == days[i];
      assert days[i] in days;
    }
  }

  /** Every meal slot of the schedule: for a schedule holding all six days,
      the twelve slots once each, breakfast before lunch, in week order. */
  function Slots(s: Schedule): (r: seq<Meal>)
    ensures |r| % 2 == 0 && |r| <= 2 * |DaysOfWeek|
    ensures (forall d: Day :: d in s) ==>
      && |r| == 12
      && forall i :: 0 <= i < |DaysOfWeek| ==> r[2 * i] == s[DaysOfWeek[i]].breakfast && r[2 * i + 1] == s[DaysOfWeek[i]].lunch
  {
    SlotsOf(DaysOfWeek, s)
  }

  lemma {:induction false} SlotsOfCome(days: seq<Day>, s: Schedule, m: Meal)
    requires m in SlotsOf(days, s)
    ensures exists d :: d in days && d in s && (m == s[d].breakfast || m == s[d].lunch)
  {
    var head := if days[0] in s then [s[days[0]].breakfast, s[days[0]].lunch] else [];
    if m !in head {
      SlotsOfCome(days[1..], s, m);
    }
  }

  lemma {:induction false} SlotsOfCover(days: seq<Day>, s: Schedule, d: Day)
    requires d in days && d in s
    ensures s[d].breakfast in SlotsOf(days, s) && s[d].lunch in SlotsOf(days, s)
  {
    if days[0] != d {
      SlotsOfCover(days[1..], s, d);
    }
  }

  /** The slot list holds both meals of every day of the schedule, and
      nothing else. */
  lemma SlotsAreTheSchedule(s: Schedule)
    ensures forall d :: d in s ==> s[d].breakfast in Slots(s) && s[d].lunch in Slots(s)
    ensures forall m :: m in Slots(s) ==> exists d :: d in s && (m == s[d].breakfast || m == s[d].lunch)
  {
    forall d | d in s
      ensures s[d].breakfast in Slots(s) && s[d].lunch in Slots(s)
    {
      EveryDayListed(d);
      SlotsOfCover(DaysOfWeek, s, d);
    }
    forall m | m in Slots(s)
      ensures exists d :: d in s && (m == s[d].breakfast || m == s[d].lunch)
    {
      SlotsOfCome(DaysOfWeek, s, m);
    }
  }

  /** True when `id` is listed as an attendee of some slot. */
  predicate Attends(s: Schedule, id: string)
  {
    exists d :: d in s && (id in s[d].breakfast.attendees || id in s[d].lunch.attendees)
  }

  /** Sum of the shares `id` owes over `meals`. */
  function SumShares(meals: seq<Meal>, id: string): (r: real)
    ensures r >= 0.0
    ensures (forall k :: 0 <= k < |meals| ==> id !in meals[k].attendees) ==> r == 0.0
  {
    if meals == [] then 0.0 else Share(meals[0], id) + SumShares(meals[1..], id)
  }

  lemma {:induction false} SumSharesAppend(a: seq<Meal>, b: seq<Meal>, id: string)
    ensures SumShares(a + b, id) == SumShares(a, id) + SumShares(b, id)
  {
    if a == [] {
      assert a + b == b;
    } else {
      assert (a + b)[1..] == a[1..] + b;
      SumSharesAppend(a[1..], b, id);
    }
  }

  /** Reference definition of a person's total deduction. */
  function Deduction(s: Schedule, id: string): (r: real)
    ensures r >= 0.0
    ensures !Attends(s, id) ==> r == 0.0
  {
    var slots := Slots(s);
    assert !Attends(s, id) ==> forall k :: 0 <= k < |slots| ==> id !in slots[k].attendees by {
      if !Attends(s, id) {
        forall k | 0 <= k < |slots|
          ensures id !in slots[k].attendees
        {
          assert slots[k] in slots;
          SlotsOfCome(DaysOfWeek, s, slots[k]);
        }
      }
    }
    SumShares(slots, id)
  }

  /** The row the calculator produces for `p`. */
  function BalanceOf(p: Person, s: Schedule): (b: CalculatedBalance)
    ensures b.id == p.id && b.name == p.name && b.initialBalance == p.initialBalance
    ensures b.totalDeductions >= 0.0
    ensures !Attends(s, p.id) ==> b.totalDeductions == 0.0 && b.finalBalance == p.initialBalance
    ensures b.finalBalance == b.initialBalance - b.totalDeductions
  {
    var total := Deduction(s, p.id);
    CalculatedBalance(p.id, p.name, p.initialBalance, total, p.initialBalance - total)
  }

  /** `calculatedBalances`: one row per person, in the order of `people`. */
  function Balances(people: seq<Person>, s: Schedule): (r: seq<CalculatedBalance>)
    ensures |r| == |people|
    ensures forall k :: 0 <= k < |people| ==>
      && r[k].id == people[k].id
      && r[k].name == people[k].name
      && r[k].initialBalance == people[k].initialBalance
      && r[k].totalDeductions == Deduction(s, people[k].id)
      && r[k].finalBalance == r[k].initialBalance - r[k].totalDeductions
  {
    if people == [] then [] else [BalanceOf(people[0], s)] + Balances(people[1..], s)
  }

  /** `deductions[id] || 0`. */
  function Lookup(d: map<string, real>, id: string): (r: real)
    ensures id in d ==> r == d[id]
    ensures id !in d ==> r == 0.0
  {
    if id in d then d[id] else 0.0
  }

  /** Adds one share of `meal` to the running total of each attendee
      occurrence, as the inner `forEach` does. */
  method ChargeSlot(deductions: map<string, real>, meal: Meal) returns (r: map<string, real>)
    ensures forall id :: Lookup(r, id) == Lookup(deductions, id) + Share(meal, id)
  {
    r := deductions;
    if meal.cost > 0.0 && |meal.attendees| > 0 {
      var costPerPerson := meal.cost / (|meal.attendees| as real);
      var j := 0;
      while j < |meal.attendees|
        invariant 0 <= j <= |meal.attendees|
        invariant forall id :: Lookup(r, id) == Lookup(deductions, id) + Portion(meal.attendees[..j], id, costPerPerson)
      {
        var a := meal.attendees[j];
        r := r[a := Lookup(r, a) + costPerPerson];
        PortionSnoc(meal.attendees, j, costPerPerson);
        j := j + 1;
      }
      assert meal.attendees[..j] == meal.attendees;
    }
  }

  lemma PortionSnoc(att: seq<string>, j: nat, q: real)
    requires j < |att|
    ensures forall id :: Portion(att[..j + 1], id, q) == Portion(att[..j], id, q) + (if att[j] == id then q else 0.0)
  {
    assert att[..j + 1] == att[..j] + [att[j]];
    forall id
      ensures Portion(att[..j + 1], id, q) == Portion(att[..j], id, q) + (if att[j] == id then q else 0.0)
    {
      PortionAppend(att[..j], [att[j]], id, q);
    }
  }

  /** The outer `forEach`: charges every slot of `slots` in turn, starting
      from no deductions. */
  method ChargeSlots(slots: seq<Meal>) returns (deductions: map<string, real>)
    ensures forall id :: Lookup(deductions, id) == SumShares(slots, id)
  {
    deductions := map[];
    var i := 0;
    while i < |slots|
      invariant 0 <= i <= |slots|
      invariant forall id :: Lookup(deductions, id) == SumShares(slots[..i], id)
    {
      deductions := ChargeSlot(deductions, slots[i]);
      SumSharesSnoc(slots, i);
      i := i + 1;
    }
    assert slots[..i] == slots;
  }

  lemma SumSharesSnoc(meals: seq<Meal>, i: nat)
    requires i < |meals|
    ensures forall id :: SumShares(meals[..i + 1], id) == SumShares(meals[..i], id) + Share(meals[i], id)
  {
    assert meals[..i + 1] == meals[..i] + [meals[i]];
    forall id
      ensures SumShares(meals[..i + 1], id) == SumShares(meals[..i], id) + Share(meals[i], id)
    {
      SumSharesAppend(meals[..i], [meals[i]], id);
    }
  }

  /** The source's two-step computation: accumulate the map of running
      deductions, then map every person to a row. It agrees with the
      reference definition `Deduction` on every input. */
  method ComputeBalances(people: seq<Person>, s: Schedule) returns (rows: seq<CalculatedBalance>)
    ensures |rows| == |people|
    ensures forall k :: 0 <= k < |people| ==>
      && rows[k].id == people[k].id
      && rows[k].name == people[k].name
      && rows[k].initialBalance == people[k].initialBalance
      && rows[k].totalDeductions == Deduction(s, people[k].id)
      && rows[k].finalBalance == people[k].initialBalance - Deduction(s, people[k].id)
  {
    var deductions := ChargeSlots(Slots(s));
    rows := [];
    var k := 0;
    while k < |people|
      invariant 0 <= k <= |people|
      invariant |rows| == k
      invariant forall i :: 0 <= i < k ==> rows[i] == BalanceOf(people[i], s)
    {
      var p := people[k];
      var totalDeductions := Lookup(deductions, p.id);
      assert totalDeductions == Deduction(s, p.id);
      rows := rows + [CalculatedBalance(p.id, p.name, p.initialBalance, totalDeductions, p.initialBalance - totalDeductions)];
      k := k + 1;
    }
  }

  /** `handleTitleChange`: the store with only its title replaced. */
  function ChangeTitle(data: UserData, title: string): (r: UserData)
    ensures r.title == title
    ensures r.people == data.people && r.schedule == data.schedule && r.lastReset == data.lastReset
  {
    data.(title := title)
  }

  // ---------------------------------------------------------------------
  // Conservation: the deductions of everybody add up to what was spent.
  // ---------------------------------------------------------------------

  /** What was spent on the contributing slots of `meals`. */
  function Spent(meals: seq<Meal>): real
  {
    if meals == [] then 0.0
    else (if Contributes(meals[0]) then meals[0].cost else 0.0) + Spent(meals[1..])
  }

  /** Sum of the `totalDeductions` column. */
  function TotalDeductions(rows: seq<CalculatedBalance>): real
  {
    if rows == [] then 0.0 else rows[0].totalDeductions + TotalDeductions(rows[1..])
  }

  /** Every attendee of every slot is the id of someone in `ids`. */
  predicate AttendeesAmong(s: Schedule, ids: seq<string>)
  {
    forall d :: d in s ==>
      (forall a :: a in s[d].breakfast.attendees ==> a in ids)
      && (forall a :: a in s[d].lunch.attendees ==> a in ids)
  }

  /** What `ids` owe, all together, over `meals`. */
  function OwedBy(ids: seq<string>, meals: seq<Meal>): real
  {
    if ids == [] then 0.0 else SumShares(meals, ids[0]) + OwedBy(ids[1..], meals)
  }

  /** What `ids` owe, all together, for the single slot `m`. */
  function SlotOwedBy(ids: seq<string>, m: Meal): real
  {
    if ids == [] then 0.0 else Share(m, ids[0]) + SlotOwedBy(ids[1..], m)
  }

  /** Σ over `ids` of the portions each pays for the occurrences in `att`. */
  function Spread(ids: seq<string>, att: seq<string>, q: real): real
  {
    if ids == [] then 0.0 else Portion(att, ids[0], q) + Spread(ids[1..], att, q)
  }

  /** Σ over `ids` of `q` for each element equal to `a`. */
  function Hits(ids: seq<string>, a: string, q: real): real
  {
    if ids == [] then 0.0 else (if ids[0] == a then q else 0.0) + Hits(ids[1..], a, q)
  }

  lemma {:induction false} TotalIsOwed(people: seq<Person>, s: Schedule)
    ensures TotalDeductions(Balances(people, s)) == OwedBy(Ids(people), Slots(s))
  {
    if people != [] {
      TotalIsOwed(people[1..], s);
    }
  }

  lemma {:induction false} OwedBySplit(ids: seq<string>, m: Meal, rest: seq<Meal>)
    ensures OwedBy(ids, [m] + rest) == SlotOwedBy(ids, m) + OwedBy(ids, rest)
  {
    if ids != [] {
      assert ([m] + rest)[1..] == rest;
      OwedBySplit(ids[1..], m, rest);
    }
  }

  lemma {:induction false} OwedByNothing(ids: seq<string>)
    ensures OwedBy(ids, []) == 0.0
  {
    if ids != [] {
      OwedByNothing(ids[1..]);
    }
  }

  lemma {:induction false} SlotOwedIsSpread(ids: seq<string>, m: Meal)
    requires Contributes(m)
    ensures SlotOwedBy(ids, m) == Spread(ids, m.attendees, PerHead(m))
  {
    if ids != [] {
      SlotOwedIsSpread(ids[1..], m);
    }
  }

  lemma {:induction false} SlotOwedNothing(ids: seq<string>, m: Meal)
    requires !Contributes(m)
    ensures SlotOwedBy(ids, m) == 0.0
  {
    if ids != [] {
      SlotOwedNothing(ids[1..], m);
    }
  }

  lemma {:induction false} SpreadCons(ids: seq<string>, a: string, rest: seq<string>, q: real)
    ensures Spread(ids, [a] + rest, q) == Hits(ids, a, q) + Spread(ids, rest, q)
  {
    if ids != [] {
      assert ([a] + rest)[1..] == rest;
      SpreadCons(ids[1..], a, rest, q);
    }
  }

  lemma {:induction false} SpreadOfNothing(ids: seq<string>, q: real)
    ensures Spread(ids, [], q) == 0.0
  {
    if ids != [] {
      SpreadOfNothing(ids[1..], q);
    }
  }

  lemma {:induction false} HitsAbsent(ids: seq<string>, a: string, q: real)
    requires a !in ids
    ensures Hits(ids, a, q) == 0.0
  {
    if ids != [] {
      HitsAbsent(ids[1..], a, q);
    }
  }

  /** Among distinct ids, a member is hit exactly once. */
  lemma {:induction false} HitsOnce(ids: seq<string>, a: string, q: real)
    requires Distinct(ids)
    requires a in ids
    ensures Hits(ids, a, q) == q
  {
    DistinctCountsOnce(ids, a);
    HitsCount(ids, a, q);
  }

  lemma {:induction false} HitsCount(ids: seq<string>, a: string, q: real)
    requires Count(ids, a) == 1
    ensures Hits(ids, a, q) == q
  {
    if ids[0] == a {
      HitsAbsent(ids[1..], a, q);
    } else {
      HitsCount(ids[1..], a, q);
    }
  }

  /** `q` added up `n` times. */
  function Times(n: nat, q: real): real
  {
    if n == 0 then 0.0 else q + Times(n - 1, q)
  }

  lemma {:induction false} TimesIsProduct(n: nat, q: real)
    ensures Times(n, q) == (n as real) * q
  {
    if n > 0 {
      TimesIsProduct(n - 1, q);
      assert (n as real) * q == ((n - 1) as real) * q + q;
    }
  }

  /** Charging every attendee occurrence its share collects the cost. */
  lemma EvenSplitAddsUp(m: Meal)
    requires Contributes(m)
    ensures Times(|m.attendees|, PerHead(m)) == m.cost
  {
    TimesIsProduct(|m.attendees|, PerHead(m));
    PerHeadTimesHeads(m);
  }

  /** With distinct ids covering every attendee, every attendee occurrence
      is charged exactly once. */
  lemma {:induction false} SpreadIsHeadsTimesShare(ids: seq<string>, att: seq<string>, q: real)
    requires Distinct(ids)
    requires forall a :: a in att ==> a in ids
    ensures Spread(ids, att, q) == Times(|att|, q)
  {
    if att == [] {
      SpreadOfNothing(ids, q);
    } else {
      assert [att[0]] + att[1..] == att;
      SpreadCons(ids, att[0], att[1..], q);
      HitsOnce(ids, att[0], q);
      SpreadIsHeadsTimesShare(ids, att[1..], q);
    }
  }

  /** One slot: what its attendees owe together is its cost, or nothing. */
  lemma {:induction false} SlotConserved(ids: seq<string>, m: Meal)
    requires Distinct(ids)
    requires forall a :: a in m.attendees ==> a in ids
    ensures SlotOwedBy(ids, m) == (if Contributes(m) then m.cost else 0.0)
  {
    if Contributes(m) {
      SlotOwedIsSpread(ids, m);
      SpreadIsHeadsTimesShare(ids, m.attendees, PerHead(m));
      EvenSplitAddsUp(m);
    } else {
      SlotOwedNothing(ids, m);
    }
  }

  lemma {:induction false} OwedIsSpent(ids: seq<string>, meals: seq<Meal>)
    requires Distinct(ids)
    requires forall k, a :: 0 <= k < |meals| && a in meals[k].attendees ==> a in ids
    ensures OwedBy(ids, meals) == Spent(meals)
  {
    if meals == [] {
      OwedByNothing(ids);
    } else {
      assert [meals[0]] + meals[1..] == meals;
      OwedBySplit(ids, meals[0], meals[1..]);
      SlotConserved(ids, meals[0]);
      forall k, a | 0 <= k < |meals[1..]| && a in meals[1..][k].attendees
        ensures a in ids
      {
        assert meals[1..][k] == meals[k + 1];
      }
      OwedIsSpent(ids, meals[1..]);
    }
  }

  /** Conservation: when person ids are distinct and every attendee is one
      of them, the deductions of all people add up to exactly the cost of
      the slots that were split. */
  lemma Conservation(people: seq<Person>, s: Schedule)
    requires Distinct(Ids(people))
    requires AttendeesAmong(s, Ids(people))
    ensures TotalDeductions(Balances(people, s)) == Spent(Slots(s))
  {
    var slots := Slots(s);
    TotalIsOwed(people, s);
    forall k, a | 0 <= k < |slots| && a in slots[k].attendees
      ensures a in Ids(people)
    {
      assert slots[k] in slots;
      SlotsOfCome(DaysOfWeek, s, slots[k]);
    }
    OwedIsSpent(Ids(people), slots);
  }
}
