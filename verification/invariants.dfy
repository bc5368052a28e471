/**
  The consistency the store keeps across every operation: all six days are
  present, person ids are distinct, and every attendee id names a current
  person. Nothing validates a loaded store; the property holds because the
  fresh store has it and every handler preserves it, removal doing so by
  purging the removed id from every attendee list.
 */
module Store {
  import opened Types
  import MainApp
  import UserDataHook
  import PeopleManager
  import BalanceSheet
  import DailyMealCard

  predicate Consistent(data: UserData)
  {
    && (forall d: Day :: d in data.schedule)
    && Distinct(Ids(data.people))
    && MainApp.AttendeesAmong(data.schedule, Ids(data.people))
  }

  /** In a consistent store the deductions add up to what was spent. */
  lemma ConsistentStoreConserves(data: UserData)
    requires Consistent(data)
    ensures MainApp.TotalDeductions(MainApp.Balances(data.people, data.schedule))
         == MainApp.Spent(MainApp.Slots(data.schedule))
  {
    MainApp.Conservation(data.people, data.schedule);
  }

  lemma InitialDataConsistent(now: int)
    ensures Consistent(UserDataHook.InitialData(now))
  {
  }

  lemma LoadKeepsConsistent(stored: Option<UserData>, now: int)
    requires stored.Some? ==> Consistent(stored.value)
    ensures Consistent(UserDataHook.LoadUserData(stored, now))
  {
  }

  lemma LoadIntendedKeepsConsistent(stored: Option<UserData>, now: int)
    requires stored.Some? ==> Consistent(stored.value)
    ensures Consistent(UserDataHook.LoadUserDataIntended(stored, now))
  {
  }

  lemma ChangeTitleKeepsConsistent(data: UserData, title: string)
    requires Consistent(data)
    ensures Consistent(MainApp.ChangeTitle(data, title))
  {
  }

  lemma AddPersonKeepsConsistent(data: UserData, name: string, balance: Option<real>, freshId: string)
    requires Consistent(data)
    requires freshId !in Ids(data.people)
    ensures Consistent(PeopleManager.AddPerson(data, name, balance, freshId))
  {
    PeopleManager.AddPersonKeepsIdsDistinct(data, name, balance, freshId);
    var r := PeopleManager.AddPerson(data, name, balance, freshId);
    if PeopleManager.Trim(name, PeopleManager.JsWhitespace) != [] {
      assert r.people == data.people + [r.people[|data.people|]];
      IdsAppend(data.people, [r.people[|data.people|]]);
    }
  }

  lemma RemovePersonKeepsConsistent(data: UserData, id: string, confirmed: bool)
    requires Consistent(data)
    ensures Consistent(PeopleManager.RemovePerson(data, id, confirmed))
  {
    PeopleManager.RemovePersonKeepsIdsDistinct(data, id, confirmed);
    if confirmed {
      PeopleManager.RemovePersonKeepsAttendeesAmongPeople(data, id);
    }
  }

  lemma SettleKeepsConsistent(data: UserData, id: string, confirmed: bool)
    requires Consistent(data)
    ensures Consistent(BalanceSheet.Settle(data, id, confirmed))
  {
    var r := BalanceSheet.Settle(data, id, confirmed);
    assert Ids(r.people) == Ids(data.people);
  }

  lemma CostChangeKeepsConsistent(data: UserData, day: Day, mt: MealType, parsed: Option<real>)
    requires Consistent(data)
    ensures Consistent(DailyMealCard.HandleMealChange(data, day, mt, DailyMealCard.Cost(parsed)))
  {
    var r := DailyMealCard.HandleMealChange(data, day, mt, DailyMealCard.Cost(parsed));
    assert MealOf(r.schedule[day], Breakfast).attendees == data.schedule[day].breakfast.attendees;
    assert MealOf(r.schedule[day], Lunch).attendees == data.schedule[day].lunch.attendees;
  }

  /** An attendee list made only of current people's ids keeps the store
      consistent; toggle, select-all and deselect-all all produce one. */
  lemma AttendeesChangeKeepsConsistent(data: UserData, day: Day, mt: MealType, ids: seq<string>)
    requires Consistent(data)
    requires forall a :: a in ids ==> a in Ids(data.people)
    ensures Consistent(DailyMealCard.HandleMealChange(data, day, mt, DailyMealCard.Attendees(ids)))
  {
    var r := DailyMealCard.HandleMealChange(data, day, mt, DailyMealCard.Attendees(ids));
    var other := if mt == Breakfast then Lunch else Breakfast;
    assert MealOf(r.schedule[day], other) == MealOf(data.schedule[day], other);
  }

  lemma ToggleKeepsConsistent(data: UserData, day: Day, mt: MealType, id: string)
    requires Consistent(data)
    requires id in Ids(data.people)
    ensures var ids := DailyMealCard.Toggle(MealOf(data.schedule[day], mt).attendees, id);
            Consistent(DailyMealCard.HandleMealChange(data, day, mt, DailyMealCard.Attendees(ids)))
  {
    var current := MealOf(data.schedule[day], mt).attendees;
    DailyMealCard.ToggleKeepsAttendeesAmong(current, id, Ids(data.people));
    AttendeesChangeKeepsConsistent(data, day, mt, DailyMealCard.Toggle(current, id));
  }
}
