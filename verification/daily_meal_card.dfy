/**
  The meal editor of components/DailyMealCard.tsx: the three ways of
  building a new attendee list (toggle one person, select everybody,
  deselect everybody) and `handleMealChange`, which writes either a cost or
  an attendee list into one slot of one day.

  The cost arrives already parsed; None stands for NaN, which the handler
  turns into 0.
 */
module DailyMealCard {
  import opened Types
  import MainApp

  /** `handleAttendeeToggle`: a listed id is filtered out (every occurrence);
      an unlisted one is appended at the end. */
  function Toggle(attendees: seq<string>, id: string): (r: seq<string>)
    ensures id in r <==> id !in attendees
    ensures forall other :: other != id ==> (other in r <==> other in attendees)
    ensures id in attendees ==> forall other :: other != id ==> Count(r, other) == Count(attendees, other)
    ensures id !in attendees ==> |r| == |attendees| + 1 && r[..|attendees|] == attendees && r[|attendees|] == id
    ensures Distinct(attendees) ==> Distinct(r)
  {
    if id in attendees then
      assert Distinct(attendees) ==> Distinct(Without(attendees, id)) by {
        if Distinct(attendees) {
          WithoutDistinct(attendees, id);
        }
      }
      Without(attendees, id)
    else
      assert Distinct(attendees) ==> Distinct(attendees + [id]);
      attendees + [id]
  }

  /** Toggling an unlisted id twice gives back the list exactly. */
  lemma ToggleTwiceRestores(attendees: seq<string>, id: string)
    requires id !in attendees
    ensures Toggle(Toggle(attendees, id), id) == attendees
  {
    WithoutAppend(attendees, [id], id);
    WithoutAbsent(attendees, id);
  }

  /** `handleSelectAll`: the ids of all people, in the order of `people`. */
  function SelectAll(people: seq<Person>): (r: seq<string>)
    ensures |r| == |people|
    ensures forall k :: 0 <= k < |people| ==> r[k] == people[k].id
  {
    Ids(people)
  }

  /** `handleDeselectAll`: nobody. */
  function DeselectAll(): (r: seq<string>)
    ensures |r| == 0
  {
    []
  }

  /** The two fields `handleMealChange` can write. */
  datatype MealField = Cost(parsed: Option<real>) | Attendees(ids: seq<string>)

  /** `handleMealChange`: one slot of one day gets the new cost (`Number(value)
      || 0`) or the new attendee list; every other slot and every other field
      of the store stays. */
  function HandleMealChange(data: UserData, day: Day, mt: MealType, field: MealField): (r: UserData)
    requires day in data.schedule
    ensures r.title == data.title && r.people == data.people && r.lastReset == data.lastReset
    ensures r.schedule.Keys == data.schedule.Keys
    ensures forall d :: d in data.schedule && d != day ==> r.schedule[d] == data.schedule[d]
    ensures forall other :: other != mt ==> MealOf(r.schedule[day], other) == MealOf(data.schedule[day], other)
    ensures field.Cost? ==>
      MealOf(r.schedule[day], mt) == Meal(OrZero(field.parsed), MealOf(data.schedule[day], mt).attendees)
    ensures field.Attendees? ==>
      MealOf(r.schedule[day], mt) == Meal(MealOf(data.schedule[day], mt).cost, field.ids)
  {
    var current := MealOf(data.schedule[day], mt);
    var meal := match field
      case Cost(parsed) => current.(cost := OrZero(parsed))
      case Attendees(ids) => current.(attendees := ids);
    data.(schedule := data.schedule[day := WithMeal(data.schedule[day], mt, meal)])
  }

  /** A toggle keeps every attendee a person when the toggled id is one. */
  lemma ToggleKeepsAttendeesAmong(attendees: seq<string>, id: string, ids: seq<string>)
    requires forall a :: a in attendees ==> a in ids
    requires id in ids
    ensures forall a :: a in Toggle(attendees, id) ==> a in ids
  {
  }

  /** After deselecting everybody the slot charges nobody anything. */
  lemma DeselectAllChargesNobody(data: UserData, day: Day, mt: MealType, id: string)
    requires day in data.schedule
    ensures var r := HandleMealChange(data, day, mt, Attendees(DeselectAll()));
            MainApp.Share(MealOf(r.schedule[day], mt), id) == 0.0
  {
  }

  /** After selecting everybody, with distinct ids, a positive cost is
      split into equal shares of `cost / people.length`. */
  lemma SelectAllSplitsEvenly(people: seq<Person>, cost: real, k: nat)
    requires Distinct(Ids(people))
    requires cost > 0.0
    requires k < |people|
    ensures MainApp.Share(Meal(cost, SelectAll(people)), people[k].id) == cost / (|people| as real)
  {
    SelectAllDistinct(people);
    var ids := SelectAll(people);
    assert ids[k] == people[k].id;
    EvenSplitOfDistinct(Meal(cost, ids), people[k].id);
  }

  /** Selecting everybody lists no id twice when the person ids are distinct. */
  lemma SelectAllDistinct(people: seq<Person>)
    requires Distinct(Ids(people))
    ensures Distinct(SelectAll(people))
  {
  }

  /** In a charged meal without repeated attendees, every attendee pays
      `cost / attendees.length`. */
  lemma EvenSplitOfDistinct(m: Meal, id: string)
    requires MainApp.Contributes(m)
    requires Distinct(m.attendees)
    requires id in m.attendees
    ensures MainApp.Share(m, id) == m.cost / (|m.attendees| as real)
  {
    DistinctCountsOnce(m.attendees, id);
    MainApp.ShareOfSingleAttendee(m, id);
  }
}
