/**
  The entities of the meal-cost tracker (types.ts) and its fixed
  configuration (constants.ts), together with the small sequence vocabulary
  the handlers share: the ids of a list of people, the number of
  occurrences of an id in an attendee list, and the `filter(id => id !== x)`
  that several handlers apply.

  Amounts are exact `real`s and timestamps are integer milliseconds since
  the Unix epoch; the JavaScript `number` and ISO-string encodings are not
  modelled.
 */
module Types {

  datatype Option<+T> = None | Some(value: T) {
    function GetOr(default: T): (r: T)
      ensures Some? ==> r == value
      ensures None? ==> r == default
    {
      match this
      case Some(v) => v
      case None => default
    }
  }

  /** The six day labels of the schedule, an ordered enumeration. */
  datatype Day = Saturday | Sunday | Monday | Tuesday | Wednesday | Thursday

  /** Display order of the days, Saturday first. */
  const DaysOfWeek: seq<Day> := [Saturday, Sunday, Monday, Tuesday, Wednesday, Thursday]

  lemma EveryDayListed(d: Day)
    ensures d in DaysOfWeek
  {
    match d
    case Saturday => assert DaysOfWeek[0] == d;
    case Sunday => assert DaysOfWeek[1] == d;
    case Monday => assert DaysOfWeek[2] == d;
    case Tuesday => assert DaysOfWeek[3] == d;
    case Wednesday => assert DaysOfWeek[4] == d;
    case Thursday => assert DaysOfWeek[5] == d;
  }

  /** Title a freshly created store carries. */
  const DefaultTitle: string := "تقرير الوجبات الأسبوعي"

  datatype Person = Person(id: string, name: string, initialBalance: real)

  /** `cost` is the whole meal's total; `attendees` lists person ids. */
  datatype Meal = Meal(cost: real, attendees: seq<string>)

  datatype DayData = DayData(breakfast: Meal, lunch: Meal)

  datatype MealType = Breakfast | Lunch

  type Schedule = map<Day, DayData>

  /** The whole persisted store of one user. */
  datatype UserData = UserData(title: string, people: seq<Person>, schedule: Schedule, lastReset: int)

  /** The empty meal every slot of a fresh schedule holds. */
  const EmptyMeal: Meal := Meal(0.0, [])

  function MealOf(dd: DayData, mt: MealType): Meal
  {
    match mt
    case Breakfast => dd.breakfast
    case Lunch => dd.lunch
  }

  /** `dd` with the slot `mt` replaced by `m`. */
  function WithMeal(dd: DayData, mt: MealType, m: Meal): (r: DayData)
    ensures MealOf(r, mt) == m
    ensures forall other :: other != mt ==> MealOf(r, other) == MealOf(dd, other)
  {
    match mt
    case Breakfast => dd.(breakfast := m)
    case Lunch => dd.(lunch := m)
  }

  /** JavaScript's `x || 0` applied to a parsed number: an unparseable input
      (NaN, modelled as None) becomes 0. */
  function OrZero(parsed: Option<real>): (r: real)
    ensures parsed.None? ==> r == 0.0
    ensures parsed.Some? ==> r == parsed.value
  {
    parsed.GetOr(0.0)
  }

  /** `people.map(p => p.id)`. */
  function Ids(people: seq<Person>): (r: seq<string>)
    ensures |r| == |people|
    ensures forall k :: 0 <= k < |people| ==> r[k] == people[k].id
  {
    if people == [] then [] else [people[0].id] + Ids(people[1..])
  }

  lemma IdsAppend(a: seq<Person>, b: seq<Person>)
    ensures Ids(a + b) == Ids(a) + Ids(b)
  {
  }

  /** Number of occurrences of `x` in `xs`. */
  function Count(xs: seq<string>, x: string): (n: nat)
    ensures n <= |xs|
    ensures n > 0 <==> x in xs
  {
    if xs == [] then 0
    else (if xs[0] == x then 1 else 0) + Count(xs[1..], x)
  }

  /** No id occurs twice. */
  predicate Distinct(xs: seq<string>)
  {
    forall i, j :: 0 <= i < j < |xs| ==> xs[i] != xs[j]
  }

  lemma {:induction false} DistinctCountsOnce(xs: seq<string>, x: string)
    requires Distinct(xs)
    requires x in xs
    ensures Count(xs, x) == 1
  {
    if xs[0] == x {
      assert x !in xs[1..] by {
        forall k | 0 <= k < |xs[1..]|
          ensures xs[1..][k] != x
        {
          assert xs[1..][k] == xs[k + 1];
        }
      }
    } else {
      assert Distinct(xs[1..]) by {
        forall i, j | 0 <= i < j < |xs[1..]|
          ensures xs[1..][i] != xs[1..][j]
        {
          assert xs[1..][i] == xs[i + 1] && xs[1..][j] == xs[j + 1];
        }
      }
      DistinctCountsOnce(xs[1..], x);
    }
  }

  /** `xs.filter(id => id !== x)`. */
  function Without(xs: seq<string>, x: string): (r: seq<string>)
    ensures x !in r
    ensures forall y :: y != x ==> (y in r <==> y in xs)
    ensures forall y :: y != x ==> Count(r, y) == Count(xs, y)
    ensures |r| == |xs| - Count(xs, x)
  {
    if xs == [] then []
    else if xs[0] == x then Without(xs[1..], x)
    else [xs[0]] + Without(xs[1..], x)
  }

  /** Filtering keeps relative order: it distributes over concatenation. */
  lemma {:induction false} WithoutAppend(a: seq<string>, b: seq<string>, x: string)
    ensures Without(a + b, x) == Without(a, x) + Without(b, x)
  {
    if a == [] {
      assert a + b == b;
    } else {
      assert (a + b)[1..] == a[1..] + b;
      WithoutAppend(a[1..], b, x);
    }
  }

  /** Filtering out an id that is absent changes nothing. */
  lemma {:induction false} WithoutAbsent(xs: seq<string>, x: string)
    requires x !in xs
    ensures Without(xs, x) == xs
  {
    if xs != [] {
      WithoutAbsent(xs[1..], x);
      assert [xs[0]] + xs[1..] == xs;
    }
  }

  /** Filtering keeps the survivors distinct. */
  lemma {:induction false} WithoutDistinct(xs: seq<string>, x: string)
    requires Distinct(xs)
    ensures Distinct(Without(xs, x))
  {
    if xs != [] {
      assert Distinct(xs[1..]) by {
        forall i, j | 0 <= i < j < |xs[1..]|
          ensures xs[1..][i] != xs[1..][j]
        {
          assert xs[1..][i] == xs[i + 1] && xs[1..][j] == xs[j + 1];
        }
      }
      WithoutDistinct(xs[1..], x);
      var rest := Without(xs[1..], x);
      if xs[0] != x {
        assert xs[0] !in xs[1..] by {
          forall k | 0 <= k < |xs[1..]|
            ensures xs[1..][k] != xs[0]
          {
            assert xs[1..][k] == xs[k + 1];
          }
        }
        assert xs[0] !in rest;
        var r := [xs[0]] + rest;
        forall i, j | 0 <= i < j < |r|
          ensures r[i] != r[j]
        {
          if i == 0 {
            assert r[j] == rest[j - 1];
          } else {
            assert r[i] == rest[i - 1] && r[j] == rest[j - 1];
          }
        }
      }
    }
  }
}
