/**
  The two handlers of components/PeopleManager.tsx: adding a person from the
  form's name and balance fields, and removing a person together with every
  attendee entry that names them.

  The id of a new person is read from the clock in the source; here it is a
  parameter. The balance field is parsed with `parseFloat`; here it arrives
  already parsed, None standing for NaN. The confirmation dialog before a
  removal is the boolean `confirmed`.
 */
module PeopleManager {
  import opened Types
  import MainApp

  /** The characters `String.prototype.trim` strips: white space and line
      terminators in the sense of ECMAScript (U+2000 to U+200A written out). */
  const JsWhitespace: set<char> := {
    '\t', '\n', '\U{000B}', '\U{000C}', '\r', ' ', '\U{00A0}', '\U{1680}',
    '\U{2000}', '\U{2001}', '\U{2002}', '\U{2003}', '\U{2004}', '\U{2005}', '\U{2006}', '\U{2007}', '\U{2008}', '\U{2009}', '\U{200A}',
    '\U{2028}', '\U{2029}', '\U{202F}', '\U{205F}', '\U{3000}', '\U{FEFF}'
  }

  // Trimming is defined for any set of `blank` characters; the handler
  // trims with `JsWhitespace`.

  /** How many blanks `s` starts with. */
  function LeadingSpace(s: string, blank: set<char>): (n: nat)
    ensures n <= |s|
    ensures forall i :: 0 <= i < n ==> s[i] in blank
    ensures n == |s| || s[n] !in blank
  {
    if s != [] && s[0] in blank then 1 + LeadingSpace(s[1..], blank) else 0
  }

  /** How many blanks `s` ends with. */
  function TrailingSpace(s: string, blank: set<char>): (n: nat)
    ensures n <= |s|
    ensures forall i :: |s| - n <= i < |s| ==> s[i] in blank
    ensures n == |s| || s[|s| - n - 1] !in blank
  {
    if s != [] && s[|s| - 1] in blank then 1 + TrailingSpace(s[..|s| - 1], blank) else 0
  }

  /** `s.trim()`: the slice of `s` after its leading blanks and before its
      trailing blanks; nothing when `s` is blank throughout. */
  function Trim(s: string, blank: set<char>): (r: string)
    ensures LeadingSpace(s, blank) + |r| <= |s|
    ensures r == s[LeadingSpace(s, blank)..LeadingSpace(s, blank) + |r|]
    ensures forall i :: LeadingSpace(s, blank) + |r| <= i < |s| ==> s[i] in blank
    ensures r == [] || (r[0] !in blank && r[|r| - 1] !in blank)
    ensures r == [] <==> forall i :: 0 <= i < |s| ==> s[i] in blank
  {
    var lead, trail := LeadingSpace(s, blank), TrailingSpace(s, blank);
    if lead == |s| then []
    else
      assert lead < |s| - trail by {
        assert s[lead] !in blank;
      }
      s[lead..|s| - trail]
  }

  /** Trimming twice is trimming once. */
  lemma TrimIdempotent(s: string, blank: set<char>)
    ensures Trim(Trim(s, blank), blank) == Trim(s, blank)
  {
    var t := Trim(s, blank);
    if t != [] {
      assert LeadingSpace(t, blank) == 0;
      assert TrailingSpace(t, blank) == 0;
      assert t[0..|t|] == t;
    }
  }

  /** `handleAddPerson`: a name that is blank after trimming is refused and
      nothing changes; otherwise the trimmed name and the parsed balance (0
      when unparseable) are appended as a new person with id `freshId`. */
  function AddPerson(data: UserData, name: string, balance: Option<real>, freshId: string): (r: UserData)
    ensures Trim(name, JsWhitespace) == [] ==> r == data
    ensures Trim(name, JsWhitespace) != [] ==>
      && |r.people| == |data.people| + 1
      && r.people[..|data.people|] == data.people
      && r.people[|data.people|] == Person(freshId, Trim(name, JsWhitespace), OrZero(balance))
    ensures r.title == data.title && r.schedule == data.schedule && r.lastReset == data.lastReset
  {
    if Trim(name, JsWhitespace) == [] then data
    else data.(people := data.people + [Person(freshId, Trim(name, JsWhitespace), OrZero(balance))])
  }

  /** A fresh id keeps the person ids distinct. */
  lemma AddPersonKeepsIdsDistinct(data: UserData, name: string, balance: Option<real>, freshId: string)
    requires Distinct(Ids(data.people))
    requires freshId !in Ids(data.people)
    ensures Distinct(Ids(AddPerson(data, name, balance, freshId).people))
  {
    var r := AddPerson(data, name, balance, freshId);
    if Trim(name, JsWhitespace) != [] {
      assert r.people == data.people + [r.people[|data.people|]];
      IdsAppend(data.people, [r.people[|data.people|]]);
    }
  }

  /** Adding a person leaves every existing balance row as it was; a
      newcomer nobody has listed as an attendee owes nothing yet. */
  lemma AddPersonKeepsBalances(data: UserData, name: string, balance: Option<real>, freshId: string)
    requires Trim(name, JsWhitespace) != []
    requires !MainApp.Attends(data.schedule, freshId)
    ensures var before := MainApp.Balances(data.people, data.schedule);
            var after := MainApp.Balances(AddPerson(data, name, balance, freshId).people, data.schedule);
            && after[..|data.people|] == before
            && after[|data.people|].totalDeductions == 0.0
            && after[|data.people|].finalBalance == OrZero(balance)
  {
    var n := |data.people|;
    var r := AddPerson(data, name, balance, freshId);
    var before := MainApp.Balances(data.people, data.schedule);
    var after := MainApp.Balances(r.people, data.schedule);
    forall k | 0 <= k < n
      ensures after[k] == before[k]
    {
      assert r.people[k] == data.people[k];
    }
    assert after[..n] == before;
  }

  /** `people.filter(p => p.id !== id)`. */
  function PeopleWithout(people: seq<Person>, id: string): (r: seq<Person>)
    ensures forall p :: p in r <==> p in people && p.id != id
  {
    if people == [] then []
    else if people[0].id == id then PeopleWithout(people[1..], id)
    else [people[0]] + PeopleWithout(people[1..], id)
  }

  /** The surviving ids are the filtered ids. */
  lemma {:induction false} PeopleWithoutIds(people: seq<Person>, id: string)
    ensures Ids(PeopleWithout(people, id)) == Without(Ids(people), id)
  {
    if people != [] {
      PeopleWithoutIds(people[1..], id);
    }
  }

  /** The survivors keep their relative order. */
  lemma {:induction false} PeopleWithoutAppend(a: seq<Person>, b: seq<Person>, id: string)
    ensures PeopleWithout(a + b, id) == PeopleWithout(a, id) + PeopleWithout(b, id)
  {
    if a == [] {
      assert a + b == b;
    } else {
      assert (a + b)[1..] == a[1..] + b;
      PeopleWithoutAppend(a[1..], b, id);
    }
  }

  /** A meal with `id` filtered out of its attendees. */
  function PurgeMeal(m: Meal, id: string): (r: Meal)
    ensures r.cost == m.cost
    ensures r.attendees == Without(m.attendees, id)
  {
    m.(attendees := Without(m.attendees, id))
  }

  /** Every day of the schedule with `id` filtered out of both meals. */
  function PurgeSchedule(s: Schedule, id: string): (r: Schedule)
    ensures r.Keys == s.Keys
    ensures forall d :: d in r ==> r[d] == DayData(PurgeMeal(s[d].breakfast, id), PurgeMeal(s[d].lunch, id))
    ensures !MainApp.Attends(r, id)
  {
    map d | d in s :: DayData(PurgeMeal(s[d].breakfast, id), PurgeMeal(s[d].lunch, id))
  }

  /** `handleRemovePerson`: when confirmed, the person is dropped from the
      people list and from every attendee list of every day; costs, title
      and the reset instant stay. */
  function RemovePerson(data: UserData, id: string, confirmed: bool): (r: UserData)
    ensures !confirmed ==> r == data
    ensures confirmed ==> r.people == PeopleWithout(data.people, id)
    ensures confirmed ==> r.schedule == PurgeSchedule(data.schedule, id)
    ensures confirmed ==> id !in Ids(r.people) && !MainApp.Attends(r.schedule, id)
    ensures r.title == data.title && r.lastReset == data.lastReset
  {
    PeopleWithoutIds(data.people, id);
    if !confirmed then data
    else data.(people := PeopleWithout(data.people, id), schedule := PurgeSchedule(data.schedule, id))
  }

  /** After a removal every remaining attendee is still a person, provided
      that held before. */
  lemma RemovePersonKeepsAttendeesAmongPeople(data: UserData, id: string)
    requires MainApp.AttendeesAmong(data.schedule, Ids(data.people))
    ensures var r := RemovePerson(data, id, true);
            MainApp.AttendeesAmong(r.schedule, Ids(r.people))
  {
    PeopleWithoutIds(data.people, id);
  }

  /** A removal keeps the remaining ids distinct. */
  lemma RemovePersonKeepsIdsDistinct(data: UserData, id: string, confirmed: bool)
    requires Distinct(Ids(data.people))
    ensures Distinct(Ids(RemovePerson(data, id, confirmed).people))
  {
    PeopleWithoutIds(data.people, id);
    WithoutDistinct(Ids(data.people), id);
  }
}
