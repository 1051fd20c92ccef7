/** The joke store: a CrudRepository keyed by generated id, with the derived queries
    `findByDate` and `existsJokeByDate`. The rows are a map from id to joke and the
    id generator is a counter. */
module Repository {
  import opened Outcomes
  import opened Jokes

  /** The persistent state: stored rows and the next id the generator hands out. */
  datatype Table = Table(rows: map<Id, Joke>, nextId: Id)

  /** What every write keeps true: each row carries its own key as id, passed bean
      validation when it was written, and has a key the generator already handed out. */
  ghost predicate WellFormed(t: Table) {
    forall k :: k in t.rows ==> k < t.nextId && t.rows[k].id == Some(k) && IsValid(t.rows[k])
  }

  /** At most one joke per calendar date. */
  ghost predicate UniqueDates(rows: map<Id, Joke>) {
    forall k1, k2 :: k1 in rows && k2 in rows && rows[k1].date.Some? && rows[k1].date == rows[k2].date ==> k1 == k2
  }

  /** `existsJokeByDate`, over the keys. */
  predicate DateUsed(rows: map<Id, Joke>, d: Date) {
    exists k :: k in rows && rows[k].date == Some(d)
  }

  /** `existsJokeByDate` is true exactly when some stored joke has date `d`. */
  lemma DateUsedIff(rows: map<Id, Joke>, d: Date)
    ensures DateUsed(rows, d) <==> exists j :: j in rows.Values && j.date == Some(d)
  {
    if DateUsed(rows, d) {
      var k :| k in rows && rows[k].date == Some(d);
      assert rows[k] in rows.Values;
    }
  }

  /** `findById`: the row stored under `id`, if any. */
  function FindRow(rows: map<Id, Joke>, id: Id): (r: Option<Joke>)
    ensures r.Some? <==> id in rows
    ensures r.Some? ==> r.value in rows.Values && r.value == rows[id]
  {
    if id in rows then Some(rows[id]) else None
  }

  /** `findByDate`: some stored joke on date `d`, if there is one. */
  ghost function JokeOn(rows: map<Id, Joke>, d: Date): (r: Option<Joke>)
    ensures r.Some? <==> DateUsed(rows, d)
    ensures r.Some? ==> r.value.date == Some(d) && r.value in rows.Values
  {
    if DateUsed(rows, d) then
      var k :| k in rows && rows[k].date == Some(d);
      Some(rows[k])
    else
      None
  }

  /** When dates are unique, `findByDate` returns the one joke on that date. */
  lemma JokeOnIsTheHolder(rows: map<Id, Joke>, d: Date, k: Id)
    requires k in rows && rows[k].date == Some(d)
    ensures UniqueDates(rows) ==> JokeOn(rows, d) == Some(rows[k])
  {
  }

  /** `save`, with bean validation on write: an invalid joke is refused and nothing
      is written; a joke whose id is stored replaces that row in full; any other joke
      is inserted under a fresh generated id. */
  function SaveRow(t: Table, j: Joke): (out: (Result<Joke>, Table))
    ensures out.0.Err? <==> !IsValid(j)
    ensures out.0.Err? ==> out == (Err(InvalidInput), t)
    ensures out.0.Ok? ==>
      var s := out.0.value;
      && s.id.Some?
      && s == j.(id := s.id)
      && out.1.rows == t.rows[s.id.value := s]
      && (j.id.Some? && j.id.value in t.rows ==> s.id == j.id && out.1.nextId == t.nextId)
      && (WellFormed(t) && (j.id.None? || j.id.value !in t.rows) ==> s.id.value !in t.rows)
  {
    if !IsValid(j) then
      (Err(InvalidInput), t)
    else if j.id.Some? && j.id.value in t.rows then
      (Ok(j), t.(rows := t.rows[j.id.value := j]))
    else
      var saved := j.(id := Some(t.nextId));
      (Ok(saved), Table(t.rows[t.nextId := saved], t.nextId + 1))
  }

  /** Saving keeps every row keyed by its own id, valid, and below the counter. */
  lemma SaveRowKeepsWellFormed(t: Table, j: Joke)
    requires WellFormed(t)
    ensures WellFormed(SaveRow(t, j).1)
  {
    var out := SaveRow(t, j);
    if out.0.Ok? {
      var s := out.0.value;
      assert IsValid(s) by {
        assert s.text == j.text && s.date == j.date;
      }
      forall k | k in out.1.rows
        ensures k < out.1.nextId && out.1.rows[k].id == Some(k) && IsValid(out.1.rows[k])
      {
        if k != s.id.value {
          assert out.1.rows[k] == t.rows[k];
        }
      }
    }
  }

  /** `deleteById`: removes the row with key `id`, if any. */
  function DeleteRow(t: Table, id: Id): (r: Table)
    ensures r.rows.Keys == t.rows.Keys - {id} && r.nextId == t.nextId
    ensures forall k :: k in r.rows ==> r.rows[k] == t.rows[k]
    ensures WellFormed(t) ==> WellFormed(r)
    ensures UniqueDates(t.rows) ==> UniqueDates(r.rows)
  {
    Table(t.rows - {id}, t.nextId)
  }

  /** The repository object the service writes through. */
  class JokeRepository {
    var rows: map<Id, Joke>
    var nextId: Id

    function Snapshot(): Table
      reads this
    {
      Table(rows, nextId)
    }

    ghost predicate Valid()
      reads this
    {
      WellFormed(Snapshot())
    }

    constructor ()
      ensures Valid() && rows == map[]
    {
      rows := map[];
      nextId := 1;
    }

    method Save(j: Joke) returns (r: Result<Joke>)
      requires Valid()
      modifies this
      ensures Valid()
      ensures (r, Snapshot()) == SaveRow(old(Snapshot()), j)
    {
      ghost var before := Snapshot();
      SaveRowKeepsWellFormed(before, j);
      if !IsValid(j) {
        return Err(InvalidInput);
      }
      if j.id.Some? && j.id.value in rows {
        rows := rows[j.id.value := j];
        r := Ok(j);
      } else {
        var saved := j.(id := Some(nextId));
        rows := rows[nextId := saved];
        nextId := nextId + 1;
        r := Ok(saved);
      }
      assert Snapshot() == SaveRow(before, j).1;
    }

    method FindById(id: Id) returns (r: Option<Joke>)
      ensures r == FindRow(rows, id)
      ensures Valid() && r.Some? ==> r.value.id == Some(id)
    {
      if id in rows {
        r := Some(rows[id]);
      } else {
        r := None;
      }
    }

    method ExistsJokeByDate(d: Date) returns (b: bool)
      ensures b == DateUsed(rows, d)
      ensures b <==> exists j :: j in rows.Values && j.date == Some(d)
    {
      b := DateUsed(rows, d);
      DateUsedIff(rows, d);
    }

    method FindByDate(d: Date) returns (r: Option<Joke>)
      ensures r.Some? <==> DateUsed(rows, d)
      ensures r.Some? ==> r.value.date == Some(d) && r.value in rows.Values
      ensures UniqueDates(rows) ==> r == JokeOn(rows, d)
    {
      if DateUsed(rows, d) {
        var k :| k in rows && rows[k].date == Some(d);
        JokeOnIsTheHolder(rows, d, k);
        r := Some(rows[k]);
      } else {
        r := None;
      }
    }

    method DeleteById(id: Id)
      requires Valid()
      modifies this
      ensures Valid()
      ensures Snapshot() == DeleteRow(old(Snapshot()), id)
    {
      rows := rows - {id};
    }
  }
}
