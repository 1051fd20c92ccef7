/** The joke service: the decisions that keep at most one joke per calendar date
    while jokes are added, updated, looked up and deleted through the repository. */
module Service {
  import opened Outcomes
  import opened Jokes
  import opened Repository

  /** Everything the service relies on about the store: well-formed rows and
      distinct dates. */
  ghost predicate Consistent(t: Table) {
    WellFormed(t) && UniqueDates(t.rows)
  }

  // ------------------------------------------------------------ the decisions

  /** `addJoke`: refuse a null joke, refuse a date that is already taken, otherwise save. */
  function Add(t: Table, joke: Option<Joke>): (out: (Result<Joke>, Table))
    ensures out.0.Err? ==> out.1 == t
  {
    if joke.None? then
      (Err(InvalidInput), t)
    else if joke.value.date.Some? && DateUsed(t.rows, joke.value.date.value) then
      (Err(Conflict), t)
    else
      SaveRow(t, joke.value)
  }

  /** The cross-record date check of `updateJoke`: the joke moves from the stored
      date to another one, and `findByDate` on the new date returns a record whose
      id differs from the stored record's id. */
  ghost predicate MovesOntoTakenDate(rows: map<Id, Joke>, j: Joke): (b: bool)
    requires j.id.Some? && j.id.value in rows
    ensures b ==> j.date.Some? && rows[j.id.value].date != j.date && DateUsed(rows, j.date.value)
  {
    var current := rows[j.id.value];
    && j.date.Some?
    && current.date.Some?
    && current.date != j.date
    && var holder := JokeOn(rows, j.date.value);
       holder.Some? && holder.value.id.Some? && current.id.Some? && holder.value.id != current.id
  }

  /** `updateJoke`: null joke, then missing id, then unknown id, then a date taken by
      another record; if every check passes, the joke is saved as a full replacement. */
  ghost function Update(t: Table, joke: Option<Joke>): (out: (Result<Joke>, Table))
    ensures out.0.Err? ==> out.1 == t
  {
    if joke.None? then
      (Err(InvalidInput), t)
    else if joke.value.id.None? then
      (Err(InvalidInput), t)
    else if joke.value.id.value !in t.rows then
      (Err(NotFound), t)
    else if MovesOntoTakenDate(t.rows, joke.value) then
      (Err(Conflict), t)
    else
      SaveRow(t, joke.value)
  }

  /** `getJokeById`: nothing for a null id, else the row stored under it. */
  function ById(t: Table, id: Option<Id>): (r: Option<Joke>)
    ensures r.Some? <==> id.Some? && id.value in t.rows
    ensures r.Some? ==> r.value == t.rows[id.value]
    ensures WellFormed(t) && r.Some? ==> r.value.id == id
  {
    if id.None? then None else FindRow(t.rows, id.value)
  }

  /** `getJokeByDate`: nothing for a null date, else a stored joke on that date. */
  ghost function ByDate(t: Table, date: Option<Date>): (r: Option<Joke>)
    ensures r.Some? <==> date.Some? && DateUsed(t.rows, date.value)
    ensures r.Some? ==> r.value.date == date && r.value in t.rows.Values
  {
    if date.None? then None else JokeOn(t.rows, date.value)
  }

  /** `deleteJoke`: nothing for a null id, else that key is removed and every other
      row and the generator stay as they were. */
  function Delete(t: Table, id: Option<Id>): (r: Table)
    ensures r.rows.Keys == if id.Some? then t.rows.Keys - {id.value} else t.rows.Keys
    ensures forall k :: k in r.rows ==> r.rows[k] == t.rows[k]
    ensures r.nextId == t.nextId
  {
    if id.None? then t else DeleteRow(t, id.value)
  }

  // ------------------------------------------------------------ addJoke

  /** A null joke and a joke on a taken date are refused, and nothing is written. */
  lemma AddRefusals(t: Table, joke: Option<Joke>)
    ensures joke.None? ==> Add(t, joke) == (Err(InvalidInput), t)
    ensures joke.Some? && joke.value.date.Some? && DateUsed(t.rows, joke.value.date.value) ==>
              Add(t, joke) == (Err(Conflict), t)
  {
  }

  /** A valid joke on a free date, with no id or an id that is not stored, is stored under a fresh id, which is returned;
      the store gains exactly that one row. */
  lemma AddInsertsOneRow(t: Table, j: Joke)
    requires WellFormed(t)
    requires j.id.None? || j.id.value !in t.rows
    requires IsValid(j) && !DateUsed(t.rows, j.date.value)
    ensures var (r, t') := Add(t, Some(j));
      && r.Ok? && r.value.id == Some(t.nextId)
      && r.value.text == j.text && r.value.date == j.date && r.value.description == j.description
      && t.nextId !in t.rows
      && t'.rows == t.rows[t.nextId := r.value]
      && |t'.rows| == |t.rows| + 1
  {
  }

  /** A joke that arrives with the id of a stored record and a free date is not
      inserted: the save overwrites that record, and the store does not grow. */
  lemma AddWithStoredIdReplacesThatRow(t: Table, j: Joke)
    requires j.id.Some? && j.id.value in t.rows
    requires IsValid(j) && !DateUsed(t.rows, j.date.value)
    ensures Add(t, Some(j)) == (Ok(j), t.(rows := t.rows[j.id.value := j]))
    ensures |Add(t, Some(j)).1.rows| == |t.rows|
  {
  }

  /** `addJoke` succeeds exactly when the joke is present, its date is free, and it
      passes validation. */
  lemma AddSucceedsIff(t: Table, joke: Option<Joke>)
    ensures Add(t, joke).0.Ok? <==>
              joke.Some? && IsValid(joke.value) && !DateUsed(t.rows, joke.value.date.value)
  {
  }

  /** `addJoke` keeps at most one joke per date. */
  lemma AddKeepsConsistent(t: Table, joke: Option<Joke>)
    requires Consistent(t)
    ensures Consistent(Add(t, joke).1)
  {
    var (r, t') := Add(t, joke);
    if r.Ok? {
      var j := joke.value;
      SaveRowKeepsWellFormed(t, j);
      var k := r.value.id.value;
      assert t'.rows == t.rows[k := r.value];
      forall k1, k2 | k1 in t'.rows && k2 in t'.rows && t'.rows[k1].date.Some? && t'.rows[k1].date == t'.rows[k2].date
        ensures k1 == k2
      {
        if k1 != k {
          assert t'.rows[k1] == t.rows[k1];
        }
        if k2 != k {
          assert t'.rows[k2] == t.rows[k2];
        }
      }
    }
  }

  /** Adding a joke to an empty store succeeds under the first generated id; adding
      another one for the same date is then refused. */
  lemma AddingTwiceOnOneDateConflicts(d: Date)
    ensures var first := NewJoke(Some("Funny Joke"), Some(d));
      var (r1, t1) := Add(Table(map[], 1), Some(first));
      && r1 == Ok(first.(id := Some(1)))
      && t1.rows == map[1 := first.(id := Some(1))]
      && Add(t1, Some(first)) == (Err(Conflict), t1)
  {
  }

  // ------------------------------------------------------------ updateJoke

  /** The checks come in the order `updateJoke` makes them, each refusal writes nothing: a null joke and a
      joke without an id are invalid, an id that is not stored is not found. */
  lemma UpdateRefusalOrder(t: Table, joke: Option<Joke>)
    ensures joke.None? ==> Update(t, joke) == (Err(InvalidInput), t)
    ensures joke.Some? && joke.value.id.None? ==> Update(t, joke) == (Err(InvalidInput), t)
    ensures joke.Some? && joke.value.id.Some? && joke.value.id.value !in t.rows ==>
              Update(t, joke) == (Err(NotFound), t)
  {
  }

  /** Moving a joke onto a date that another record holds is a conflict, and the
      store is left as it was. */
  lemma UpdateOntoTakenDateConflicts(t: Table, j: Joke, other: Id)
    requires WellFormed(t)
    requires j.id.Some? && j.id.value in t.rows && j.date.Some? && t.rows[j.id.value].date != j.date
    requires other in t.rows && t.rows[other].date == j.date
    ensures Update(t, Some(j)) == (Err(Conflict), t)
  {
  }

  /** Keeping the stored date, or moving to a date no record holds, never conflicts:
      the joke replaces the row under the same id and no other key changes. */
  lemma UpdateKeepingOrFreeDateReplaces(t: Table, j: Joke)
    requires WellFormed(t)
    requires j.id.Some? && j.id.value in t.rows
    requires j.date == t.rows[j.id.value].date || j.date.None? || !DateUsed(t.rows, j.date.value)
    ensures Update(t, Some(j)).0 != Err(Conflict)
    ensures IsValid(j) ==> Update(t, Some(j)) == (Ok(j), t.(rows := t.rows[j.id.value := j]))
    ensures !IsValid(j) ==> Update(t, Some(j)) == (Err(InvalidInput), t)
  {
  }

  /** `updateJoke` fails with Conflict exactly when the stored record has an id and the
      joke moves to a date another record holds. */
  lemma UpdateConflictIff(t: Table, joke: Option<Joke>)
    requires WellFormed(t)
    ensures Update(t, joke).0 == Err(Conflict) <==>
              && joke.Some? && joke.value.id.Some? && joke.value.id.value in t.rows
              && joke.value.date.Some? && t.rows[joke.value.id.value].date != joke.value.date
              && DateUsed(t.rows, joke.value.date.value)
  {
  }

  /** An update that passes the date check leaves no other record on the joke's date. */
  lemma PassedDateCheckMeansNoOtherHolder(t: Table, j: Joke)
    requires Consistent(t)
    requires j.id.Some? && j.id.value in t.rows && !MovesOntoTakenDate(t.rows, j)
    ensures forall k :: k in t.rows && j.date.Some? && t.rows[k].date == j.date ==> k == j.id.value
  {
  }

  /** `updateJoke` keeps at most one joke per date. */
  lemma UpdateKeepsConsistent(t: Table, joke: Option<Joke>)
    requires Consistent(t)
    ensures Consistent(Update(t, joke).1)
  {
    var (r, t') := Update(t, joke);
    if r.Ok? {
      var j := joke.value;
      var i := j.id.value;
      PassedDateCheckMeansNoOtherHolder(t, j);
      SaveRowKeepsWellFormed(t, j);
      assert t'.rows == t.rows[i := j];
      forall k1, k2 | k1 in t'.rows && k2 in t'.rows && t'.rows[k1].date.Some? && t'.rows[k1].date == t'.rows[k2].date
        ensures k1 == k2
      {
        if k1 != i {
          assert t'.rows[k1] == t.rows[k1];
        }
        if k2 != i {
          assert t'.rows[k2] == t.rows[k2];
        }
      }
    }
  }

  // ------------------------------------------------------------ lookups and deletes

  /** Null keys find nothing; otherwise the store's answer is returned. */
  lemma LookupsOfNull(t: Table)
    ensures ById(t, None) == None && ByDate(t, None) == None
  {
  }

  /** `deleteJoke(null)` changes nothing; `deleteJoke(id)` removes that key only, and
      doing it twice is the same as doing it once. */
  lemma DeleteRemovesOnlyThatKey(t: Table, id: Option<Id>)
    ensures id.None? ==> Delete(t, id) == t
    ensures id.Some? ==> Delete(t, id).rows == t.rows - {id.value} && Delete(t, id).nextId == t.nextId
    ensures Delete(Delete(t, id), id) == Delete(t, id)
  {
  }

  lemma DeleteKeepsConsistent(t: Table, id: Option<Id>)
    requires Consistent(t)
    ensures Consistent(Delete(t, id))
  {
  }

  // ------------------------------------------------------------ sequences of calls

  /** One service call that writes. */
  datatype Call = AddCall(joke: Option<Joke>) | UpdateCall(joke: Option<Joke>) | DeleteCall(id: Option<Id>)

  ghost function Step(t: Table, c: Call): Table {
    match c
    case AddCall(j) => Add(t, j).1
    case UpdateCall(j) => Update(t, j).1
    case DeleteCall(id) => Delete(t, id)
  }

  ghost function Run(t: Table, calls: seq<Call>): Table
    decreases |calls|
  {
    if calls == [] then t else Run(Step(t, calls[0]), calls[1..])
  }

  /** No sequence of adds, updates and deletes ever leaves two jokes on one date. */
  lemma {:induction false} RunKeepsConsistent(t: Table, calls: seq<Call>)
    requires Consistent(t)
    ensures Consistent(Run(t, calls))
    decreases |calls|
  {
    if calls != [] {
      match calls[0] {
        case AddCall(j) => AddKeepsConsistent(t, j);
        case UpdateCall(j) => UpdateKeepsConsistent(t, j);
        case DeleteCall(id) => DeleteKeepsConsistent(t, id);
      }
      RunKeepsConsistent(Step(t, calls[0]), calls[1..]);
    }
  }

  /** A save keeps the rows well formed, never moves the generator back, and never
      brings back an id that was handed out and is no longer stored. */
  lemma SaveNeverReusesIds(t: Table, j: Joke, id: Id)
    requires WellFormed(t)
    requires id < t.nextId && id !in t.rows
    ensures var t' := SaveRow(t, j).1; WellFormed(t') && t.nextId <= t'.nextId && id !in t'.rows
  {
  }

  /** The same holds of every service call that writes. */
  lemma StepNeverReusesIds(t: Table, c: Call, id: Id)
    requires WellFormed(t)
    requires id < t.nextId && id !in t.rows
    ensures WellFormed(Step(t, c)) && t.nextId <= Step(t, c).nextId && id !in Step(t, c).rows
  {
    match c {
      case AddCall(joke) =>
        if joke.Some? {
          SaveNeverReusesIds(t, joke.value, id);
          assert Add(t, joke).1 == t || Add(t, joke) == SaveRow(t, joke.value);
        }
      case UpdateCall(joke) =>
        if joke.Some? {
          SaveNeverReusesIds(t, joke.value, id);
          assert Update(t, joke).1 == t || Update(t, joke) == SaveRow(t, joke.value);
        }
      case DeleteCall(_) =>
    }
  }

  /** An id that was handed out and is no longer stored never comes back: the
      generator only moves forward and writes only reuse stored ids. */
  lemma {:induction false} RunNeverReusesIds(t: Table, calls: seq<Call>, id: Id)
    requires WellFormed(t)
    requires id < t.nextId && id !in t.rows
    ensures WellFormed(Run(t, calls)) && t.nextId <= Run(t, calls).nextId && id !in Run(t, calls).rows
    decreases |calls|
  {
    if calls != [] {
      StepNeverReusesIds(t, calls[0], id);
      RunNeverReusesIds(Step(t, calls[0]), calls[1..], id);
    }
  }

  // ------------------------------------------------------------ the service object

  class JokeServiceImpl {
    const repository: JokeRepository

    ghost predicate Valid()
      reads repository
    {
      repository.Valid() && UniqueDates(repository.rows)
    }

    constructor (repository: JokeRepository)
      requires repository.Valid() && UniqueDates(repository.rows)
      ensures this.repository == repository && Valid()
    {
      this.repository := repository;
    }

    method AddJoke(joke: Option<Joke>) returns (r: Result<Joke>)
      requires Valid()
      modifies repository
      ensures Valid()
      ensures (r, repository.Snapshot()) == Add(old(repository.Snapshot()), joke)
    {
      AddKeepsConsistent(repository.Snapshot(), joke);
      if joke.None? {
        return Err(InvalidInput);
      }
      var j := joke.value;
      if j.date.Some? {
        var taken := repository.ExistsJokeByDate(j.date.value);
        if taken {
          return Err(Conflict);
        }
      }
      r := repository.Save(j);
    }

    method UpdateJoke(joke: Option<Joke>) returns (r: Result<Joke>)
      requires Valid()
      modifies repository
      ensures Valid()
      ensures (r, repository.Snapshot()) == Update(old(repository.Snapshot()), joke)
    {
      UpdateKeepsConsistent(repository.Snapshot(), joke);
      if joke.None? {
        return Err(InvalidInput);
      }
      var j := joke.value;
      if j.id.None? {
        return Err(InvalidInput);
      }
      var current := GetJokeById(j.id);
      if current.None? {
        return Err(NotFound);
      }
      if j.date.Some? && current.value.date.Some? && current.value.date != j.date {
        var holder := GetJokeByDate(j.date);
        if holder.Some? && holder.value.id.Some? && current.value.id.Some? && holder.value.id != current.value.id {
          return Err(Conflict);
        }
      }
      r := repository.Save(j);
    }

    method GetJokeById(id: Option<Id>) returns (r: Option<Joke>)
      requires Valid()
      ensures r == ById(repository.Snapshot(), id)
      ensures r.Some? ==> r.value.id == id && r.value in repository.rows.Values
    {
      if id.None? {
        return None;
      }
      r := repository.FindById(id.value);
    }

    method GetJokeByDate(date: Option<Date>) returns (r: Option<Joke>)
      requires Valid()
      ensures r == ByDate(repository.Snapshot(), date)
      ensures r.Some? ==> r.value.date == date && r.value in repository.rows.Values
    {
      if date.None? {
        return None;
      }
      r := repository.FindByDate(date.value);
    }

    method DeleteJoke(id: Option<Id>)
      requires Valid()
      modifies repository
      ensures Valid()
      ensures repository.Snapshot() == Delete(old(repository.Snapshot()), id)
    {
      DeleteKeepsConsistent(repository.Snapshot(), id);
      if id.Some? {
        repository.DeleteById(id.value);
      }
    }
  }
}
