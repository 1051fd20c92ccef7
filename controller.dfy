/** The REST controller: which single lookup `GET /joke` performs, and the request-body
    validation in front of add and update, which otherwise hand their argument to the
    service and return its answer. */
module Controller {
  import opened Outcomes
  import opened Jokes
  import opened Repository
  import opened Service

  /** The one store lookup a `GET /joke` request performs. */
  datatype Lookup = IdLookup(id: Id) | DateLookup(date: Date)

  /** Precedence of `getJoke`: the id if given, else the date if given, else today. */
  function ChooseLookup(id: Option<Id>, date: Option<Date>, today: Date): (l: Lookup)
    ensures l.IdLookup? <==> id.Some?
    ensures id.Some? ==> l.id == id.value
    ensures id.None? && date.Some? ==> l.date == date.value
    ensures id.None? && date.None? ==> l.date == today
  {
    if id.Some? then IdLookup(id.value)
    else if date.Some? then DateLookup(date.value)
    else DateLookup(today)
  }

  /** The answer to one lookup: the stored joke, or NotFound (`orElseThrow`). */
  ghost function Answer(t: Table, l: Lookup): (r: Result<Joke>)
    ensures r.Err? ==> r.error == NotFound
    ensures r.Ok? ==> r.value in t.rows.Values
    ensures l.IdLookup? ==> (r.Ok? <==> l.id in t.rows)
    ensures l.DateLookup? ==> (r.Ok? <==> DateUsed(t.rows, l.date))
  {
    var found := match l
      case IdLookup(i) => ById(t, Some(i))
      case DateLookup(d) => ByDate(t, Some(d));
    if found.Some? then Ok(found.value) else Err(NotFound)
  }

  /** Once an id is given, neither the date nor today has any bearing on the answer. */
  lemma IdShadowsDate(t: Table, id: Id, date1: Option<Date>, date2: Option<Date>, today1: Date, today2: Date)
    ensures Answer(t, ChooseLookup(Some(id), date1, today1)) == Answer(t, ChooseLookup(Some(id), date2, today2))
  {
  }

  class JokeRestController {
    const service: JokeServiceImpl

    constructor (service: JokeServiceImpl)
      requires service.Valid()
      ensures this.service == service && service.Valid()
    {
      this.service := service;
    }

    /** `GET /joke`; `today` stands for `LocalDate.now()`. */
    method GetJoke(id: Option<Id>, date: Option<Date>, today: Date) returns (r: Result<Joke>)
      requires service.Valid()
      ensures r == Answer(service.repository.Snapshot(), ChooseLookup(id, date, today))
      ensures r.Err? ==> r.error == NotFound
      ensures id.Some? ==> (r.Ok? <==> id.value in service.repository.rows)
      ensures r.Ok? ==> r.value in service.repository.rows.Values
    {
      var found: Option<Joke>;
      if id.Some? {
        found := service.GetJokeById(id);
      } else if date.Some? {
        found := service.GetJokeByDate(date);
      } else {
        found := service.GetJokeByDate(Some(today));
      }
      r := if found.Some? then Ok(found.value) else Err(NotFound);
    }

    /** `POST /joke/add`: the body is validated, then handed to the service unchanged. */
    method AddJoke(joke: Joke) returns (r: Result<Joke>)
      requires service.Valid()
      modifies service.repository
      ensures service.Valid()
      ensures !IsValid(joke) ==> r == Err(InvalidInput) && unchanged(service.repository)
      ensures IsValid(joke) ==> (r, service.repository.Snapshot()) == Add(old(service.repository.Snapshot()), Some(joke))
    {
      if !IsValid(joke) {
        return Err(InvalidInput);
      }
      r := service.AddJoke(Some(joke));
    }

    /** `PUT /joke/update`: the body is validated, then handed to the service unchanged. */
    method UpdateJoke(joke: Joke) returns (r: Result<Joke>)
      requires service.Valid()
      modifies service.repository
      ensures service.Valid()
      ensures !IsValid(joke) ==> r == Err(InvalidInput) && unchanged(service.repository)
      ensures IsValid(joke) ==> (r, service.repository.Snapshot()) == Update(old(service.repository.Snapshot()), Some(joke))
    {
      if !IsValid(joke) {
        return Err(InvalidInput);
      }
      r := service.UpdateJoke(Some(joke));
    }

    /** `DELETE /joke/delete/{id}`: the path id is handed to the service. */
    method DeleteJoke(id: Id)
      requires service.Valid()
      modifies service.repository
      ensures service.Valid()
      ensures service.repository.Snapshot() == Delete(old(service.repository.Snapshot()), Some(id))
    {
      service.DeleteJoke(Some(id));
    }
  }
}
