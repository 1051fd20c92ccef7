# fa-jotd: a verified model of the joke-of-the-day service

The service stores one joke per calendar date and lets clients add, update, look
up and delete them. The model covers the Java service (`JokeServiceImpl`), the
`Joke` entity and the lookup precedence of `JokeRestController`. The store is a
map from generated id to joke plus an id counter. The main property proved is
the service's invariant: **no two stored jokes share a date**. It holds after
every add, update and delete, and after any sequence of them.

Files (one module each):

- `outcomes.dfy` (`Outcomes`): `Option` for Java `null`/`Optional`, and `Result`
  with the three error kinds. `InvalidInput` covers `ValidationException`,
  `InvalidJokeException` and bean-validation failures. `NotFound` covers
  `JokeNotFoundException`. `Conflict` covers `JokeExistsForDateException`.
- `jokes.dfy` (`Jokes`): the `Joke` record with every field nullable, and its
  two-argument constructor. It also holds the `@NotBlank`/`@NotNull` constraints,
  with `String.trim` written out, and `equals`/`hashCode` over (text, date).
  `hashCode` uses Java `int` wrap-around.
- `repository.dfy` (`Repository`): the `Table` state (rows and next id) with pure
  `SaveRow`, `DeleteRow`, `FindRow` (`findById`), `DateUsed` (`existsJokeByDate`)
  and `JokeOn` (`findByDate`). The `JokeRepository` class
  has a `map` field and a counter field, and each of its methods is proved
  against those functions.
- `service.dfy` (`Service`): `Add`, `Update`, `ById`, `ByDate` and `Delete` are
  the service's decisions as functions of the table. The lemmas about them state
  the refusals, their order, the success cases and the uniqueness invariant. The
  `JokeServiceImpl` class holds a `JokeRepository`, and each of its methods is
  proved equal to its function.
- `controller.dfy` (`Controller`): `ChooseLookup` (id, else date, else today), and
  the `JokeRestController` class. Its `getJoke` does exactly one lookup. Its add,
  update and delete methods hand their argument to the service.

How the store behaves (JPA `save` with bean validation):

- A joke that fails `@NotBlank`/`@NotNull` is refused with InvalidInput, and
  nothing is written.
- A joke whose id is stored replaces that row in full.
- Any other joke, with no id or an id that is not stored, is inserted under the
  next generated id.
- Because of this, `addJoke` with the id of a stored record and a free date
  overwrites that record (`Service.AddWithStoredIdReplacesThatRow`). The id
  check only happens in `updateJoke`.

Where the code and its unit tests differ, the model follows the code:

- `updateJoke` on a missing or unknown id fails with InvalidInput or NotFound. It
  does not fall back to an insert, which some unit tests still expect
  (`JokeServiceTest.java:100-126`).
- `addJoke(null)` raises `ValidationException`, as `JokeServiceTest.java:44`
  expects. Three other tests also expect `ValidationException`, but the code
  raises something else. An add on a taken date raises
  `JokeExistsForDateException` (`JokeServiceTest.java:50`), and so does an update
  onto a date another record holds (`JokeServiceTest.java:97`). An update of null
  raises `InvalidJokeException` (`JokeServiceTest.java:130`).

## Model

| member | source | states |
|---|---|---|
| `Jokes.NewJoke` | src/main/java/jtomsett/fa_jotd/dao/Joke.java:21-24 | the two-argument constructor sets text and date and leaves id and description null |
| `Jokes.IsSpace` | src/main/java/jtomsett/fa_jotd/dao/Joke.java:29 | the body is the definition: whitespace for `String.trim` is any char up to U+0020 |
| `Jokes.Trim` | src/main/java/jtomsett/fa_jotd/dao/Joke.java:29 | `String.trim` yields a result no longer than the input that starts and ends with a non-space, and is empty iff the input is all whitespace (`TrimIsSlice` says which characters it keeps) |
| `Jokes.TrimIsSlice` | src/main/java/jtomsett/fa_jotd/dao/Joke.java:29 | `String.trim` returns a contiguous slice of its input, and everything before and after that slice is whitespace |
| `Jokes.NotBlank` | src/main/java/jtomsett/fa_jotd/dao/Joke.java:29-30 | a text that passes `@NotBlank` is present and non-empty (`NotBlankIff` gives the exact condition) |
| `Jokes.NotBlankIff` | src/main/java/jtomsett/fa_jotd/dao/Joke.java:29-30 | a text passes `@NotBlank` (not null, non-empty after trim) iff it contains a character above U+0020 |
| `Jokes.IsValid` | src/main/java/jtomsett/fa_jotd/dao/Joke.java:29-33 | a joke that passes validation has a present, non-empty text and a present date (`IsValidIff` gives the exact condition) |
| `Jokes.IsValidIff` | src/main/java/jtomsett/fa_jotd/dao/Joke.java:29-33 | a joke can be stored iff its date is present and its text is present with a non-whitespace character |
| `Jokes.TrimStart` | src/main/java/jtomsett/fa_jotd/dao/Joke.java:29 | leading trim yields a suffix that starts with a non-space, and everything dropped is whitespace |
| `Jokes.TrimEnd` | src/main/java/jtomsett/fa_jotd/dao/Joke.java:29 | trailing trim yields a prefix that ends with a non-space, and everything dropped is whitespace |
| `Jokes.Equals` | src/main/java/jtomsett/fa_jotd/dao/Joke.java:37-42 | equals is false for null and for another class, and for two jokes it holds iff text and date are equal |
| `Jokes.EqualsReflexive` | src/main/java/jtomsett/fa_jotd/dao/Joke.java:41 | every joke equals itself |
| `Jokes.EqualsSymmetric` | src/main/java/jtomsett/fa_jotd/dao/Joke.java:41 | a equals b iff b equals a |
| `Jokes.EqualsTransitive` | src/main/java/jtomsett/fa_jotd/dao/Joke.java:41 | equality of jokes is transitive |
| `Jokes.EqualsIgnoresIdAndDescription` | src/main/java/jtomsett/fa_jotd/dao/Joke.java:37-42 | changing id or description never changes the outcome of equals |
| `Jokes.Wrap32` | src/main/java/jtomsett/fa_jotd/dao/Joke.java:44-47 | Java int arithmetic: the result is in int range and congruent to the exact value modulo 2^32 |
| `Jokes.Utf16` | src/main/java/jtomsett/fa_jotd/dao/Joke.java:46 | a character is one UTF-16 unit below U+10000 and otherwise a high surrogate followed by a low surrogate that decode back to it |
| `Jokes.Utf16Units` | src/main/java/jtomsett/fa_jotd/dao/Joke.java:46 | the UTF-16 encoding of a string has at least one unit per character, each unit in 16-bit range |
| `Jokes.PolynomialLast` | src/main/java/jtomsett/fa_jotd/dao/Joke.java:46 | the documented `String.hashCode` sum s[0]*31^(n-1) + ... + s[n-1] can be evaluated left to right as h = 31 * h + s[i] |
| `Jokes.UnitsHash` | src/main/java/jtomsett/fa_jotd/dao/Joke.java:46 | the `int` loop h = 31 * h + u over code units is congruent modulo 2^32 to the documented sum |
| `Jokes.StringHash` | src/main/java/jtomsett/fa_jotd/dao/Joke.java:46 | `String.hashCode` is congruent modulo 2^32 to the documented sum over the string's UTF-16 code units |
| `Jokes.SupplementaryCharHashesAsSurrogates` | src/main/java/jtomsett/fa_jotd/dao/Joke.java:46 | U+1F600 is hashed as its two surrogates 0xD83D, 0xDE00, giving 1772899 |
| `Jokes.TextHash` | src/main/java/jtomsett/fa_jotd/dao/Joke.java:46 | the body is the definition: the text field contributes its `String.hashCode`, and 0 when null |
| `Jokes.DateHash` | src/main/java/jtomsett/fa_jotd/dao/Joke.java:46 | the body is the definition: the date field contributes its `LocalDate.hashCode`, and 0 when null |
| `Jokes.ObjectsHash` | src/main/java/jtomsett/fa_jotd/dao/Joke.java:46 | `Objects.hash` of two fields is congruent modulo 2^32 to 31^2 + 31 * h1 + h2 |
| `Jokes.HashCode` | src/main/java/jtomsett/fa_jotd/dao/Joke.java:44-47 | `Joke.hashCode` is congruent modulo 2^32 to 31^2 + 31 * (text hash) + (date hash), a null field counting as 0 |
| `Jokes.HashAgreesWithEquals` | src/main/java/jtomsett/fa_jotd/dao/Joke.java:44-47 | equal jokes have equal `hashCode` (`Objects.hash(joke, date)` with int wrap-around) |
| `Repository.DateUsed` | src/main/java/jtomsett/fa_jotd/repository/JokeRepository.java:12 | the body is the definition: `existsJokeByDate` holds when some stored key has a joke on that date |
| `Repository.DateUsedIff` | src/main/java/jtomsett/fa_jotd/repository/JokeRepository.java:12 | `existsJokeByDate` holds iff some stored joke has that date |
| `Repository.FindRow` | src/main/java/jtomsett/fa_jotd/repository/JokeRepository.java:9 | `findById` finds a joke iff the id is stored, and it is the row stored under that id |
| `Repository.JokeOn` | src/main/java/jtomsett/fa_jotd/repository/JokeRepository.java:11 | `findByDate` returns a joke iff one is stored on that date, and what it returns is a stored joke on that date |
| `Repository.JokeOnIsTheHolder` | src/main/java/jtomsett/fa_jotd/repository/JokeRepository.java:11 | while dates are unique, `findByDate` returns exactly the joke stored on that date |
| `Repository.SaveRow` | src/main/java/jtomsett/fa_jotd/dao/Joke.java:26-33 | save refuses an invalid joke with no write; otherwise it stores the joke under its own stored id or under a fresh generated id, returns it with that id, and changes no other key |
| `Repository.SaveRowKeepsWellFormed` | src/main/java/jtomsett/fa_jotd/dao/Joke.java:26-33 | after a save every row still carries its key as id, is valid, and has a key below the counter |
| `Repository.DeleteRow` | src/main/java/jtomsett/fa_jotd/repository/JokeRepository.java:9 | `deleteById` removes that key only, leaves the counter, and keeps well-formedness and unique dates |
| `Repository.JokeRepository.Save` | src/main/java/jtomsett/fa_jotd/repository/JokeRepository.java:9 | the in-place save leaves the result and new state that `SaveRow` gives, and keeps the store well formed |
| `Repository.JokeRepository.FindById` | src/main/java/jtomsett/fa_jotd/repository/JokeRepository.java:9 | `findById` answers what `FindRow` gives, and the row found carries its key as id |
| `Repository.JokeRepository.ExistsJokeByDate` | src/main/java/jtomsett/fa_jotd/repository/JokeRepository.java:12 | `existsJokeByDate` answers what `DateUsed` gives, which is true iff some stored joke has that date |
| `Repository.JokeRepository.FindByDate` | src/main/java/jtomsett/fa_jotd/repository/JokeRepository.java:11 | finds a stored joke on the date iff one exists; with unique dates it is the one `JokeOn` names |
| `Repository.JokeRepository.DeleteById` | src/main/java/jtomsett/fa_jotd/repository/JokeRepository.java:9 | removes that key in place, as `DeleteRow` says |
| `Service.Add` | src/main/java/jtomsett/fa_jotd/service/JokeServiceImpl.java:23-34 | a refused add writes nothing |
| `Service.AddRefusals` | src/main/java/jtomsett/fa_jotd/service/JokeServiceImpl.java:25-31 | a null joke fails with InvalidInput and a joke on a taken date fails with Conflict, both leaving the store unchanged |
| `Service.AddInsertsOneRow` | src/main/java/jtomsett/fa_jotd/service/JokeServiceImpl.java:29-33 | a new valid joke on a free date gains exactly one row under a fresh id, with the given text, date and description, and that id is returned |
| `Service.AddWithStoredIdReplacesThatRow` | src/main/java/jtomsett/fa_jotd/service/JokeServiceImpl.java:29-33 | an add carrying a stored id and a free date overwrites that row, and the store does not grow |
| `Service.AddSucceedsIff` | src/main/java/jtomsett/fa_jotd/service/JokeServiceImpl.java:25-33 | add succeeds iff the joke is non-null, valid and on a free date |
| `Service.AddKeepsConsistent` | src/main/java/jtomsett/fa_jotd/service/JokeServiceImpl.java:29-33 | if no two stored jokes share a date before an add, none do after it |
| `Service.AddingTwiceOnOneDateConflicts` | src/test/java/jtomsett/fa_jotd/FaJotdApplicationTests.java:108-128 | on an empty store the first add gets id 1, and a second add for the same date is refused with Conflict |
| `Service.MovesOntoTakenDate` | src/main/java/jtomsett/fa_jotd/service/JokeServiceImpl.java:51-62 | the date check fires only when the joke has a date, the date differs from the stored one, and some record holds the new date |
| `Service.Update` | src/main/java/jtomsett/fa_jotd/service/JokeServiceImpl.java:37-66 | a refused update writes nothing |
| `Service.UpdateRefusalOrder` | src/main/java/jtomsett/fa_jotd/service/JokeServiceImpl.java:38-49 | null joke, then null id (InvalidInput), then unknown id (NotFound), each with no write |
| `Service.UpdateOntoTakenDateConflicts` | src/main/java/jtomsett/fa_jotd/service/JokeServiceImpl.java:51-62 | moving a joke to a date another record holds fails with Conflict and leaves the store unchanged |
| `Service.UpdateKeepingOrFreeDateReplaces` | src/main/java/jtomsett/fa_jotd/service/JokeServiceImpl.java:51-65 | keeping the stored date or moving to a free date never conflicts; a valid joke replaces the row under the same id and no other key changes |
| `Service.UpdateConflictIff` | src/main/java/jtomsett/fa_jotd/service/JokeServiceImpl.java:51-62 | update fails with Conflict iff the id is stored, the date changes and another record holds the new date |
| `Service.PassedDateCheckMeansNoOtherHolder` | src/main/java/jtomsett/fa_jotd/service/JokeServiceImpl.java:51-63 | once the date check passes, no record other than the one being updated holds the joke's date |
| `Service.UpdateKeepsConsistent` | src/main/java/jtomsett/fa_jotd/service/JokeServiceImpl.java:51-65 | if no two stored jokes share a date before an update, none do after it |
| `Service.ById` | src/main/java/jtomsett/fa_jotd/service/JokeServiceImpl.java:68-74 | `getJokeById` finds a joke iff the id is non-null and stored, and returns the row under that id, whose id is that id |
| `Service.ByDate` | src/main/java/jtomsett/fa_jotd/service/JokeServiceImpl.java:76-82 | `getJokeByDate` finds a joke iff the date is non-null and some stored joke has it, and returns a stored joke on that date |
| `Service.Delete` | src/main/java/jtomsett/fa_jotd/service/JokeServiceImpl.java:84-89 | `deleteJoke` removes the given key only, leaves null a no-op, and keeps every other row and the generator |
| `Service.LookupsOfNull` | src/main/java/jtomsett/fa_jotd/service/JokeServiceImpl.java:69-82 | a null id or date finds nothing |
| `Service.DeleteRemovesOnlyThatKey` | src/main/java/jtomsett/fa_jotd/service/JokeServiceImpl.java:85-89 | delete of null changes nothing, delete of an id removes only that key, and repeating it changes nothing more |
| `Service.DeleteKeepsConsistent` | src/main/java/jtomsett/fa_jotd/service/JokeServiceImpl.java:85-89 | delete keeps the store well formed and its dates unique |
| `Service.SaveNeverReusesIds` | src/main/java/jtomsett/fa_jotd/dao/Joke.java:26-27 | a save never moves the generator back nor restores an id that was handed out and deleted |
| `Service.StepNeverReusesIds` | src/main/java/jtomsett/fa_jotd/dao/Joke.java:26-27 | the same holds for each add, update and delete |
| `Service.RunNeverReusesIds` | src/main/java/jtomsett/fa_jotd/dao/Joke.java:26-27 | over any sequence of calls, a deleted id never comes back |
| `Service.RunKeepsConsistent` | src/main/java/jtomsett/fa_jotd/service/JokeServiceImpl.java:22-89 | no sequence of adds, updates and deletes ever leaves two jokes on one date |
| `Service.JokeServiceImpl.AddJoke` | src/main/java/jtomsett/fa_jotd/service/JokeServiceImpl.java:22-34 | the in-place add returns and leaves what `Add` gives, and keeps dates unique |
| `Service.JokeServiceImpl.UpdateJoke` | src/main/java/jtomsett/fa_jotd/service/JokeServiceImpl.java:36-66 | the in-place update returns and leaves what `Update` gives, and keeps dates unique |
| `Service.JokeServiceImpl.GetJokeById` | src/main/java/jtomsett/fa_jotd/service/JokeServiceImpl.java:68-74 | returns nothing for a null id, else the stored row with that id |
| `Service.JokeServiceImpl.GetJokeByDate` | src/main/java/jtomsett/fa_jotd/service/JokeServiceImpl.java:76-82 | returns nothing for a null date, else the stored joke on that date if there is one |
| `Service.JokeServiceImpl.DeleteJoke` | src/main/java/jtomsett/fa_jotd/service/JokeServiceImpl.java:84-89 | does nothing for a null id, else removes that key in place; dates stay unique |
| `Controller.ChooseLookup` | src/main/java/jtomsett/fa_jotd/controller/JokeRestController.java:40-49 | the lookup is by id iff an id is given; otherwise by the given date, else by today |
| `Controller.Answer` | src/main/java/jtomsett/fa_jotd/controller/JokeRestController.java:40-49 | a lookup that finds nothing fails with NotFound (`orElseThrow`); a found joke is a stored one; by id it succeeds iff the id is stored, by date iff some joke has that date |
| `Controller.IdShadowsDate` | src/main/java/jtomsett/fa_jotd/controller/JokeRestController.java:40-42 | with an id given, neither the date nor today affects the answer |
| `Controller.JokeRestController.GetJoke` | src/main/java/jtomsett/fa_jotd/controller/JokeRestController.java:35-50 | performs the one lookup `ChooseLookup` picks; fails only with NotFound, and with an id fails iff the id is not stored |
| `Controller.JokeRestController.AddJoke` | src/main/java/jtomsett/fa_jotd/controller/JokeRestController.java:60-68 | an invalid body is refused with no write (`@Valid`); a valid one gets exactly the service's add |
| `Controller.JokeRestController.UpdateJoke` | src/main/java/jtomsett/fa_jotd/controller/JokeRestController.java:79-82 | an invalid body is refused with no write (`@Valid`); a valid one gets exactly the service's update |
| `Controller.JokeRestController.DeleteJoke` | src/main/java/jtomsett/fa_jotd/controller/JokeRestController.java:85-88 | the path id goes to the service's delete unchanged |

## Left out

- Concurrency: two requests can both pass the date check before either writes. The
  model is sequential, and the entity declares no unique index on the date.
- HTTP routing, status codes (`@ResponseStatus`), JSON binding, Swagger metadata and
  exception messages are not modelled. The exceptions are the three error kinds.
- `LocalDate.now()` is the `today` parameter of `GetJoke`. Dates are opaque integers
  compared only for equality, with no calendar arithmetic.
- `LocalDate.hashCode` is not part of this model. `HashCode` takes it as a function
  parameter. `String.hashCode` is written out over the UTF-16 code units of the
  text. Java strings that are not valid UTF-16 (unpaired surrogates) cannot be
  expressed as Dafny strings and are not modelled.
- Ids are unbounded naturals. The model does not capture overflow of the `Long`
  generator.
- Lombok setters are not modelled as mutation: a changed joke is a new record value
  (`j.(id := ...)`).
- `Repository.JokeRepository.FindByDate`: when dates are not unique, Spring Data
  throws on several matches. The model instead returns one of them. The same
  choice is made by `Repository.JokeOn`, and so by `Service.ByDate`,
  `Service.MovesOntoTakenDate`, `Service.UpdateOntoTakenDateConflicts` and
  `Service.UpdateConflictIff`. Under the service's invariant this case never
  arises.
- `Repository.SaveRow`: saving a joke whose id is not stored inserts it under a fresh
  id, as Hibernate's merge of a generated-id entity does. Newer Hibernate versions
  refuse such a merge instead. This path is only reachable through `addJoke`.
- `deleteById` on an id that is not stored is a no-op, as in Spring Data 3. Older
  versions threw `EmptyResultDataAccessException`.
- The integration tests for `/joke/today`, `/joke/{id}` and the 404 on delete are
  not modelled. Those routes and that behaviour are not in the controller.
