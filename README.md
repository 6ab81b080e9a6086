# Student REST service: normalisation, validation and request handling

This project models the core of a small Go HTTP service (gin router, GORM
store) that keeps a table of students. Each student has a name, a CPF (the
Brazilian taxpayer number, 11 digits) and an RG (identity-card number,
9 digits).

- `models.dfy` (module `Models`) is the `Student` record. It holds the
  normalisation that `SetCPF` and `SetRG` apply: every character outside
  `0`–`9` is removed. It also holds the `validate` struct tags that
  `ValidateStudent` checks: `nonzero`, `len=11`/`len=9` and `regexp=^[0-9]*$`.
- `persistence.dfy` (module `Persistence`) is the store. `Store` is a class
  with a `map<nat, Student>` from primary key to row, plus the next key the
  auto-increment column hands out. It has one method for each GORM call the
  handlers make: `Create`, `First`, `Where(...).First`, `Find`, `Updates`
  and `Delete`. Key 0 is never used, because a zero id in a loaded record
  means "not found".
- `controllers.dfy` (module `Controllers`) holds the handlers. Each one is
  a method that takes the store and returns a status code and a payload. A
  handler fills a local record step by step. It answers early with 404 or
  400, and otherwise writes to the store and answers 200. A JSON body is
  either `Malformed` or an `Overlay` of optional `name`/`cpf`/`rg` values.
- `scenarios.dfy` (module `Scenarios`) holds request sequences over several
  handlers. It includes the integration tests' fixtures and shows what a
  client can conclude from the handlers' contracts alone.

Two invariants are proved on the store:

- `Store.Valid()` holds across every call: keys are positive, below
  `nextId`, and equal to each row's `id`.
- `Store.Conforming()` says every row passes validation. Each mutating
  handler keeps it.

`ValidateStudent` takes the record by pointer but only reads it. Here it is
a function of a record value, so it cannot change the record.

The greeting key follows the handler: `"API says"` (controllers/controller.go:13).
The greeting test expects `"API says:"`, with a colon (main_test.go:34). That
test is stale, so the model follows the code.

## Model

| member | source | states |
|---|---|---|
| Models.OnlyDigits | models/students.go:17-20 | the normalised string contains only `0`–`9` and is never longer than its input |
| Models.OnlyDigitsAppend | models/students.go:17-20 | the filter works character by character: normalising `a + b` is normalising `a`, then `b`, concatenated in order |
| Models.OnlyDigitsFixesDigits | models/students.go:17-20 | normalisation leaves a string unchanged exactly when it is made of digits only (both directions) |
| Models.OnlyDigitsIdempotent | models/students.go:17-25 | normalising twice gives the same string as normalising once |
| Models.OnlyDigitsIsSubsequence | models/students.go:17-20 | the normalised string is drawn from the input in order |
| Models.DigitSubsequenceBound | models/students.go:17-20 | no digit is lost: every all-digit subsequence of the input is at most as long as the normalised string |
| Models.OnlyDigitsIsTheDigitSubsequence | models/students.go:17-20 | the normalised string is the unique all-digit subsequence of that length, i.e. exactly the input's digits in their original order |
| Models.SetCPF | models/students.go:17-20 | only the CPF changes (id, name and RG untouched); the new CPF is the normalised value, all digits, no longer than the value, and a digits-only value is stored unchanged |
| Models.SetRG | models/students.go:22-25 | only the RG changes (id, name and CPF untouched); the new RG is the normalised value, all digits, no longer than the value, and a digits-only value is stored unchanged |
| Models.Normalise | controllers/controller.go:79-80 | the two setter calls keep id and name, leave CPF and RG digits-only, and change nothing on a record whose CPF and RG are already digits |
| Models.NormaliseIdempotent | models/students.go:17-25 | normalising a record twice is normalising it once |
| Models.MatchesDigitRunIff | models/students.go:13-14 | the `regexp=^[0-9]*$` tag holds exactly when every character is a digit |
| Models.ValidateStudent | models/students.go:10-32 | passes iff the name is non-empty, the CPF has 11 characters, all digits, and the RG has 9, all digits; on failure it names exactly the failing fields (at least one) |
| Models.ValidateAfterNormalise | models/students.go:12-25 | after normalisation the digit rules always hold, so validation reduces to a non-empty name and the two lengths |
| Persistence.Store.constructor | database/db.go:16-25 | a freshly migrated table is empty, valid and conforming, and its first key is 1 |
| Persistence.Store.Create | controllers/controller.go:86 | the record is inserted under a non-zero key that is written back into it; the key comes from the auto-increment counter, so it is at least every key handed out before and is never reused, even after a delete; no other row changes |
| Persistence.Store.First | controllers/controller.go:103 | loading by key gives the stored row, or the zero record (id 0) when the key is absent |
| Persistence.Store.FindByCpf | controllers/controller.go:163 | gives the lowest-key row that meets the struct condition `&Student{CPF: cpf}` (CPF equal to the argument exactly; no condition at all for an empty argument), or the zero record exactly when no row meets it |
| Persistence.Store.FindAll | controllers/controller.go:58 | lists each stored row once (keys strictly increasing) and every stored row is listed |
| Persistence.Store.Update | controllers/controller.go:147 | writes name, CPF and RG into the row with that key and leaves the key and every other row unchanged; an absent key changes nothing |
| Persistence.Store.Delete | controllers/controller.go:191 | removes the row with that key and nothing else; an absent key is not an error |
| Controllers.Bind | controllers/controller.go:74 | a body that does not parse fails; otherwise the fields it supplies overwrite and the fields it leaves out keep the record's values; the id is never overwritten |
| Controllers.Greetings | controllers/controller.go:37-43 | always 200, under the JSON key `"API says"`, with the message `"What's up "` followed by the name |
| Controllers.GetStudents | controllers/controller.go:56-60 | always 200 with exactly the stored rows, each listed once (ids strictly increasing) |
| Controllers.CreateStudent | controllers/controller.go:72-88 | a parse failure or a normalised record that fails validation answers 400 and leaves the table and its key counter unchanged; otherwise answers 200 and stores and returns the normalised, valid record under a new non-zero id that is at least every id handed out before; keeps the table conforming |
| Controllers.GetStudentById | controllers/controller.go:100-112 | answers 404 "Student not found" exactly when no row has that id, otherwise 200 with the stored row |
| Controllers.EditStudent | controllers/controller.go:126-149 | an absent id answers 404 whatever the body; a parse or validation failure answers 400; every non-200 leaves the table unchanged; on 200 the id is kept, the written row is valid, and fields absent from the body keep their stored values (exactly so on a conforming table) |
| Controllers.SearchByCPF | controllers/controller.go:160-170 | answers 404 exactly when no stored CPF equals the path string as given (not normalised); otherwise 200 with the lowest-id row whose CPF equals it; an empty string matches every row |
| Controllers.DeleteStudent | controllers/controller.go:188-197 | always 200 with `"Student deleted successfully!"` under `"data"`, whether or not the id existed; removes only that row |
| Scenarios.NormaliseFormattedCpf | models/students.go:17-20 | `"001.002.003-09"` normalises to `"00100200309"` |
| Scenarios.GreetJocko | main_test.go:27-37 | greeting `jocko` answers 200 with `"What's up jocko"` under `"API says"` |
| Scenarios.CreateThenFetch | controllers/controller.go:72-112 | after a successful create, fetching the new id answers 200 with the same valid record |
| Scenarios.InsertBogusThenFetch | main_test.go:74-90 | the fixture `Bogus`/`00100200309`/`050060075`, inserted straight into the store as the test's setup does, is read back by GET of its new non-zero id with those three fields |
| Scenarios.CreateBogusThenFetch | controllers/controller.go:72-112 | the same fixture sent through POST instead is stored under a non-zero id and read back unchanged by GET |
| Scenarios.ShortCpfRefused | models/students.go:13 | the CPF `"123"` fails validation after normalisation |
| Scenarios.CreateShortCpf | controllers/controller.go:81-85 | a create with CPF `"123"` answers 400 and stores nothing |
| Scenarios.PatchBogusJunior | main_test.go:104-122 | a PATCH supplying the test's name `Bogus Junior` and the fixture's CPF and RG on a stored row answers 200 and stores and returns exactly those three fields |
| Scenarios.PatchNameOnly | controllers/controller.go:135-148 | on a conforming table, a PATCH that supplies only a non-empty name answers 200 and keeps the stored CPF and RG |
| Scenarios.CreateThenSearch | main_test.go:62-72 | after a successful create, searching its CPF answers 200 with a row that has that CPF (possibly an older duplicate) |
| Scenarios.DeleteCreateThenFetch | controllers/controller.go:72-112 | after a row is deleted, a later successful create never gets its id back, so a fetch of the deleted id still answers 404 |
| Scenarios.SearchEmptyCpf | controllers/controller.go:160-170 | an empty CPF puts no condition on the query, so on a non-empty table the search answers 200 with the lowest-id row |
| Scenarios.DeleteThenFetch | main_test.go:92-102 | delete answers 200 whether or not the row existed (all the test checks); beyond the test, a later fetch of that id answers 404 |

## Left out

- Routing: gin route registration, route precedence between `/:name` and `/students`, static assets, Swagger metadata, template loading and the listener on port 8000. This is framework wiring.
- `ShowIndexPage` and `RouteNotFound`: HTML template rendering.
- Database bootstrap: the connection string, `gorm.Open` and its fatal failure, and `AutoMigrate`. These are I/O into a foreign library; `Store.constructor` stands for an empty migrated table.
- Timestamps (`CreatedAt`, `UpdatedAt`) and soft delete (`DeletedAt`). A deleted row is simply absent from the map.
- Store errors: GORM errors are not surfaced by the handlers, and the model has no failing store.
- Path ids that are not decimal numbers: the id is a `nat` already parsed from the path. In the source the path segment goes to GORM as a string, and a non-numeric one is taken as a raw SQL condition: `DELETE /students/true`, for example, soft-deletes every row and still answers 200. So `DeleteStudent`'s "removes only that row" holds only for numeric ids.
- Message texts: the JSON parser's message is an abstract `ParseError`, and the validator's message is the set of failing fields.
- Controllers.Bind: `Body` supplies only `name`, `cpf` and `rg`. In the source, `gorm.Model.ID` has no json tag and the JSON decoder matches keys regardless of case, so a body with `"ID"` or `"id"` sets the id, and likewise the timestamps. In `CreateStudent`, a body that supplies an id makes the insert use that key. The handler answers 200 even if that insert fails on a duplicate key. None of this is modelled.
- GORM skips zero-valued fields in `Updates`: `Store.Update` writes all three fields. The handler only calls it with a record that passed validation, whose three fields are all non-empty, so skipping zero fields would write the same row.
- Persistence.Store.Create: a record that already carries a non-zero id is inserted by GORM under that id. The model always assigns the next counter key and ignores the id it is given; see `Controllers.Bind` for how such an id can arrive.
- Persistence.Store.FindAll: returns rows in ascending key order, and `Controllers.GetStudents` passes that order on. This is one order the store may use; the source promises no order.
- The 64-bit width of the `ID` column: keys are unbounded naturals.
- Byte-versus-character length in the `len` tag: any non-ASCII character already fails the digit rule, so both readings give the same verdict.
- Concurrency of request handling.
- Scenarios.PatchBogusJunior: the test marshals a whole `Student`, so its body also carries `"ID":0` and zero timestamps. Binding writes that 0 over the loaded row's id; `Updates` skips the zero id and still updates the right row through its `id = ?` condition, so the stored row keeps its key, but the source answers with id 0. `Body` has no id, so the model answers with the path id.
- Scenarios.CreateShortCpf: states that the payload is a `BadRequest` but not its JSON key. The key `"error"` is fixed by `Controllers.Key` for every `BadRequest` payload.
