/** Request sequences across handlers, including the integration tests'
    fixtures, proved from the handlers' contracts alone. */
module Scenarios {
  import opened Models
  import opened Persistence
  import opened Controllers

  /** A digit run followed by one separator: the run survives, the
      separator is dropped. */
  lemma DropSeparator(a: string, x: char, b: string)
    requires AllDigits(a) && !IsDigit(x)
    ensures OnlyDigits(a + [x] + b) == a + OnlyDigits(b)
  {
    OnlyDigitsAppend(a + [x], b);
    OnlyDigitsAppend(a, [x]);
    OnlyDigitsFixesDigits(a);
  }

  /** Punctuation in a CPF is stripped: "001.002.003-09" is stored as
      "00100200309". */
  lemma NormaliseFormattedCpf()
    ensures OnlyDigits("001.002.003-09") == "00100200309"
  {
    var t3 := "003" + ['-'] + "09";
    OnlyDigitsFixesDigits("09");
    DropSeparator("003", '-', "09");
    assert OnlyDigits(t3) == "00309";
    var t2 := "002" + ['.'] + t3;
    DropSeparator("002", '.', t3);
    assert OnlyDigits(t2) == "00200309";
    var t1 := "001" + ['.'] + t2;
    DropSeparator("001", '.', t2);
    assert OnlyDigits(t1) == "00100200309";
    assert t1 == "001.002.003-09";
  }

  /** The greeting for "jocko" is "What's up jocko" under "API says". */
  method GreetJocko() returns (resp: Response)
    ensures resp.status == StatusOK && resp.payload.Greeting?
    ensures Key(resp.payload) == "API says"
    ensures resp.payload.greeting.message == "What's up jocko"
  {
    resp := Greetings("jocko");
  }

  /** A student created through POST is read back unchanged by GET. */
  method CreateThenFetch(db: Store, body: Body) returns (created: Response, fetched: Response)
    requires db.Valid()
    modifies db
    ensures created.status == StatusOK ==> fetched.status == StatusOK && fetched.payload == created.payload
    ensures created.status == StatusOK ==> fetched.payload.Record? && WellFormed(fetched.payload.student)
  {
    created := CreateStudent(db, body);
    if created.status == StatusOK {
      fetched := GetStudentById(db, created.payload.student.id);
    } else {
      fetched := NotFoundResponse;
    }
  }

  /** The fixture record inserted straight into the store, as the tests set
      it up, then read back by GET under the key the insert handed out. */
  method InsertBogusThenFetch(db: Store) returns (fetched: Response)
    requires db.Valid()
    modifies db
    ensures fetched.status == StatusOK && fetched.payload.Record?
    ensures fetched.payload.student.id != 0 && fetched.payload.student.id !in old(db.rows)
    ensures fetched.payload.student.name == "Bogus"
    ensures fetched.payload.student.cpf == "00100200309"
    ensures fetched.payload.student.rg == "050060075"
  {
    var saved := db.Create(Student(0, "Bogus", "00100200309", "050060075"));
    fetched := GetStudentById(db, saved.id);
  }

  /** The fixture record sent through POST: its fields are already
      normalised, so it is stored and read back exactly as sent, under a
      non-zero id. */
  method CreateBogusThenFetch(db: Store) returns (created: Response, fetched: Response)
    requires db.Valid()
    modifies db
    ensures created.status == StatusOK && created.payload.Record? && created.payload.student.id != 0
    ensures fetched.status == StatusOK && fetched.payload.Record?
    ensures fetched.payload.student.name == "Bogus"
    ensures fetched.payload.student.cpf == "00100200309"
    ensures fetched.payload.student.rg == "050060075"
  {
    var body := Overlay(Some("Bogus"), Some("00100200309"), Some("050060075"));
    assert AllDigits("00100200309") && AllDigits("050060075");
    created := CreateStudent(db, body);
    fetched := GetStudentById(db, created.payload.student.id);
  }

  /** The short-CPF request body fails validation once normalised. */
  lemma ShortCpfRefused(body: Body)
    requires body == Overlay(Some("X"), Some("123"), Some("050060075"))
    ensures !WellFormed(Prepared(Blank, body))
  {
    var cpf := "123";
    assert AllDigits(cpf);
    assert Bind(Blank, body).value.cpf == cpf;
    assert |Prepared(Blank, body).cpf| == 3;
  }

  /** A CPF that is too short is refused with 400 and nothing is stored. */
  method CreateShortCpf(db: Store) returns (resp: Response)
    requires db.Valid()
    modifies db
    ensures resp.status == StatusBadRequest && resp.payload.BadRequest?
    ensures db.rows == old(db.rows)
  {
    var body := Overlay(Some("X"), Some("123"), Some("050060075"));
    ShortCpfRefused(body);
    resp := CreateStudent(db, body);
  }

  /** A PATCH supplying the name "Bogus Junior" with the fixture's CPF and
      RG: the row comes back and is stored with exactly those fields under
      its own id. */
  method PatchBogusJunior(db: Store, id: nat) returns (resp: Response)
    requires db.Valid()
    requires id in db.rows
    modifies db
    ensures resp.status == StatusOK && resp.payload.Record?
    ensures resp.payload.student == Student(id, "Bogus Junior", "00100200309", "050060075")
    ensures db.rows == old(db.rows)[id := resp.payload.student]
  {
    var body := Overlay(Some("Bogus Junior"), Some("00100200309"), Some("050060075"));
    assert AllDigits("00100200309") && AllDigits("050060075");
    resp := EditStudent(db, id, body);
  }

  /** A PATCH that supplies only the name keeps CPF and RG of a conforming row. */
  method PatchNameOnly(db: Store, id: nat, name: string) returns (resp: Response)
    requires db.Valid() && db.Conforming()
    requires id in db.rows && name != ""
    modifies db
    ensures resp.status == StatusOK && resp.payload.Record?
    ensures resp.payload.student.name == name
    ensures resp.payload.student.cpf == old(db.rows)[id].cpf
    ensures resp.payload.student.rg == old(db.rows)[id].rg
  {
    ValidateAfterNormalise(db.rows[id].(name := name));
    resp := EditStudent(db, id, Overlay(Some(name), None, None));
  }

  /** Searching for the CPF of a student just created finds a student with
      that CPF (not necessarily the same one: CPFs need not be unique). */
  method CreateThenSearch(db: Store, body: Body) returns (created: Response, found: Response)
    requires db.Valid()
    modifies db
    ensures created.status == StatusOK ==>
      && found.status == StatusOK && found.payload.Record? && created.payload.Record?
      && found.payload.student.cpf == created.payload.student.cpf
  {
    created := CreateStudent(db, body);
    if created.status == StatusOK {
      assert db.rows[created.payload.student.id].cpf == created.payload.student.cpf;
      found := SearchByCPF(db, created.payload.student.cpf);
    } else {
      found := NotFoundResponse;
    }
  }

  /** A deleted id is never handed out again: after a DELETE, even a
      successful POST leaves GET of that id at 404. */
  method DeleteCreateThenFetch(db: Store, id: nat, body: Body)
    returns (deleted: Response, created: Response, fetched: Response)
    requires db.Valid()
    requires id in db.rows
    modifies db
    ensures deleted.status == StatusOK
    ensures created.status == StatusOK ==> created.payload.Record? && created.payload.student.id != id
    ensures fetched == NotFoundResponse
  {
    deleted := DeleteStudent(db, id);
    created := CreateStudent(db, body);
    fetched := GetStudentById(db, id);
  }

  /** An empty CPF puts no condition on the search, so on a non-empty
      table it answers 200 with the lowest-id row. */
  method SearchEmptyCpf(db: Store) returns (resp: Response)
    requires db.Valid() && db.rows != map[]
    ensures resp.status == StatusOK && resp.payload.Record?
    ensures forall id :: id in db.rows ==> resp.payload.student.id <= id
  {
    var some :| some in db.rows;
    assert WhereCpf("", db.rows[some]);
    resp := SearchByCPF(db, "");
  }

  /** DELETE answers 200 whether or not the row existed, and afterwards GET
      of that id answers 404. */
  method DeleteThenFetch(db: Store, id: nat) returns (deleted: Response, fetched: Response)
    requires db.Valid()
    modifies db
    ensures deleted.status == StatusOK
    ensures fetched == NotFoundResponse
  {
    deleted := DeleteStudent(db, id);
    fetched := GetStudentById(db, id);
  }
}
