/** The HTTP handlers for students and the greeting. Each one fills a local
    record step by step, answers early on a failure, and otherwise writes to
    the store and answers 200. The store is passed in explicitly. */
module Controllers {
  import opened Models
  import opened Persistence

  const StatusOK: nat := 200
  const StatusBadRequest: nat := 400
  const StatusNotFound: nat := 404

  const NotFoundMessage := "Student not found"
  const DeletedMessage := "Student deleted successfully!"

  datatype Option<T> = None | Some(value: T)

  /** A request body as the JSON binder sees it: text that does not parse,
      or an object that may supply any of `name`, `cpf` and `rg`. */
  datatype Body = Malformed | Overlay(name: Option<string>, cpf: Option<string>, rg: Option<string>)

  /** Why a request was refused with 400. */
  datatype Error = ParseError | Invalid(fields: set<Field>)

  datatype GreetingsResponse = GreetingsResponse(message: string)
  datatype DeleteResponse = DeleteResponse(message: string)

  /** The JSON document a handler writes. */
  datatype Payload =
    | Greeting(greeting: GreetingsResponse)
    | Deleted(deleted: DeleteResponse)
    | Record(student: Student)
    | Records(students: seq<Student>)
    | NotFound(message: string)
    | BadRequest(error: Error)

  datatype Response = Response(status: nat, payload: Payload)

  /** The one key of the JSON object a non-record payload renders to: the
      json tags of the two response structs and the keys of the inline maps. */
  function Key(p: Payload): string
    requires !p.Record? && !p.Records?
  {
    match p
    case Greeting(_) => "API says"
    case Deleted(_) => "data"
    case NotFound(_) => "Not found"
    case BadRequest(_) => "error"
  }

  const NotFoundResponse := Response(StatusNotFound, NotFound(NotFoundMessage))

  /** `ShouldBindJSON(&student)`: decodes the body over `s`. Fields the body
      supplies overwrite, the others keep the values already in `s`. */
  function Bind(s: Student, body: Body): (r: Option<Student>)
    ensures r.None? <==> body.Malformed?
    ensures r.Some? ==> r.value.id == s.id
    ensures r.Some? ==> r.value.name == (if body.name.Some? then body.name.value else s.name)
    ensures r.Some? ==> r.value.cpf == (if body.cpf.Some? then body.cpf.value else s.cpf)
    ensures r.Some? ==> r.value.rg == (if body.rg.Some? then body.rg.value else s.rg)
  {
    match body
    case Malformed => None
    case Overlay(name, cpf, rg) =>
      var s1 := if name.Some? then s.(name := name.value) else s;
      var s2 := if cpf.Some? then s1.(cpf := cpf.value) else s1;
      Some(if rg.Some? then s2.(rg := rg.value) else s2)
  }

  /** The record a parsable body yields once bound over `s` and normalised. */
  function Prepared(s: Student, body: Body): Student
    requires body.Overlay?
  {
    Normalise(Bind(s, body).value)
  }

  /** GET /{name}: always 200 with the greeting under the key "API says". */
  method Greetings(name: string) returns (resp: Response)
    ensures resp.status == StatusOK && resp.payload.Greeting?
    ensures Key(resp.payload) == "API says"
    ensures resp.payload.greeting.message == "What's up " + name
  {
    var response := GreetingsResponse("What's up " + name);
    resp := Response(StatusOK, Greeting(response));
  }

  /** GET /students: 200 with every stored student, each listed once. */
  method GetStudents(db: Store) returns (resp: Response)
    requires db.Valid()
    ensures resp.status == StatusOK && resp.payload.Records?
    ensures forall i :: 0 <= i < |resp.payload.students| ==>
      resp.payload.students[i].id in db.rows && db.rows[resp.payload.students[i].id] == resp.payload.students[i]
    ensures forall id :: id in db.rows ==>
      exists i :: 0 <= i < |resp.payload.students| && resp.payload.students[i].id == id
    ensures forall i, j :: 0 <= i < j < |resp.payload.students| ==>
      resp.payload.students[i].id < resp.payload.students[j].id
  {
    var students := db.FindAll();
    resp := Response(StatusOK, Records(students));
  }

  /** POST /students: bind, normalise, validate, insert. Both refusals are
      400 and leave the table alone; success stores and returns the
      normalised record under a fresh non-zero id. */
  method CreateStudent(db: Store, body: Body) returns (resp: Response)
    requires db.Valid()
    modifies db
    ensures db.Valid() && old(db.nextId) <= db.nextId
    ensures old(db.Conforming()) ==> db.Conforming()
    ensures resp.status == StatusOK || resp.status == StatusBadRequest
    ensures resp.status == StatusOK <==> body.Overlay? && WellFormed(Prepared(Blank, body))
    ensures body.Malformed? ==> resp == Response(StatusBadRequest, BadRequest(ParseError))
    ensures body.Overlay? && !WellFormed(Prepared(Blank, body)) ==>
      resp == Response(StatusBadRequest, BadRequest(Invalid(ValidateStudent(Prepared(Blank, body)).fields)))
    ensures resp.status == StatusBadRequest ==>
      resp.payload.BadRequest? && db.rows == old(db.rows) && db.nextId == old(db.nextId)
    ensures resp.status == StatusOK ==>
      && resp.payload.Record?
      && resp.payload.student == Prepared(Blank, body).(id := resp.payload.student.id)
      && resp.payload.student.id != 0
      && resp.payload.student.id !in old(db.rows)
      && old(db.nextId) <= resp.payload.student.id
      && WellFormed(resp.payload.student)
      && db.rows == old(db.rows)[resp.payload.student.id := resp.payload.student]
  {
    var student := Blank;
    var bound := Bind(student, body);
    if bound.None? {
      return Response(StatusBadRequest, BadRequest(ParseError));
    }
    student := bound.value;
    student := SetCPF(student, student.cpf);
    student := SetRG(student, student.rg);
    var outcome := ValidateStudent(student);
    if outcome.Fail? {
      return Response(StatusBadRequest, BadRequest(Invalid(outcome.fields)));
    }
    student := db.Create(student);
    resp := Response(StatusOK, Record(student));
  }

  /** GET /students/{id}: 404 exactly when no row has that id (the loaded
      record kept its zero id), otherwise 200 with the stored row. */
  method GetStudentById(db: Store, id: nat) returns (resp: Response)
    requires db.Valid()
    ensures resp.status == StatusNotFound <==> id !in db.rows
    ensures id !in db.rows ==> resp == NotFoundResponse
    ensures id in db.rows ==> resp == Response(StatusOK, Record(db.rows[id]))
  {
    var student := db.First(id);
    if student.id == 0 {
      return NotFoundResponse;
    }
    resp := Response(StatusOK, Record(student));
  }

  /** PATCH /students/{id}: load, bind the body over the loaded row,
      normalise, validate, write back. An absent id answers 404 whatever the
      body; a refusal leaves the table alone; on success the fields the body
      leaves out keep their stored values (up to normalisation) and the id
      does not change. */
  method EditStudent(db: Store, id: nat, body: Body) returns (resp: Response)
    requires db.Valid()
    modifies db
    ensures db.Valid() && db.nextId == old(db.nextId)
    ensures old(db.Conforming()) ==> db.Conforming()
    ensures resp.status != StatusOK ==> db.rows == old(db.rows)
    ensures id !in old(db.rows) ==> resp == NotFoundResponse
    ensures id in old(db.rows) && body.Malformed? ==>
      resp == Response(StatusBadRequest, BadRequest(ParseError))
    ensures id in old(db.rows) && body.Overlay? && !WellFormed(Prepared(old(db.rows)[id], body)) ==>
      resp == Response(StatusBadRequest, BadRequest(Invalid(ValidateStudent(Prepared(old(db.rows)[id], body)).fields)))
    ensures resp.status == StatusOK <==>
      id in old(db.rows) && body.Overlay? && WellFormed(Prepared(old(db.rows)[id], body))
    ensures resp.status == StatusOK ==>
      && resp.payload.Record?
      && resp.payload.student.id == id
      && WellFormed(resp.payload.student)
      && db.rows == old(db.rows)[id := resp.payload.student]
      && resp.payload.student.name == (if body.name.Some? then body.name.value else old(db.rows)[id].name)
      && resp.payload.student.cpf == OnlyDigits(if body.cpf.Some? then body.cpf.value else old(db.rows)[id].cpf)
      && resp.payload.student.rg == OnlyDigits(if body.rg.Some? then body.rg.value else old(db.rows)[id].rg)
    ensures resp.status == StatusOK && old(db.Conforming()) ==>
      && (body.cpf.None? ==> resp.payload.student.cpf == old(db.rows)[id].cpf)
      && (body.rg.None? ==> resp.payload.student.rg == old(db.rows)[id].rg)
  {
    var student := db.First(id);
    if student.id == 0 {
      return NotFoundResponse;
    }
    var bound := Bind(student, body);
    if bound.None? {
      return Response(StatusBadRequest, BadRequest(ParseError));
    }
    student := bound.value;
    student := SetCPF(student, student.cpf);
    student := SetRG(student, student.rg);
    var outcome := ValidateStudent(student);
    if outcome.Fail? {
      return Response(StatusBadRequest, BadRequest(Invalid(outcome.fields)));
    }
    db.Update(id, student);
    resp := Response(StatusOK, Record(student));
  }

  /** GET /students/cpf/{cpf}: 200 with the first row (lowest id) whose CPF
      equals the path segment exactly (it is not normalised), or 404 when no
      stored CPF equals it. An empty segment puts no condition on the query,
      so it answers with the lowest-id row of a non-empty table. */
  method SearchByCPF(db: Store, cpf: string) returns (resp: Response)
    requires db.Valid()
    ensures resp.status == StatusNotFound <==> forall id :: id in db.rows ==> !WhereCpf(cpf, db.rows[id])
    ensures resp.status == StatusNotFound ==> resp == NotFoundResponse
    ensures resp.status == StatusOK || resp.status == StatusNotFound
    ensures resp.status == StatusOK ==>
      && resp.payload.Record?
      && (cpf != "" ==> resp.payload.student.cpf == cpf)
      && resp.payload.student.id in db.rows
      && db.rows[resp.payload.student.id] == resp.payload.student
      && forall id :: id in db.rows && id < resp.payload.student.id ==> !WhereCpf(cpf, db.rows[id])
  {
    var student := db.FindByCpf(cpf);
    if student.id == 0 {
      return NotFoundResponse;
    }
    resp := Response(StatusOK, Record(student));
  }

  /** DELETE /students/{id}: removes that row and nothing else, and answers
      200 with the same message whether or not the row existed. */
  method DeleteStudent(db: Store, id: nat) returns (resp: Response)
    requires db.Valid()
    modifies db
    ensures db.Valid() && db.nextId == old(db.nextId)
    ensures old(db.Conforming()) ==> db.Conforming()
    ensures db.rows == old(db.rows) - {id}
    ensures resp == Response(StatusOK, Deleted(DeleteResponse(DeletedMessage)))
    ensures Key(resp.payload) == "data"
  {
    db.Delete(id);
    var response := DeleteResponse(DeletedMessage);
    resp := Response(StatusOK, Deleted(response));
  }
}
