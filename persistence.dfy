/** The store the handlers talk to: the `students` table behind the ORM
    handle, reduced to a map from primary key to row and the next key the
    auto-increment column will hand out. */
module Persistence {
  import opened Models

  /** The struct condition `&Student{CPF: cpf}`: a field left at its zero
      value adds no condition, so an empty `cpf` matches every row and any
      other `cpf` matches the rows whose CPF equals it exactly. */
  predicate WhereCpf(cpf: string, s: Student) {
    cpf == "" || s.cpf == cpf
  }

  class Store {
    var rows: map<nat, Student>
    var nextId: nat

    /** Keys are positive, below the next key to hand out, and agree with
        the `id` each row carries. */
    ghost predicate Valid()
      reads this
    {
      && 0 < nextId
      && forall id :: id in rows ==> 0 < id < nextId && rows[id].id == id
    }

    /** Every row passes validation. The handlers only ever write such rows,
        so they keep this property (the store itself does not demand it). */
    ghost predicate Conforming()
      reads this
    {
      forall id :: id in rows ==> ValidateStudent(rows[id]) == Pass
    }

    /** An empty table whose first key will be 1. */
    constructor ()
      ensures Valid() && Conforming()
      ensures rows == map[] && nextId == 1
    {
      rows := map[];
      nextId := 1;
    }

    /** `DB.Create(&student)`: inserts the record under a fresh non-zero key
        and writes that key back into the record. */
    method Create(s: Student) returns (saved: Student)
      requires Valid()
      modifies this
      ensures Valid()
      ensures saved.id != 0 && saved.id !in old(rows)
      ensures old(nextId) <= saved.id < nextId
      ensures saved.name == s.name && saved.cpf == s.cpf && saved.rg == s.rg
      ensures rows == old(rows)[saved.id := saved]
    {
      saved := s.(id := nextId);
      rows := rows[nextId := saved];
      nextId := nextId + 1;
    }

    /** `DB.First(&student, id)` into a zero record: the row with that key,
        or the record left at its zero value (id 0) when there is none. */
    method First(id: nat) returns (found: Student)
      ensures id in rows ==> found == rows[id]
      ensures id !in rows ==> found == Blank
    {
      if id in rows {
        found := rows[id];
      } else {
        found := Blank;
      }
    }

    /** `DB.Where(&Student{CPF: cpf}).First(&student)`: the row with the
        lowest key that meets the struct condition, or the zero record. */
    method FindByCpf(cpf: string) returns (found: Student)
      requires Valid()
      ensures found.id == 0 <==> forall id :: id in rows ==> !WhereCpf(cpf, rows[id])
      ensures found.id == 0 ==> found == Blank
      ensures found.id != 0 ==> found.id in rows && rows[found.id] == found && WhereCpf(cpf, found)
      ensures found.id != 0 && cpf != "" ==> found.cpf == cpf
      ensures found.id != 0 ==> forall id :: id in rows && id < found.id ==> !WhereCpf(cpf, rows[id])
    {
      found := Blank;
      var id := 1;
      while id < nextId
        invariant 1 <= id <= nextId
        invariant forall k :: k in rows && k < id ==> !WhereCpf(cpf, rows[k])
      {
        if id in rows && WhereCpf(cpf, rows[id]) {
          found := rows[id];
          return;
        }
        id := id + 1;
      }
    }

    /** `DB.Find(&students)`: every row once, here in ascending key order. */
    method FindAll() returns (all: seq<Student>)
      requires Valid()
      ensures forall i :: 0 <= i < |all| ==> all[i].id in rows && rows[all[i].id] == all[i]
      ensures forall id :: id in rows ==> exists i :: 0 <= i < |all| && all[i].id == id
      ensures forall i, j :: 0 <= i < j < |all| ==> all[i].id < all[j].id
    {
      all := [];
      var id := 1;
      while id < nextId
        invariant 1 <= id <= nextId
        invariant forall i :: 0 <= i < |all| ==> all[i].id in rows && rows[all[i].id] == all[i] && all[i].id < id
        invariant forall k :: k in rows && k < id ==> exists i :: 0 <= i < |all| && all[i].id == k
        invariant forall i, j :: 0 <= i < j < |all| ==> all[i].id < all[j].id
      {
        if id in rows {
          ghost var before := all;
          all := all + [rows[id]];
          forall k | k in rows && k <= id
            ensures exists i :: 0 <= i < |all| && all[i].id == k
          {
            if k == id {
              assert all[|all| - 1].id == k;
            } else {
              var i :| 0 <= i < |before| && before[i].id == k;
              assert all[i] == before[i];
            }
          }
        }
        id := id + 1;
      }
    }

    /** `DB.Model(&student).Where("id = ?", id).Updates(student)`: writes the
        name, CPF and RG of `s` into the row with key `id`, if there is one. */
    method Update(id: nat, s: Student)
      requires Valid()
      modifies this
      ensures Valid() && nextId == old(nextId)
      ensures id in old(rows) ==>
        rows == old(rows)[id := old(rows)[id].(name := s.name, cpf := s.cpf, rg := s.rg)]
      ensures id !in old(rows) ==> rows == old(rows)
    {
      if id in rows {
        rows := rows[id := rows[id].(name := s.name, cpf := s.cpf, rg := s.rg)];
      }
    }

    /** `DB.Delete(&student, id)`: removes the row with key `id`; a missing
        row is not an error. */
    method Delete(id: nat)
      requires Valid()
      modifies this
      ensures Valid() && nextId == old(nextId)
      ensures rows == old(rows) - {id}
    {
      rows := rows - {id};
    }
  }
}
