/** The Student record and the rules applied to it before it is stored:
    digit-only normalisation of CPF and RG, and the validation tags. */
module Models {

  /** A student row. `id` is the store's primary key and stays 0 until the
      store assigns one; the store-managed timestamps are not modelled. */
  datatype Student = Student(id: nat, name: string, cpf: string, rg: string)

  /** The zero value of the record: what a handler's local `student` holds
      before anything is loaded or bound into it. */
  const Blank := Student(0, "", "", "")

  predicate IsDigit(c: char) {
    '0' <= c <= '9'
  }

  predicate AllDigits(s: string) {
    forall i :: 0 <= i < |s| ==> IsDigit(s[i])
  }

  /** `r` occurs in `s` in order, possibly with gaps (greedy matching). */
  ghost predicate IsSubsequence(r: string, s: string)
    decreases |s|
  {
    if r == [] then true
    else if s == [] then false
    else if r[0] == s[0] then IsSubsequence(r[1..], s[1..])
    else IsSubsequence(r, s[1..])
  }

  // ---------------------------------------------------------------------------
  // Normalisation: replace every match of [^0-9] by the empty string
  // ---------------------------------------------------------------------------

  /** The normalisation SetCPF and SetRG apply: every character outside
      '0'..'9' is dropped, the others are kept in their order. */
  function OnlyDigits(s: string): (r: string)
    ensures AllDigits(r)
    ensures |r| <= |s|
  {
    if s == [] then []
    else if IsDigit(s[0]) then [s[0]] + OnlyDigits(s[1..])
    else OnlyDigits(s[1..])
  }

  /** Normalising a concatenation normalises each part: the filter works
      character by character and keeps their order. */
  lemma {:induction false} OnlyDigitsAppend(a: string, b: string)
    ensures OnlyDigits(a + b) == OnlyDigits(a) + OnlyDigits(b)
  {
    if a == [] {
      assert a + b == b;
    } else {
      assert (a + b)[0] == a[0];
      assert (a + b)[1..] == a[1..] + b;
      OnlyDigitsAppend(a[1..], b);
    }
  }

  /** A string is left unchanged by normalisation exactly when it is made of
      digits only. */
  lemma {:induction false} OnlyDigitsFixesDigits(s: string)
    ensures OnlyDigits(s) == s <==> AllDigits(s)
  {
    if s != [] {
      OnlyDigitsFixesDigits(s[1..]);
      if IsDigit(s[0]) && AllDigits(s) {
        assert AllDigits(s[1..]) by {
          forall i | 0 <= i < |s[1..]| ensures IsDigit(s[1..][i]) {
            assert s[1..][i] == s[i + 1];
          }
        }
        assert [s[0]] + s[1..] == s;
      }
    }
  }

  /** Normalisation is idempotent. */
  lemma OnlyDigitsIdempotent(s: string)
    ensures OnlyDigits(OnlyDigits(s)) == OnlyDigits(s)
  {
    OnlyDigitsFixesDigits(OnlyDigits(s));
  }

  /** The result is drawn from the input in order. */
  lemma {:induction false} OnlyDigitsIsSubsequence(s: string)
    ensures IsSubsequence(OnlyDigits(s), s)
  {
    if s != [] {
      OnlyDigitsIsSubsequence(s[1..]);
      var r := OnlyDigits(s);
      if IsDigit(s[0]) {
        assert r[0] == s[0] && r[1..] == OnlyDigits(s[1..]);
      } else if r != [] {
        assert IsDigit(r[0]);
      }
    }
  }

  /** No digit of the input is lost: every all-digit subsequence of `s` is at
      most as long as the normalised `s`. */
  lemma {:induction false} DigitSubsequenceBound(r: string, s: string)
    requires AllDigits(r) && IsSubsequence(r, s)
    ensures |r| <= |OnlyDigits(s)|
    decreases |s|
  {
    if r != [] {
      assert s != [];
      assert AllDigits(r[1..]) by {
        forall i | 0 <= i < |r[1..]| ensures IsDigit(r[1..][i]) {
          assert r[1..][i] == r[i + 1];
        }
      }
      if r[0] == s[0] {
        DigitSubsequenceBound(r[1..], s[1..]);
      } else {
        DigitSubsequenceBound(r, s[1..]);
      }
    }
  }

  /** Normalisation keeps exactly the digits of its input in their original
      order: the normalised string is the only all-digit subsequence of the
      input that is that long. */
  lemma {:induction false} OnlyDigitsIsTheDigitSubsequence(r: string, s: string)
    requires AllDigits(r) && IsSubsequence(r, s)
    requires |r| == |OnlyDigits(s)|
    ensures r == OnlyDigits(s)
    decreases |s|
  {
    if s == [] {
    } else if r == [] {
    } else {
      assert AllDigits(r[1..]) by {
        forall i | 0 <= i < |r[1..]| ensures IsDigit(r[1..][i]) {
          assert r[1..][i] == r[i + 1];
        }
      }
      if r[0] == s[0] {
        assert IsDigit(s[0]);
        OnlyDigitsIsTheDigitSubsequence(r[1..], s[1..]);
        assert r == [r[0]] + r[1..];
      } else if IsDigit(s[0]) {
        DigitSubsequenceBound(r, s[1..]);
        assert false;
      } else {
        OnlyDigitsIsTheDigitSubsequence(r, s[1..]);
      }
    }
  }

  // ---------------------------------------------------------------------------
  // The setters: pointer-receiver methods that overwrite one field
  // ---------------------------------------------------------------------------

  /** `s.SetCPF(value)`: stores the normalised `value` as the CPF. */
  function SetCPF(s: Student, value: string): (r: Student)
    ensures r.id == s.id && r.name == s.name && r.rg == s.rg
    ensures r.cpf == OnlyDigits(value)
    ensures AllDigits(r.cpf) && |r.cpf| <= |value|
    ensures AllDigits(value) ==> r.cpf == value
  {
    OnlyDigitsFixesDigits(value);
    s.(cpf := OnlyDigits(value))
  }

  /** `s.SetRG(value)`: stores the normalised `value` as the RG. */
  function SetRG(s: Student, value: string): (r: Student)
    ensures r.id == s.id && r.name == s.name && r.cpf == s.cpf
    ensures r.rg == OnlyDigits(value)
    ensures AllDigits(r.rg) && |r.rg| <= |value|
    ensures AllDigits(value) ==> r.rg == value
  {
    OnlyDigitsFixesDigits(value);
    s.(rg := OnlyDigits(value))
  }

  /** The two setter calls every handler makes before validating:
      `student.SetCPF(student.CPF)` then `student.SetRG(student.RG)`. */
  function Normalise(s: Student): (r: Student)
    ensures r.id == s.id && r.name == s.name
    ensures r.cpf == OnlyDigits(s.cpf) && r.rg == OnlyDigits(s.rg)
    ensures AllDigits(r.cpf) && AllDigits(r.rg)
    ensures AllDigits(s.cpf) && AllDigits(s.rg) ==> r == s
  {
    SetRG(SetCPF(s, s.cpf), s.rg)
  }

  /** Normalising twice is normalising once. */
  lemma NormaliseIdempotent(s: Student)
    ensures Normalise(Normalise(s)) == Normalise(s)
  {
    OnlyDigitsIdempotent(s.cpf);
    OnlyDigitsIdempotent(s.rg);
  }

  // ---------------------------------------------------------------------------
  // Validation: the struct tags of Student
  // ---------------------------------------------------------------------------

  datatype Field = Name | CPF | RG

  /** What the validator reports: success, or the fields whose tags failed. */
  datatype Outcome = Pass | Fail(fields: set<Field>)

  /** The `regexp=^[0-9]*$` tag: the whole string is a run of digits. */
  predicate MatchesDigitRun(s: string) {
    s == [] || (IsDigit(s[0]) && MatchesDigitRun(s[1..]))
  }

  lemma {:induction false} MatchesDigitRunIff(s: string)
    ensures MatchesDigitRun(s) <==> AllDigits(s)
  {
    if s != [] {
      MatchesDigitRunIff(s[1..]);
      assert forall i :: 0 < i < |s| ==> s[i] == s[1..][i - 1];
    }
  }

  /** The `nonzero` tag on a string: not the empty string. */
  predicate Nonzero(s: string) {
    s != ""
  }

  /** The tags of each field, in declaration order. */
  function FailingFields(s: Student): set<Field> {
    (if Nonzero(s.name) then {} else {Name})
    + (if |s.cpf| == 11 && MatchesDigitRun(s.cpf) then {} else {CPF})
    + (if |s.rg| == 9 && MatchesDigitRun(s.rg) then {} else {RG})
  }

  /** The record rules stated directly: a name, an 11-digit CPF and a 9-digit RG. */
  predicate WellFormed(s: Student) {
    && s.name != ""
    && |s.cpf| == 11 && AllDigits(s.cpf)
    && |s.rg| == 9 && AllDigits(s.rg)
  }

  /** `ValidateStudent`: runs every tag of the record; it passes exactly when
      the record is well formed, and otherwise names each failing field. */
  function ValidateStudent(s: Student): (r: Outcome)
    ensures r == Pass <==> WellFormed(s)
    ensures r.Fail? ==> r.fields != {}
    ensures r.Fail? ==> (Name in r.fields <==> s.name == "")
    ensures r.Fail? ==> (CPF in r.fields <==> !(|s.cpf| == 11 && AllDigits(s.cpf)))
    ensures r.Fail? ==> (RG in r.fields <==> !(|s.rg| == 9 && AllDigits(s.rg)))
  {
    MatchesDigitRunIff(s.cpf);
    MatchesDigitRunIff(s.rg);
    var failing := FailingFields(s);
    if failing == {} then Pass else Fail(failing)
  }

  /** After normalisation the digit rules always hold, so validation comes
      down to a non-empty name and the two lengths. */
  lemma ValidateAfterNormalise(s: Student)
    ensures ValidateStudent(Normalise(s)) == Pass
        <==> s.name != "" && |OnlyDigits(s.cpf)| == 11 && |OnlyDigits(s.rg)| == 9
  {
  }
}
