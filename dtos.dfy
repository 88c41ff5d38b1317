/** The transfer objects (EMS.Model.Dtos) and the validation that the data
    annotations on EmployeeDto impose. */
module Dtos {
  import opened Wrappers

  /** The API shape of an employee: the key and the three name fields. */
  datatype EmployeeDto = EmployeeDto(
    Id: int,
    FirstName: Option<string>,
    LastName: Option<string>,
    MiddleName: Option<string>)

  /** The reduced projection used for short lists. */
  datatype ShortListDto = ShortListDto(Id: int, Title: Option<string>)

  /** The `StringLength` limits on FirstName and LastName. */
  const FirstNameMaxLength: nat := 100
  const LastNameMaxLength: nat := 200

  /** .NET's char.IsWhiteSpace: the Unicode White_Space characters. */
  predicate IsWhiteSpace(c: char)
  {
    var n := c as int;
    (9 <= n <= 13) || n == 0x20 || n == 0x85 || n == 0xA0 || n == 0x1680
    || (0x2000 <= n <= 0x200A) || n == 0x2028 || n == 0x2029 || n == 0x202F
    || n == 0x205F || n == 0x3000
  }

  /** string.IsNullOrWhiteSpace: null, empty, or whitespace only. */
  predicate IsNullOrWhiteSpace(s: Option<string>)
  {
    s.None? || forall i :: 0 <= i < |s.value| ==> IsWhiteSpace(s.value[i])
  }

  /** string.Length, which counts UTF-16 code units: a character outside the
      basic multilingual plane takes two. */
  function Utf16Length(s: string): (n: nat)
    ensures |s| <= n <= 2 * |s|
    ensures n == 0 <==> s == []
  {
    if s == [] then 0
    else (if s[0] as int < 0x1_0000 then 1 else 2) + Utf16Length(s[1..])
  }

  /** `[Required]` on a string (AllowEmptyStrings is false): null, empty and
      whitespace-only values fail. */
  predicate Required(s: Option<string>)
  {
    !IsNullOrWhiteSpace(s)
  }

  /** `[StringLength(max)]`: null passes; otherwise at most `max` code units. */
  predicate WithinLength(s: Option<string>, max: nat)
  {
    s.None? || Utf16Length(s.value) <= max
  }

  /** The model-state check the controller applies to an EmployeeDto.
      MiddleName carries no annotation, so it plays no part. */
  predicate IsValid(d: EmployeeDto)
  {
    && Required(d.FirstName) && WithinLength(d.FirstName, FirstNameMaxLength)
    && Required(d.LastName) && WithinLength(d.LastName, LastNameMaxLength)
  }

  /** A null, empty or whitespace-only FirstName makes the DTO invalid. */
  lemma FirstNameRequired(d: EmployeeDto)
    requires IsNullOrWhiteSpace(d.FirstName)
    ensures !IsValid(d)
  {
  }

  /** A null, empty or whitespace-only LastName makes the DTO invalid. */
  lemma LastNameRequired(d: EmployeeDto)
    requires IsNullOrWhiteSpace(d.LastName)
    ensures !IsValid(d)
  {
  }

  /** A FirstName over 100 code units, or a LastName over 200, makes the DTO invalid. */
  lemma LengthLimitsReject(d: EmployeeDto)
    requires (d.FirstName.Some? && Utf16Length(d.FirstName.value) > FirstNameMaxLength)
          || (d.LastName.Some? && Utf16Length(d.LastName.value) > LastNameMaxLength)
    ensures !IsValid(d)
  {
  }

  /** MiddleName never changes validity, whatever its value (null included). */
  lemma MiddleNameIrrelevant(d: EmployeeDto, m: Option<string>)
    ensures IsValid(d.(MiddleName := m)) == IsValid(d)
  {
  }

  /** A valid DTO has both required names present, non-empty and within
      their limits counted in characters. */
  lemma ValidNamesBounded(d: EmployeeDto)
    requires IsValid(d)
    ensures d.FirstName.Some? && 0 < |d.FirstName.value| <= FirstNameMaxLength
    ensures d.LastName.Some? && 0 < |d.LastName.value| <= LastNameMaxLength
  {
  }

  /** Text made only of basic-plane characters has one code unit per character. */
  lemma {:induction false} Utf16LengthBasicPlane(s: string)
    requires forall i :: 0 <= i < |s| ==> s[i] as int < 0x1_0000
    ensures Utf16Length(s) == |s|
  {
    if s != [] {
      Utf16LengthBasicPlane(s[1..]);
    }
  }

  /** A string of `n` copies of 'a'. */
  function Letters(n: nat): (s: string)
    ensures |s| == n && Utf16Length(s) == n && (n > 0 ==> s[0] == 'a')
  {
    var s := seq(n, _ => 'a');
    Utf16LengthBasicPlane(s);
    s
  }

  /** A non-empty run of letters satisfies `[Required]`. */
  lemma LettersRequired(n: nat)
    requires n > 0
    ensures Required(Some(Letters(n)))
  {
    assert !IsWhiteSpace(Letters(n)[0]);
  }

  /** The FirstName limit is 100, although the annotation's message says 20:
      21 and 100 letters pass, 101 fail. */
  lemma FirstNameLimitIsOneHundred()
    ensures IsValid(EmployeeDto(0, Some(Letters(21)), Some(Letters(3)), None))
    ensures IsValid(EmployeeDto(0, Some(Letters(100)), Some(Letters(3)), None))
    ensures !IsValid(EmployeeDto(0, Some(Letters(101)), Some(Letters(3)), None))
  {
    LettersRequired(3);
    LettersRequired(21);
    LettersRequired(100);
  }

  /** The LastName limit is 200: 200 letters pass, 201 fail. */
  lemma LastNameLimitIsTwoHundred()
    ensures IsValid(EmployeeDto(0, Some(Letters(3)), Some(Letters(200)), None))
    ensures !IsValid(EmployeeDto(0, Some(Letters(3)), Some(Letters(201)), None))
  {
    LettersRequired(3);
    LettersRequired(200);
  }
}
