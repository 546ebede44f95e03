/** Sequential generation of the human-readable student and faculty ids.
    The lookup of the newest user of a role is an input: `lastId` is that
    user's stored `id`, or `None` when there is no such user. */
module UserIds {
  import opened Common
  import opened AcademicSemesters

  function Min(a: nat, b: nat): nat
  {
    if a <= b then a else b
  }

  /** `s.substring(start, end)` for `start <= end`: both bounds are clamped to
      the length of `s`, so a short string yields a short (or empty) result. */
  function Substring(s: string, start: nat, end: nat): (t: string)
    requires start <= end
    ensures |t| == Min(end, |s|) - Min(start, |s|)
    ensures end <= |s| ==> t == s[start..end]
    ensures |s| < end ==> t == SubstringFrom(s, start)
  {
    s[Min(start, |s|)..Min(end, |s|)]
  }

  /** `s.substring(start)`: everything from `start` on, or "" past the end. */
  function SubstringFrom(s: string, start: nat): (t: string)
    ensures start <= |s| ==> t == s[start..]
    ensures |s| <= start ==> t == ""
  {
    s[Min(start, |s|)..]
  }

  predicate IsDigit(c: char)
  {
    '0' <= c <= '9'
  }

  predicate IsDigits(s: string)
  {
    forall i :: 0 <= i < |s| ==> IsDigit(s[i])
  }

  function DigitValue(c: char): (d: nat)
    requires IsDigit(c)
    ensures d < 10
  {
    c as int - '0' as int
  }

  function DigitChar(d: nat): (c: char)
    requires d < 10
    ensures IsDigit(c) && DigitValue(c) == d
  {
    ('0' as int + d) as char
  }

  function Pow10(k: nat): (p: nat)
    ensures p >= 1
  {
    if k == 0 then 1 else 10 * Pow10(k - 1)
  }

  /** `Number(s)` for a string of decimal digits; `Number("")` is 0. */
  function Number(s: string): nat
    requires IsDigits(s)
  {
    if s == [] then 0 else Number(s[..|s| - 1]) * 10 + DigitValue(s[|s| - 1])
  }

  /** `n.toString()` for a natural number: its shortest decimal spelling. */
  function ToDecimal(n: nat): (s: string)
    ensures IsDigits(s) && 1 <= |s|
  {
    if n < 10 then [DigitChar(n)] else ToDecimal(n / 10) + [DigitChar(n % 10)]
  }

  /** Parsing a decimal spelling gives back the number. */
  lemma {:induction false} NumberOfToDecimal(n: nat)
    ensures Number(ToDecimal(n)) == n
  {
    if n >= 10 {
      NumberOfToDecimal(n / 10);
      var s := ToDecimal(n);
      assert s[..|s| - 1] == ToDecimal(n / 10);
    }
  }

  /** A number below 10^k is spelt with at most k digits. */
  lemma {:induction false} ToDecimalLength(n: nat, k: nat)
    requires 1 <= k && n < Pow10(k)
    ensures |ToDecimal(n)| <= k
  {
    if n >= 10 {
      assert k >= 2;
      assert n / 10 < Pow10(k - 1);
      ToDecimalLength(n / 10, k - 1);
    }
  }

  /** A k-digit string denotes a number below 10^k. */
  lemma {:induction false} NumberBound(s: string)
    requires IsDigits(s)
    ensures Number(s) < Pow10(|s|)
  {
    if s != [] {
      NumberBound(s[..|s| - 1]);
    }
  }

  function Zeros(k: nat): (z: string)
    ensures |z| == k && forall i :: 0 <= i < k ==> z[i] == '0'
  {
    if k == 0 then "" else Zeros(k - 1) + "0"
  }

  /** Leading zeros do not change the value of a digit string. */
  lemma {:induction false} NumberIgnoresLeadingZeros(k: nat, s: string)
    requires IsDigits(s)
    ensures IsDigits(Zeros(k) + s) && Number(Zeros(k) + s) == Number(s)
  {
    if s == [] {
      assert Zeros(k) + s == Zeros(k);
      NumberOfZeros(k);
    } else {
      var t := Zeros(k) + s;
      assert t[..|t| - 1] == Zeros(k) + s[..|s| - 1];
      NumberIgnoresLeadingZeros(k, s[..|s| - 1]);
    }
  }

  lemma {:induction false} NumberOfZeros(k: nat)
    ensures Number(Zeros(k)) == 0
  {
    if k > 0 {
      assert Zeros(k)[..k - 1] == Zeros(k - 1);
      NumberOfZeros(k - 1);
    }
  }

  /** `s.padStart(width, "0")`: zeros are added in front up to `width`; a
      longer string is returned whole. */
  function PadStartZeros(s: string, width: nat): (t: string)
    ensures |t| == if |s| >= width then |s| else width
    ensures t[|t| - |s|..] == s
    ensures forall i :: 0 <= i < |t| - |s| ==> t[i] == '0'
  {
    if |s| >= width then s else Zeros(width - |s|) + s
  }

  /** `n.toString().padStart(4, "0")`: a digit string of at least four
      characters whose value is exactly `n`. Padding never truncates: it has
      exactly four characters precisely when `n` is below 10000, and from
      10000 on it is the plain decimal spelling, without leading zeros. */
  function SequenceSuffix(n: nat): (t: string)
    ensures IsDigits(t) && Number(t) == n
    ensures 4 <= |t|
    ensures |t| == 4 <==> n < 10000
    ensures 10000 <= n ==> t == ToDecimal(n)
  {
    PaddedDecimal(n);
    PadStartZeros(ToDecimal(n), 4)
  }

  lemma PaddedDecimal(n: nat)
    ensures var t := PadStartZeros(ToDecimal(n), 4);
            && IsDigits(t) && Number(t) == n && (|t| == 4 <==> n < 10000)
            && (10000 <= n ==> t == ToDecimal(n))
  {
    var d := ToDecimal(n);
    NumberOfToDecimal(n);
    var t := PadStartZeros(d, 4);
    if t != d {
      assert t == Zeros(4 - |d|) + d;
      NumberIgnoresLeadingZeros(4 - |d|, d);
    }
    NumberBound(t);
    assert Pow10(4) == 10000;
    if n < 10000 {
      ToDecimalLength(n, 4);
    }
  }

  /** Digit strings of the same length with the same value are the same string. */
  lemma {:induction false} NumberInjective(s: string, t: string)
    requires IsDigits(s) && IsDigits(t) && |s| == |t| && Number(s) == Number(t)
    ensures s == t
  {
    if s != [] {
      var k := |s| - 1;
      assert DigitValue(s[k]) == Number(s) % 10 == DigitValue(t[k]);
      assert Number(s[..k]) == Number(s) / 10 == Number(t[..k]);
      NumberInjective(s[..k], t[..k]);
      assert s == s[..k] + [s[k]] && t == t[..k] + [t[k]];
    }
  }

  /** For a number below 10000 the padded spelling is the one four-digit
      string denoting it. */
  lemma SequenceSuffixUnique(n: nat, t: string)
    requires IsDigits(t) && |t| == 4 && Number(t) == n
    ensures SequenceSuffix(n) == t
  {
    NumberBound(t);
    assert Pow10(4) == 10000;
    NumberInjective(SequenceSuffix(n), t);
  }

  lemma NumberOfTwoDigits(t: string)
    requires IsDigits(t) && |t| == 2
    ensures Number(t) == 10 * DigitValue(t[0]) + DigitValue(t[1])
  {
    var u := t[..1];
    assert u[..0] == [] && u[0] == t[0];
    assert Number(u) == DigitValue(t[0]);
  }

  lemma NumberOfFourDigits(t: string)
    requires IsDigits(t) && |t| == 4
    ensures Number(t) == 1000 * DigitValue(t[0]) + 100 * DigitValue(t[1]) + 10 * DigitValue(t[2]) + DigitValue(t[3])
  {
    NumberOfTwoDigits(t[..2]);
    assert t[..3][..2] == t[..2];
  }

  /** Sequence number 1 is spelt "0001". */
  lemma FirstSequenceSuffix()
    ensures SequenceSuffix(1) == "0001"
  {
    assert ToDecimal(1) == "1";
    assert Zeros(3) == "000";
  }

  // ----- Student ids -----

  /** The stored id reads as truthy: present and non-empty. */
  predicate Truthy(id: Option<string>)
  {
    id.Some? && id.value != ""
  }

  /** The newest student id continues the sequence: it is present and its
      characters [0,4) equal the semester's year and [4,6) its code. */
  predicate ContinuesSequence(payload: AcademicSemester, lastId: Option<string>)
  {
    && Truthy(lastId)
    && Substring(lastId.value, 4, 6) == payload.code
    && Substring(lastId.value, 0, 4) == payload.year
  }

  /** The part of the newest student id that is parsed as a number is made of
      digits (the only ids this model parses). */
  predicate StudentIdParsable(payload: AcademicSemester, lastId: Option<string>)
  {
    ContinuesSequence(payload, lastId) ==> IsDigits(SubstringFrom(lastId.value, 6))
  }

  /** The sequence number the next student id carries. */
  function NextStudentSequence(payload: AcademicSemester, lastId: Option<string>): (n: nat)
    requires StudentIdParsable(payload, lastId)
    ensures n >= 1
    ensures !ContinuesSequence(payload, lastId) ==> n == 1
    ensures ContinuesSequence(payload, lastId) ==> n == Number(SubstringFrom(lastId.value, 6)) + 1
  {
    var current := if ContinuesSequence(payload, lastId) then SubstringFrom(lastId.value, 6) else "0";
    Number(current) + 1
  }

  /** `generateStudentId`: the semester's year and code followed by the next
      sequence number, zero-padded to at least four digits. */
  function GenerateStudentId(payload: AcademicSemester, lastId: Option<string>): (id: string)
    requires StudentIdParsable(payload, lastId)
    ensures |id| >= |payload.year| + |payload.code| + 4
    ensures id[..|payload.year| + |payload.code|] == payload.year + payload.code
    ensures IsDigits(id[|payload.year| + |payload.code|..])
    ensures Number(id[|payload.year| + |payload.code|..])
         == if ContinuesSequence(payload, lastId) then Number(SubstringFrom(lastId.value, 6)) + 1 else 1
  {
    var prefix := payload.year + payload.code;
    var id := prefix + SequenceSuffix(NextStudentSequence(payload, lastId));
    assert id[|prefix|..] == SequenceSuffix(NextStudentSequence(payload, lastId));
    id
  }

  /** Without a matching predecessor the sequence restarts at "0001". */
  lemma StudentSequenceRestarts(payload: AcademicSemester, lastId: Option<string>)
    requires !ContinuesSequence(payload, lastId)
    ensures GenerateStudentId(payload, lastId) == payload.year + payload.code + "0001"
  {
    StudentIdSpelling(payload, lastId);
    FirstSequenceSuffix();
  }

  /** For a four-character year and a two-character code, an id the generator
      produced is recognised as the predecessor of the next one: consecutive
      students of a semester get consecutive sequence numbers. */
  lemma StudentIdsContinue(payload: AcademicSemester, lastId: Option<string>)
    requires |payload.year| == 4 && |payload.code| == 2
    requires StudentIdParsable(payload, lastId)
    ensures ContinuesSequence(payload, Some(GenerateStudentId(payload, lastId)))
    ensures StudentIdParsable(payload, Some(GenerateStudentId(payload, lastId)))
    ensures NextStudentSequence(payload, Some(GenerateStudentId(payload, lastId)))
         == NextStudentSequence(payload, lastId) + 1
  {
    var id := GenerateStudentId(payload, lastId);
    assert id[..6] == payload.year + payload.code;
    assert id[0..4] == (payload.year + payload.code)[0..4] == payload.year;
    assert id[4..6] == (payload.year + payload.code)[4..6] == payload.code;
  }

  /** The student id spelt out: year, code and the padded sequence number. */
  lemma StudentIdSpelling(payload: AcademicSemester, lastId: Option<string>)
    requires StudentIdParsable(payload, lastId)
    ensures GenerateStudentId(payload, lastId)
         == payload.year + payload.code + SequenceSuffix(NextStudentSequence(payload, lastId))
  {
  }

  /** Spelling out a student id from the value of its predecessor's
      sequence number. */
  lemma StudentIdFromTail(payload: AcademicSemester, last: string, n: nat, t: string)
    requires ContinuesSequence(payload, Some(last)) && IsDigits(SubstringFrom(last, 6))
    requires Number(SubstringFrom(last, 6)) == n
    requires SequenceSuffix(n + 1) == t
    ensures GenerateStudentId(payload, Some(last)) == payload.year + payload.code + t
  {
    StudentIdSpelling(payload, Some(last));
  }

  // ----- Faculty ids -----

  /** `findLastFacultyId`: the newest faculty id with its first two characters
      dropped, or nothing when there is no (non-empty) id. */
  function FindLastFacultyId(lastId: Option<string>): (r: Option<string>)
    ensures r.Some? <==> Truthy(lastId)
    ensures r.Some? ==> r.value == SubstringFrom(lastId.value, 2)
  {
    if Truthy(lastId) then Some(SubstringFrom(lastId.value, 2)) else None
  }

  /** The number string `generateFacultyId` increments: "0" unless the
      lookup found a non-empty remainder, whose first two characters it drops
      again. */
  function FacultyCurrentId(lastId: Option<string>): (current: string)
    ensures Truthy(lastId) && 2 < |lastId.value| ==> current == SubstringFrom(lastId.value, 4)
    ensures !(Truthy(lastId) && 2 < |lastId.value|) ==> current == "0"
  {
    var found := FindLastFacultyId(lastId);
    if Truthy(found) then SubstringFrom(found.value, 2) else "0"
  }

  /** The value of that number string: the stored id from index 4 on. */
  lemma FacultyCurrentValue(lastId: Option<string>)
    requires Truthy(lastId) ==> IsDigits(SubstringFrom(lastId.value, 4))
    ensures IsDigits(FacultyCurrentId(lastId))
    ensures Number(FacultyCurrentId(lastId))
         == if Truthy(lastId) then Number(SubstringFrom(lastId.value, 4)) else 0
  {
    assert "0"[..0] == "";
    if Truthy(lastId) && |lastId.value| <= 2 {
      assert SubstringFrom(lastId.value, 4) == "";
    }
  }

  /** The sequence number `generateFacultyId` hands out next: one more than
      the value of the stored id from index 4 on (1 without a stored id). */
  function FacultyNextNumber(lastId: Option<string>): (n: nat)
    requires Truthy(lastId) ==> IsDigits(SubstringFrom(lastId.value, 4))
    ensures n == (if Truthy(lastId) then Number(SubstringFrom(lastId.value, 4)) else 0) + 1
  {
    FacultyCurrentValue(lastId);
    Number(FacultyCurrentId(lastId)) + 1
  }

  /** `generateFacultyId` as written: the lookup has already dropped two
      characters and the generator drops two more, so the number incremented
      is the stored id from index 4 on. */
  function GenerateFacultyId(lastId: Option<string>): (id: string)
    requires Truthy(lastId) ==> IsDigits(SubstringFrom(lastId.value, 4))
    ensures 6 <= |id| && id[..2] == "F-" && IsDigits(id[2..])
    ensures Number(id[2..]) == (if Truthy(lastId) then Number(SubstringFrom(lastId.value, 4)) else 0) + 1
  {
    var id := "F-" + SequenceSuffix(FacultyNextNumber(lastId));
    assert id[2..] == SequenceSuffix(FacultyNextNumber(lastId));
    id
  }

  /** The faculty id spelt out: "F-" and the padded successor of the number
      found from index 4 of the newest id. */
  lemma FacultyIdSpelling(lastId: Option<string>)
    requires Truthy(lastId) ==> IsDigits(SubstringFrom(lastId.value, 4))
    ensures GenerateFacultyId(lastId)
         == "F-" + SequenceSuffix((if Truthy(lastId) then Number(SubstringFrom(lastId.value, 4)) else 0) + 1)
  {
  }

  /** Spelling out a faculty id from the value of the newest id's two
      characters at index 4 and 5. */
  lemma FacultyIdFromTail(lastId: Option<string>, n: nat)
    requires Truthy(lastId) && |lastId.value| == 6 && IsDigits(lastId.value[4..])
    requires 10 * DigitValue(lastId.value[4]) + DigitValue(lastId.value[5]) == n
    ensures GenerateFacultyId(lastId) == "F-" + SequenceSuffix(n + 1)
  {
    NumberOfTwoDigits(lastId.value[4..]);
    FacultyIdSpelling(lastId);
  }

  /** As written, any stored id whose characters from index 4 on denote
      zero is followed by the very first faculty id again. */
  lemma FacultyIdResets(lastId: Option<string>)
    requires Truthy(lastId) && IsDigits(SubstringFrom(lastId.value, 4))
    requires Number(SubstringFrom(lastId.value, 4)) == 0
    ensures GenerateFacultyId(lastId) == GenerateFacultyId(None)
  {
    FacultyIdAfterZeroTail(lastId);
    FacultyIdSpelling(None);
  }

  lemma FacultyIdAfterZeroTail(lastId: Option<string>)
    requires Truthy(lastId) && IsDigits(SubstringFrom(lastId.value, 4))
    requires Number(SubstringFrom(lastId.value, 4)) == 0
    ensures GenerateFacultyId(lastId) == "F-" + SequenceSuffix(1)
  {
    FacultyIdSpelling(lastId);
  }

  /** The evidently intended generator: only the "F-" prefix is dropped, so
      the whole number after it is incremented. */
  function GenerateFacultyIdCorrected(lastId: Option<string>): (id: string)
    requires Truthy(lastId) ==> IsDigits(SubstringFrom(lastId.value, 2))
    ensures 6 <= |id| && id[..2] == "F-" && IsDigits(id[2..])
    ensures Number(id[2..]) == (if Truthy(lastId) then Number(SubstringFrom(lastId.value, 2)) else 0) + 1
  {
    var current := if Truthy(lastId) then SubstringFrom(lastId.value, 2) else "0";
    assert Number("0") == 0;
    var id := "F-" + SequenceSuffix(Number(current) + 1);
    assert id[2..] == SequenceSuffix(Number(current) + 1);
    id
  }

  /** With the corrected generator, every id it produces is accepted as the
      predecessor of the next, which continues from a number exactly one
      larger: the numbering strictly increases and never repeats an id. */
  lemma CorrectedFacultyIdsIncrease(lastId: Option<string>)
    requires Truthy(lastId) ==> IsDigits(SubstringFrom(lastId.value, 2))
    ensures var id := GenerateFacultyIdCorrected(lastId);
            && IsDigits(SubstringFrom(id, 2))
            && CorrectedBase(Some(id)) == CorrectedBase(lastId) + 1
  {
    var id := GenerateFacultyIdCorrected(lastId);
    assert SubstringFrom(id, 2) == id[2..];
  }

  /** The number the corrected generator continues from. */
  function CorrectedBase(lastId: Option<string>): nat
    requires Truthy(lastId) ==> IsDigits(SubstringFrom(lastId.value, 2))
  {
    if Truthy(lastId) then Number(SubstringFrom(lastId.value, 2)) else 0
  }

  /** The id the (i+1)-th of a run of successive faculty hires receives from
      the corrected generator, each hire's id being the newest id for the
      next: it carries number base + i + 1. */
  function CorrectedNthId(lastId: Option<string>, i: nat): (id: string)
    requires Truthy(lastId) ==> IsDigits(SubstringFrom(lastId.value, 2))
    ensures IsDigits(SubstringFrom(id, 2))
    ensures CorrectedBase(Some(id)) == CorrectedBase(lastId) + i + 1
    decreases i
  {
    if i == 0 then
      CorrectedFacultyIdsIncrease(lastId);
      GenerateFacultyIdCorrected(lastId)
    else
      var prev := CorrectedNthId(lastId, i - 1);
      CorrectedFacultyIdsIncrease(Some(prev));
      GenerateFacultyIdCorrected(Some(prev))
  }

  /** No two hires of a corrected run receive the same id. */
  lemma CorrectedIdsNeverRepeat(lastId: Option<string>, i: nat, j: nat)
    requires Truthy(lastId) ==> IsDigits(SubstringFrom(lastId.value, 2))
    requires i != j
    ensures CorrectedNthId(lastId, i) != CorrectedNthId(lastId, j)
  {
  }
}

/** Worked examples of the id generators on concrete ids. */
module UserIdExamples {
  import opened Common
  import opened AcademicSemesters
  import opened UserIds

  // The padded spellings the examples rely on.

  lemma Padded0008()
    ensures SequenceSuffix(8) == "0008"
  {
    assert ToDecimal(8) == "8";
    assert Zeros(3) == "000";
  }

  lemma PaddedF0043()
    ensures "F-" + SequenceSuffix(43) == "F-0043"
  {
    assert ToDecimal(43) == "43" by { assert ToDecimal(4) == "4"; }
    assert Zeros(2) == "00";
  }

  lemma PaddedF0024()
    ensures "F-" + SequenceSuffix(24) == "F-0024"
  {
    assert ToDecimal(24) == "24" by { assert ToDecimal(2) == "2"; }
    assert Zeros(2) == "00";
  }

  lemma PaddedF0100()
    ensures "F-" + SequenceSuffix(100) == "F-0100"
  {
    assert ToDecimal(100) == "100" by {
      assert ToDecimal(10) == "10" by { assert ToDecimal(1) == "1" && ToDecimal(0) == "0"; }
    }
    assert Zeros(1) == "0";
  }

  /** "2025010007" is followed by "2025010008" in semester 2025/01. */
  lemma StudentIdAfter2025010007(p: AcademicSemester)
    requires p.year == "2025" && p.code == "01"
    ensures GenerateStudentId(p, Some("2025010007")) == "2025010008"
  {
    Student0007Tail(p);
    Padded0008();
    StudentIdFromTail(p, "2025010007", 7, "0008");
  }

  lemma Student0007Tail(p: AcademicSemester)
    requires p.year == "2025" && p.code == "01"
    ensures ContinuesSequence(p, Some("2025010007")) && IsDigits(SubstringFrom("2025010007", 6))
    ensures Number(SubstringFrom("2025010007", 6)) == 7
  {
    assert Substring("2025010007", 0, 4) == "2025";
    assert Substring("2025010007", 4, 6) == "01";
    assert SubstringFrom("2025010007", 6) == "0007";
    NumberOfFourDigits("0007");
  }

  /** A predecessor from another semester restarts the sequence. */
  lemma StudentIdAfter2024020009(p: AcademicSemester)
    requires p.year == "2025" && p.code == "01"
    ensures GenerateStudentId(p, Some("2024020009")) == "2025010001"
  {
    assert Substring("2024020009", 0, 4) == "2024";
    StudentSequenceRestarts(p, Some("2024020009"));
  }

  /** Without a (non-empty) stored faculty id the first id is "F-0001". */
  lemma FirstFacultyId(lastId: Option<string>)
    requires !Truthy(lastId)
    ensures GenerateFacultyId(lastId) == "F-0001"
  {
    FacultyIdSpelling(lastId);
    FirstSequenceSuffix();
  }

  /** "F-0042" is followed by "F-0043". */
  lemma FacultyIdAfter0042()
    ensures GenerateFacultyId(Some("F-0042")) == "F-0043"
  {
    TailOf0042();
    FacultyIdFromTail(Some("F-0042"), 42);
    PaddedF0043();
  }

  lemma TailOf0042()
    ensures IsDigits("F-0042"[4..])
    ensures 10 * DigitValue("F-0042"[4]) + DigitValue("F-0042"[5]) == 42
  {
  }

  /** "F-0123" is followed by "F-0024": only "23" is incremented. */
  lemma FacultyIdAfter0123()
    ensures GenerateFacultyId(Some("F-0123")) == "F-0024"
  {
    TailOf0123();
    FacultyIdFromTail(Some("F-0123"), 23);
    PaddedF0024();
  }

  lemma TailOf0123()
    ensures IsDigits("F-0123"[4..])
    ensures 10 * DigitValue("F-0123"[4]) + DigitValue("F-0123"[5]) == 23
  {
  }

  /** "F-0099" is followed by "F-0100". */
  lemma FacultyIdAfter0099()
    ensures GenerateFacultyId(Some("F-0099")) == "F-0100"
  {
    TailOf0099();
    FacultyIdFromTail(Some("F-0099"), 99);
    PaddedF0100();
  }

  lemma TailOf0099()
    ensures IsDigits("F-0099"[4..])
    ensures 10 * DigitValue("F-0099"[4]) + DigitValue("F-0099"[5]) == 99
  {
  }

  /** The numbering wraps after "F-0099": that id is followed by "F-0100"
      (FacultyIdAfter0099), which is followed by the id the first faculty
      received. */
  lemma FacultyIdRepeatsAfter0100()
    ensures GenerateFacultyId(Some("F-0100")) == GenerateFacultyId(None)
  {
    assert SubstringFrom("F-0100", 4) == "00";
    NumberOfTwoDigits("00");
    FacultyIdResets(Some("F-0100"));
  }
}
