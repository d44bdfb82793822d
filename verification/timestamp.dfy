/**
 The record timestamp of the recording step: year, 1-based month, day,
 hours, minutes and seconds of the local clock, joined by '/', every field
 after the year padded to two digits.
 */
module Timestamp {
  import opened Wrappers
  import opened Decimal
  import opened Text

  /**
   The local date fields the step reads from the clock. `month0` is
   0-based, as the clock reports it.
   */
  datatype DateFields = DateFields(year: int, month0: nat, day: nat, hours: nat, minutes: nat, seconds: nat)

  /** Fields as a real clock reports them, for a four-digit year. */
  predicate InRange(f: DateFields) {
    && 1000 <= f.year <= 9999
    && f.month0 < 12
    && 1 <= f.day <= 31
    && f.hours < 24
    && f.minutes < 60
    && f.seconds < 60
  }

  /** `String(n).padStart(2, '0')`. */
  function Pad2(n: nat): (s: string)
    ensures |s| >= 2 && AllDigits(s)
    ensures n < 100 ==> |s| == 2
    ensures n >= 10 ==> s[0] != '0'
    ensures ParseNat(s) == Some(n)
  {
    var digits := NatToString(n);
    ParseNatToString(n);
    if |digits| >= 2 then digits
    else
      ValueLeadingZeros(1, digits);
      PadStart(digits, 2, '0')
  }

  /** The six rendered fields, in the order they are written. */
  function FieldTexts(f: DateFields): seq<string>
  {
    [IntToString(f.year), Pad2(f.month0 + 1), Pad2(f.day), Pad2(f.hours), Pad2(f.minutes), Pad2(f.seconds)]
  }

  /** The timestamp `YYYY/MM/DD/HH/MM/SS` of one log record. */
  function Format(f: DateFields): string
  {
    Join(FieldTexts(f), '/')
  }

  /** No rendered field contains the character `c`, unless it is a digit or '-'. */
  lemma FieldsAvoid(f: DateFields, c: char)
    requires !IsDigit(c) && c != '-'
    ensures forall i :: 0 <= i < |FieldTexts(f)| ==> c !in FieldTexts(f)[i]
  {
  }

  /** A timestamp never contains the CSV field or line separators. */
  lemma FormatAvoidsCsvSeparators(f: DateFields)
    ensures ',' !in Format(f)
    ensures '\n' !in Format(f)
  {
    FieldsAvoid(f, ',');
    JoinAvoids(FieldTexts(f), '/', ',');
    FieldsAvoid(f, '\n');
    JoinAvoids(FieldTexts(f), '/', '\n');
  }

  /** The timestamp written out as its six fields and five slashes. */
  lemma FormatSpelledOut(f: DateFields)
    ensures Format(f) == IntToString(f.year) + "/" + Pad2(f.month0 + 1) + "/" + Pad2(f.day) + "/"
                         + Pad2(f.hours) + "/" + Pad2(f.minutes) + "/" + Pad2(f.seconds)
  {
    var p := FieldTexts(f);
    JoinSix(p[0], p[1], p[2], p[3], p[4], p[5], '/');
    assert p == [p[0], p[1], p[2], p[3], p[4], p[5]];
  }

  /** Joining six parts spelled out. */
  lemma JoinSix(a: string, b: string, c: string, d: string, e: string, g: string, sep: char)
    ensures Join([a, b, c, d, e, g], sep) == a + [sep] + b + [sep] + c + [sep] + d + [sep] + e + [sep] + g
  {
    var p := [a, b, c, d, e, g];
    assert p[1..] == [b, c, d, e, g];
    assert p[2..] == p[1..][1..] == [c, d, e, g];
    assert p[3..] == p[2..][1..] == [d, e, g];
    assert p[4..] == p[3..][1..] == [e, g];
    assert p[5..] == p[4..][1..] == [g];
    assert Join(p[4..], sep) == e + [sep] + g;
    assert Join(p[3..], sep) == d + [sep] + e + [sep] + g;
    assert Join(p[2..], sep) == c + [sep] + d + [sep] + e + [sep] + g;
    assert Join(p[1..], sep) == b + [sep] + c + [sep] + d + [sep] + e + [sep] + g;
  }

  /** A four-digit year renders as exactly four digits. */
  lemma FourDigitYear(y: int)
    requires 1000 <= y <= 9999
    ensures |IntToString(y)| == 4
  {
    assert NatToString(y) == NatToString(y / 10) + [DigitChar(y % 10)];
    assert NatToString(y / 10) == NatToString(y / 100) + [DigitChar(y / 10 % 10)];
    assert NatToString(y / 100) == NatToString(y / 1000) + [DigitChar(y / 100 % 10)];
  }

  /**
   For a clock reading in range the timestamp is 19 characters of digits and
   slashes, with the slashes at positions 4, 7, 10, 13 and 16.
   */
  lemma FormatShape(f: DateFields)
    requires InRange(f)
    ensures |Format(f)| == 19
    ensures forall i :: 0 <= i < 19 ==> (Format(f)[i] == '/' <==> i in {4, 7, 10, 13, 16})
    ensures forall i :: 0 <= i < 19 ==> (IsDigit(Format(f)[i]) || Format(f)[i] == '/')
  {
    FormatSpelledOut(f);
    FourDigitYear(f.year);
  }

  /** Reads a timestamp back into its date fields. */
  function Parse(s: string): (r: Option<DateFields>)
  {
    var p := Split(s, '/');
    if |p| != 6 then None
    else
      match (ParseInt(p[0]), ParseNat(p[1]), ParseNat(p[2]), ParseNat(p[3]), ParseNat(p[4]), ParseNat(p[5]))
      case (Some(y), Some(mo), Some(d), Some(h), Some(mi), Some(sec)) =>
        if mo >= 1 then Some(DateFields(y, mo - 1, d, h, mi, sec)) else None
      case _ => None
  }

  /** Every clock reading, in range or not, is recovered from its timestamp. */
  lemma ParseFormat(f: DateFields)
    ensures Parse(Format(f)) == Some(f)
  {
    FieldsAvoid(f, '/');
    SplitJoin(FieldTexts(f), '/');
    ParseIntToString(f.year);
  }

  /** Distinct clock readings give distinct timestamps. */
  lemma FormatInjective(f: DateFields, g: DateFields)
    requires Format(f) == Format(g)
    ensures f == g
  {
    ParseFormat(f);
    ParseFormat(g);
  }
}
