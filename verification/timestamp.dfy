/**
 * `generateTimestamp` from src/utils/common.ts: the 12-character `YYYYMMDDHHmm` stamp a build
 * appends to the package name. The clock is not read here: the local-time fields are passed in.
 */
module Timestamp {
  import opened Wrappers
  import opened Text
  import opened Decimal

  /** What `new Date()` reports in local time: `getFullYear()`, the 0-based `getMonth()`,
      `getDate()`, `getHours()` and `getMinutes()`. */
  datatype LocalTime = LocalTime(year: nat, monthIndex: nat, day: nat, hours: nat, minutes: nat)

  /** A calendar time with a four-digit year. */
  predicate Valid(t: LocalTime)
  {
    1000 <= t.year <= 9999 && t.monthIndex < 12 && 1 <= t.day <= 31 && t.hours < 24 && t.minutes < 60
  }

  /** `n.toString().padStart(2, '0')`. */
  function Pad2(n: nat): string
  {
    PadStart(ToDecimal(n), 2, '0')
  }

  /** The year, then the 1-based month, day, hour and minute, each padded to two digits; for a
      valid time, twelve ASCII digits. */
  function GenerateTimestamp(t: LocalTime): (r: string)
    ensures Valid(t) ==> |r| == 12 && AllDigits(r)
  {
    var y, m, d, h, n := ToDecimal(t.year), Pad2(t.monthIndex + 1), Pad2(t.day), Pad2(t.hours), Pad2(t.minutes);
    if Valid(t) then
      FieldDigits(t);
      PiecesAt(y, m, d, h, n);
      y + m + d + h + n
    else
      y + m + d + h + n
  }

  /** Reads the five fields back from a 12-digit stamp; `None` for anything else. */
  function ParseTimestamp(s: string): Option<LocalTime>
  {
    if |s| != 12 || !AllDigits(s) || Value(s[4..6]) == 0 then None
    else Some(LocalTime(Value(s[..4]), Value(s[4..6]) - 1, Value(s[6..8]), Value(s[8..10]), Value(s[10..])))
  }

  lemma Pad2Digits(n: nat)
    requires n < 100
    ensures |Pad2(n)| == 2 && AllDigits(Pad2(n)) && Value(Pad2(n)) == n
  {
    ZeroPaddedDecimal(n, 2);
  }

  lemma YearDigits(y: nat)
    requires 1000 <= y <= 9999
    ensures |ToDecimal(y)| == 4
  {
    ToDecimalWidth(y, 4);
    ToDecimalWidth(y, 3);
  }

  /** Each field of a valid time, as the stamp writes it: a four-digit year and two-digit month,
      day, hour and minute, each denoting its field. */
  lemma FieldDigits(t: LocalTime)
    requires Valid(t)
    ensures |ToDecimal(t.year)| == 4 && AllDigits(ToDecimal(t.year)) && Value(ToDecimal(t.year)) == t.year
    ensures |Pad2(t.monthIndex + 1)| == 2 && AllDigits(Pad2(t.monthIndex + 1)) && Value(Pad2(t.monthIndex + 1)) == t.monthIndex + 1
    ensures |Pad2(t.day)| == 2 && AllDigits(Pad2(t.day)) && Value(Pad2(t.day)) == t.day
    ensures |Pad2(t.hours)| == 2 && AllDigits(Pad2(t.hours)) && Value(Pad2(t.hours)) == t.hours
    ensures |Pad2(t.minutes)| == 2 && AllDigits(Pad2(t.minutes)) && Value(Pad2(t.minutes)) == t.minutes
  {
    YearDigits(t.year);
    Pad2Digits(t.monthIndex + 1);
    Pad2Digits(t.day);
    Pad2Digits(t.hours);
    Pad2Digits(t.minutes);
  }

  /** Pieces of widths 4, 2, 2, 2 and 2 are read back from their concatenation by position, and
      the concatenation of digit strings is a digit string. */
  lemma PiecesAt(y: string, m: string, d: string, h: string, n: string)
    requires |y| == 4 && |m| == 2 && |d| == 2 && |h| == 2 && |n| == 2
    ensures var r := y + m + d + h + n;
      && |r| == 12
      && r[..4] == y && r[4..6] == m && r[6..8] == d && r[8..10] == h && r[10..] == n
      && (AllDigits(y) && AllDigits(m) && AllDigits(d) && AllDigits(h) && AllDigits(n) ==> AllDigits(r))
  {
    var r := y + m + d + h + n;
    assert r[..4] == y;
    assert r[4..6] == m;
    assert r[6..8] == d;
    assert r[8..10] == h;
    assert r[10..] == n;
    if AllDigits(y) && AllDigits(m) && AllDigits(d) && AllDigits(h) && AllDigits(n) {
      forall i | 0 <= i < 12 ensures IsDigit(r[i]) {
        if i < 4 { assert r[i] == y[i]; }
        else if i < 6 { assert r[i] == m[i - 4]; }
        else if i < 8 { assert r[i] == d[i - 6]; }
        else if i < 10 { assert r[i] == h[i - 8]; }
        else { assert r[i] == n[i - 10]; }
      }
    }
  }

  /** The stamp is the concatenation of the five formatted fields, valid time or not. */
  lemma StampPieces(t: LocalTime)
    ensures GenerateTimestamp(t) ==
      ToDecimal(t.year) + Pad2(t.monthIndex + 1) + Pad2(t.day) + Pad2(t.hours) + Pad2(t.minutes)
  {
  }

  /** Characters 0-3 of the stamp of a valid time hold the year, 4-5 the 1-based month, 6-7 the
      day, 8-9 the hour and 10-11 the minute, each as `FieldDigits` describes it. */
  lemma TimestampFields(t: LocalTime)
    requires Valid(t)
    ensures |GenerateTimestamp(t)| == 12 && AllDigits(GenerateTimestamp(t))
    ensures GenerateTimestamp(t)[..4] == ToDecimal(t.year)
    ensures GenerateTimestamp(t)[4..6] == Pad2(t.monthIndex + 1)
    ensures GenerateTimestamp(t)[6..8] == Pad2(t.day)
    ensures GenerateTimestamp(t)[8..10] == Pad2(t.hours)
    ensures GenerateTimestamp(t)[10..] == Pad2(t.minutes)
  {
    var y, m, d, h, n := ToDecimal(t.year), Pad2(t.monthIndex + 1), Pad2(t.day), Pad2(t.hours), Pad2(t.minutes);
    StampPieces(t);
    assert |y| == 4 && |m| == 2 && |d| == 2 && |h| == 2 && |n| == 2
        && AllDigits(y) && AllDigits(m) && AllDigits(d) && AllDigits(h) && AllDigits(n) by {
      FieldDigits(t);
    }
    PiecesAt(y, m, d, h, n);
  }

  /** Decoding undoes generation. */
  lemma ParseGenerated(t: LocalTime)
    requires Valid(t)
    ensures ParseTimestamp(GenerateTimestamp(t)) == Some(t)
  {
    var r := GenerateTimestamp(t);
    TimestampFields(t);
    FieldDigits(t);
    assert Value(r[..4]) == t.year;
    assert Value(r[4..6]) == t.monthIndex + 1;
    assert Value(r[6..8]) == t.day;
    assert Value(r[8..10]) == t.hours;
    assert Value(r[10..]) == t.minutes;
  }

  /** A twelve-character string is the concatenation of its five fields. */
  lemma FieldsConcat(s: string)
    requires |s| == 12
    ensures s == s[..4] + s[4..6] + s[6..8] + s[8..10] + s[10..]
  {
  }

  /** `y`, `m`, `d`, `h` and `n` write out the fields of `t` as a stamp does: four digits for the
      year and two for the 1-based month, the day, the hour and the minute. */
  predicate Formats(t: LocalTime, y: string, m: string, d: string, h: string, n: string)
  {
    && |y| == 4 && AllDigits(y) && Value(y) == t.year
    && |m| == 2 && AllDigits(m) && Value(m) == t.monthIndex + 1
    && |d| == 2 && AllDigits(d) && Value(d) == t.day
    && |h| == 2 && AllDigits(h) && Value(h) == t.hours
    && |n| == 2 && AllDigits(n) && Value(n) == t.minutes
  }

  /** The stamp of a valid time formats it. */
  lemma StampFormats(t: LocalTime)
    requires Valid(t)
    ensures Formats(t, ToDecimal(t.year), Pad2(t.monthIndex + 1), Pad2(t.day), Pad2(t.hours), Pad2(t.minutes))
    ensures GenerateTimestamp(t) ==
      ToDecimal(t.year) + Pad2(t.monthIndex + 1) + Pad2(t.day) + Pad2(t.hours) + Pad2(t.minutes)
  {
    FieldDigits(t);
    StampPieces(t);
  }

  /** A time has only one formatting. */
  lemma FormatsUnique(t: LocalTime, y: string, m: string, d: string, h: string, n: string,
                      y': string, m': string, d': string, h': string, n': string)
    requires Formats(t, y, m, d, h, n) && Formats(t, y', m', d', h', n')
    ensures y + m + d + h + n == y' + m' + d' + h' + n'
  {
    DigitsOrder(y, y');
    DigitsOrder(m, m');
    DigitsOrder(d, d');
    DigitsOrder(h, h');
    DigitsOrder(n, n');
  }

  /** The five fields of a twelve-digit string are digit strings. */
  lemma FieldSlicesDigits(s: string)
    requires |s| == 12 && AllDigits(s)
    ensures AllDigits(s[..4]) && AllDigits(s[4..6]) && AllDigits(s[6..8]) && AllDigits(s[8..10]) && AllDigits(s[10..])
  {
    assert forall i :: 0 <= i < 12 ==> IsDigit(s[i]);
  }

  /** A stamp that decodes formats the time it decodes to. */
  lemma ParsedFormats(s: string)
    requires ParseTimestamp(s).Some?
    ensures Formats(ParseTimestamp(s).value, s[..4], s[4..6], s[6..8], s[8..10], s[10..])
  {
    FieldSlicesDigits(s);
  }

  /** Generation undoes decoding for every stamp that decodes to a valid time. */
  lemma GenerateParsed(s: string)
    requires ParseTimestamp(s).Some? && Valid(ParseTimestamp(s).value)
    ensures GenerateTimestamp(ParseTimestamp(s).value) == s
  {
    var t := ParseTimestamp(s).value;
    ParsedFormats(s);
    StampFormats(t);
    FormatsUnique(t, ToDecimal(t.year), Pad2(t.monthIndex + 1), Pad2(t.day), Pad2(t.hours), Pad2(t.minutes),
                  s[..4], s[4..6], s[6..8], s[8..10], s[10..]);
    FieldsConcat(s);
  }

  /** Two valid times give the same stamp only when they are the same minute. */
  lemma TimestampInjective(a: LocalTime, b: LocalTime)
    requires Valid(a) && Valid(b)
    requires GenerateTimestamp(a) == GenerateTimestamp(b)
    ensures a == b
  {
    ParseGenerated(a);
    ParseGenerated(b);
  }

  /** Lexicographic order on (year, month, day, hour, minute): `a` is an earlier minute than `b`. */
  predicate Before(a: LocalTime, b: LocalTime)
  {
    a.year < b.year || (a.year == b.year &&
    (a.monthIndex < b.monthIndex || (a.monthIndex == b.monthIndex &&
    (a.day < b.day || (a.day == b.day &&
    (a.hours < b.hours || (a.hours == b.hours && a.minutes < b.minutes)))))))
  }

  /** Ordinal comparison of two stamps agrees with chronological order of the times, so a later
      local minute never gives a smaller stamp. */
  lemma TimestampOrder(a: LocalTime, b: LocalTime)
    requires Valid(a) && Valid(b)
    ensures LexLess(GenerateTimestamp(a), GenerateTimestamp(b)) <==> Before(a, b)
  {
    StampFormats(a);
    StampFormats(b);
    FormattedOrder(a, b, ToDecimal(a.year), Pad2(a.monthIndex + 1), Pad2(a.day), Pad2(a.hours), Pad2(a.minutes),
                   ToDecimal(b.year), Pad2(b.monthIndex + 1), Pad2(b.day), Pad2(b.hours), Pad2(b.minutes));
  }

  /** Ordinal comparison of two formatted times is their chronological order. */
  lemma FormattedOrder(a: LocalTime, b: LocalTime,
                       ya: string, ma: string, da: string, ha: string, na: string,
                       yb: string, mb: string, db: string, hb: string, nb: string)
    requires Formats(a, ya, ma, da, ha, na) && Formats(b, yb, mb, db, hb, nb)
    ensures LexLess(ya + ma + da + ha + na, yb + mb + db + hb + nb) <==> Before(a, b)
  {
    DigitsOrder(ya, yb);
    DigitsOrder(ma, mb);
    DigitsOrder(da, db);
    DigitsOrder(ha, hb);
    DigitsOrder(na, nb);
    LexConcatFive(ya, ma, da, ha, na, yb, mb, db, hb, nb);
  }
}
