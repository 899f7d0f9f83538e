/**
 * `generateTicketId` of utils/ticketUtils.js, with the clock reading taken as an input:
 * "KC", then day, month, year, hours, minutes and seconds of the local time. Every
 * field but the year is padded to two digits; the year is written as it is.
 *
 * `ParseTicketId` reads the fixed-width layout back. For four-digit years the two are
 * inverse to each other, so the identifier determines the second it was made in.
 */
module Ticket {
  import opened Wrappers
  import opened Decimal

  /**
   * The parts of a JavaScript `Date` the encoder reads: `getDate()`, `getMonth()`
   * (zero-based), `getFullYear()`, `getHours()`, `getMinutes()`, `getSeconds()`.
   */
  datatype Clock = Clock(day: nat, monthIndex: nat, year: int, hours: nat, minutes: nat, seconds: nat)

  /** The ranges a `Date` keeps its fields in (day of month 1..31, month 0..11, 24-hour clock). */
  predicate IsCalendarReading(c: Clock) {
    1 <= c.day <= 31 && c.monthIndex <= 11 && c.hours <= 23 && c.minutes <= 59 && c.seconds <= 59
  }

  predicate HasFourDigitYear(c: Clock) {
    1000 <= c.year <= 9999
  }

  /**
   * `n.toString().padStart(2, '0')`: at least two digits that denote n, and exactly two
   * when n is below 100.
   */
  function Pad2(n: nat): (p: string)
    ensures |p| >= 2 && AllDigits(p) && DigitsValue(p) == n
    ensures |p| == 2 <==> n < 100
  {
    var s := NatToString(n);
    NatToStringValue(n);
    assert n >= 100 ==> |s| >= 3 by {
      if n >= 100 {
        assert s == NatToString(n / 10) + [DigitChar(n % 10)];
      }
    }
    assert 10 <= n < 100 ==> |s| == 2 by {
      if 10 <= n < 100 {
        assert s == NatToString(n / 10) + [DigitChar(n % 10)];
      }
    }
    if |s| >= 2 then s
    else
      LeadingZerosValue(2 - |s|, s);
      assert PadStart(s, 2, '0') == seq(2 - |s|, _ => '0') + s;
      PadStart(s, 2, '0')
  }

  /** The identifier's template: the prefix "KC" and the six fields, in this order, without separators. */
  function Layout(d: string, m: string, y: string, h: string, mi: string, s: string): (id: string)
    ensures |id| == 2 + |d| + |m| + |y| + |h| + |mi| + |s| && id[..2] == "KC"
  {
    "KC" + d + m + y + h + mi + s
  }

  /** `KC${day}${month}${year}${hours}${minutes}${seconds}` with the padded fields. */
  function GenerateTicketId(now: Clock): (id: string)
    ensures |id| >= 2 && id[..2] == "KC"
  {
    Layout(Pad2(now.day), Pad2(now.monthIndex + 1), IntToString(now.year),
           Pad2(now.hours), Pad2(now.minutes), Pad2(now.seconds))
  }

  /** p is exactly two decimal digits and denotes n. */
  predicate IsTwoDigitField(p: string, n: nat) {
    |p| == 2 && AllDigits(p) && DigitsValue(p) == n
  }

  /**
   * For any calendar reading, day, month (the month index plus one, so 1..12), hours,
   * minutes and seconds each become exactly two decimal digits; the year is written
   * unpadded, so the identifier is twelve characters longer than the year's text.
   */
  lemma TicketIdFields(now: Clock)
    requires IsCalendarReading(now)
    ensures IsTwoDigitField(Pad2(now.day), now.day)
    ensures IsTwoDigitField(Pad2(now.monthIndex + 1), now.monthIndex + 1) && 1 <= now.monthIndex + 1 <= 12
    ensures IsTwoDigitField(Pad2(now.hours), now.hours)
    ensures IsTwoDigitField(Pad2(now.minutes), now.minutes)
    ensures IsTwoDigitField(Pad2(now.seconds), now.seconds)
    ensures |GenerateTicketId(now)| == 12 + |IntToString(now.year)|
  {
  }

  /** "KC" followed by five two-digit fields around a four-digit one, and where each field sits. */
  lemma FixedWidthLayout(d: string, m: string, y: string, h: string, mi: string, s: string)
    requires |d| == 2 && |m| == 2 && |y| == 4 && |h| == 2 && |mi| == 2 && |s| == 2
    requires AllDigits(d) && AllDigits(m) && AllDigits(y) && AllDigits(h) && AllDigits(mi) && AllDigits(s)
    ensures var id := Layout(d, m, y, h, mi, s);
      |id| == 16 && id[..2] == "KC" && AllDigits(id[2..])
      && id[2..4] == d && id[4..6] == m && id[6..10] == y
      && id[10..12] == h && id[12..14] == mi && id[14..16] == s
  {
    var id := Layout(d, m, y, h, mi, s);
    assert AllDigits(id[2..]) by {
      forall i | 2 <= i < 16 ensures IsDigit(id[i]) {
        if i < 4 { assert id[i] == d[i - 2]; }
        else if i < 6 { assert id[i] == m[i - 4]; }
        else if i < 10 { assert id[i] == y[i - 6]; }
        else if i < 12 { assert id[i] == h[i - 10]; }
        else if i < 14 { assert id[i] == mi[i - 12]; }
        else { assert id[i] == s[i - 14]; }
      }
    }
  }

  /** With a four-digit year the identifier is 16 characters, "KC" and fourteen digits. */
  lemma TicketIdLayout(now: Clock)
    requires IsCalendarReading(now) && HasFourDigitYear(now)
    ensures var id := GenerateTicketId(now);
      |id| == 16 && id[..2] == "KC" && AllDigits(id[2..])
      && id[2..4] == Pad2(now.day) && id[4..6] == Pad2(now.monthIndex + 1)
      && id[6..10] == NatToString(now.year as nat)
      && id[10..12] == Pad2(now.hours) && id[12..14] == Pad2(now.minutes) && id[14..16] == Pad2(now.seconds)
  {
    TicketIdFields(now);
    FourDigitLength(now.year as nat);
    FixedWidthLayout(Pad2(now.day), Pad2(now.monthIndex + 1), NatToString(now.year as nat),
                     Pad2(now.hours), Pad2(now.minutes), Pad2(now.seconds));
  }

  /**
   * Reads an identifier of the form KCddmmyyyyhhmmss with a year 1000..9999 and fields
   * in calendar range back into the clock reading; None for anything else.
   */
  function ParseTicketId(id: string): (r: Option<Clock>)
    ensures r.Some? ==> IsCalendarReading(r.value) && HasFourDigitYear(r.value)
  {
    if |id| != 16 || id[..2] != "KC" || !AllDigits(id[2..]) || id[6] == '0' then None
    else
      var day := Field(id, 2, 4);
      var month := Field(id, 4, 6);
      var year := Field(id, 6, 10);
      var c := Clock(day, if month >= 1 then month - 1 else 0, year,
                     Field(id, 10, 12), Field(id, 12, 14), Field(id, 14, 16));
      if month >= 1 && IsCalendarReading(c) && HasFourDigitYear(c) then Some(c) else None
  }

  /** The number written in id[lo..hi]. */
  function Field(id: string, lo: nat, hi: nat): nat
    requires 2 <= lo <= hi <= |id| && AllDigits(id[2..])
  {
    assert AllDigits(id[lo..hi]) by {
      forall i | 0 <= i < hi - lo ensures IsDigit(id[lo..hi][i]) {
        assert id[lo..hi][i] == id[2..][lo - 2 + i];
      }
    }
    DigitsValue(id[lo..hi])
  }

  /** The decoder accepts a layout whose fields denote a calendar reading, and returns that reading. */
  lemma ParseFields(id: string, c: Clock)
    requires |id| == 16 && id[..2] == "KC" && AllDigits(id[2..]) && id[6] != '0'
    requires IsCalendarReading(c) && HasFourDigitYear(c)
    requires Field(id, 2, 4) == c.day && Field(id, 4, 6) == c.monthIndex + 1 && Field(id, 6, 10) == c.year
    requires Field(id, 10, 12) == c.hours && Field(id, 12, 14) == c.minutes && Field(id, 14, 16) == c.seconds
    ensures ParseTicketId(id) == Some(c)
  {
  }

  /** Any layout whose fields denote a calendar reading decodes to that reading. */
  lemma ParseLayout(d: string, m: string, y: string, h: string, mi: string, s: string, c: Clock)
    requires IsCalendarReading(c) && HasFourDigitYear(c)
    requires IsTwoDigitField(d, c.day) && IsTwoDigitField(m, c.monthIndex + 1)
    requires IsTwoDigitField(h, c.hours) && IsTwoDigitField(mi, c.minutes) && IsTwoDigitField(s, c.seconds)
    requires |y| == 4 && AllDigits(y) && y[0] != '0' && DigitsValue(y) == c.year
    ensures ParseTicketId(Layout(d, m, y, h, mi, s)) == Some(c)
  {
    FixedWidthLayout(d, m, y, h, mi, s);
    var id := Layout(d, m, y, h, mi, s);
    assert id[6] == y[0];
    assert Field(id, 2, 4) == c.day;
    assert Field(id, 4, 6) == c.monthIndex + 1;
    assert Field(id, 6, 10) == c.year;
    assert Field(id, 10, 12) == c.hours;
    assert Field(id, 12, 14) == c.minutes;
    assert Field(id, 14, 16) == c.seconds;
    ParseFields(id, c);
  }

  /** Decoding an identifier recovers the clock reading it was generated from. */
  lemma ParseGenerated(now: Clock)
    requires IsCalendarReading(now) && HasFourDigitYear(now)
    ensures ParseTicketId(GenerateTicketId(now)) == Some(now)
  {
    TicketIdFields(now);
    var y := NatToString(now.year as nat);
    FourDigitLength(now.year as nat);
    NatToStringValue(now.year as nat);
    ParseLayout(Pad2(now.day), Pad2(now.monthIndex + 1), y, Pad2(now.hours), Pad2(now.minutes), Pad2(now.seconds), now);
  }

  /** A two-digit field of an accepted layout renders back to the same two characters. */
  lemma FieldRenders(id: string, lo: nat)
    requires 2 <= lo && lo + 2 <= |id| && AllDigits(id[2..])
    ensures Field(id, lo, lo + 2) < 100 && Pad2(Field(id, lo, lo + 2)) == id[lo..lo + 2]
  {
    var p := id[lo..lo + 2];
    assert AllDigits(p) by {
      assert p[0] == id[2..][lo - 2] && p[1] == id[2..][lo - 1];
    }
    TwoDigitFieldValue(p);
  }

  /** The four-digit year of an accepted layout renders back to the same four characters. */
  lemma YearRenders(id: string)
    requires |id| == 16 && AllDigits(id[2..]) && id[6] != '0'
    ensures NatToString(Field(id, 6, 10)) == id[6..10]
  {
    var y := id[6..10];
    assert AllDigits(y) by {
      forall i | 0 <= i < 4 ensures IsDigit(y[i]) {
        assert y[i] == id[2..][4 + i];
      }
    }
    assert y[0] == id[6];
    DigitsValueRendering(y);
  }

  /** A sixteen-character identifier starting "KC" is the layout of its own slices. */
  lemma SplitLayout(id: string)
    requires |id| == 16 && id[..2] == "KC"
    ensures Layout(id[2..4], id[4..6], id[6..10], id[10..12], id[12..14], id[14..16]) == id
  {
    var r := Layout(id[2..4], id[4..6], id[6..10], id[10..12], id[12..14], id[14..16]);
    forall i | 0 <= i < 16 ensures r[i] == id[i] {
      if i < 2 { assert r[i] == r[..2][i] && id[i] == id[..2][i]; }
    }
  }

  /** Every identifier the decoder accepts is exactly the one its reading generates. */
  lemma GenerateParsed(id: string)
    requires ParseTicketId(id).Some?
    ensures GenerateTicketId(ParseTicketId(id).value) == id
  {
    var c := ParseTicketId(id).value;
    assert |id| == 16 && id[..2] == "KC" && AllDigits(id[2..]) && id[6] != '0';
    assert c.day == Field(id, 2, 4) && c.monthIndex + 1 == Field(id, 4, 6) && c.year == Field(id, 6, 10);
    assert c.hours == Field(id, 10, 12) && c.minutes == Field(id, 12, 14) && c.seconds == Field(id, 14, 16);
    FieldRenders(id, 2);
    FieldRenders(id, 4);
    FieldRenders(id, 10);
    FieldRenders(id, 12);
    FieldRenders(id, 14);
    YearRenders(id);
    SplitLayout(id);
  }

  /** Identifiers made from distinct four-digit-year readings are distinct. */
  lemma TicketIdInjective(a: Clock, b: Clock)
    requires IsCalendarReading(a) && HasFourDigitYear(a)
    requires IsCalendarReading(b) && HasFourDigitYear(b)
    requires GenerateTicketId(a) == GenerateTicketId(b)
    ensures a == b
  {
    ParseGenerated(a);
    ParseGenerated(b);
  }
}
