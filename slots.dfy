/**
 * The slot catalogue of routes/appointmentroutes.js: the fixed list of bookable
 * time-of-day labels, the same for every date and every department.
 *
 * The list literal is kept entry for entry, written as one constant per line of the
 * source (one clock hour each) and joined in source order. `TimeLabel` is an
 * independent definition of what a label says (a 12-hour clock reading) and
 * `SlotTime` reads a label back into minutes after midnight; the lemmas tie the
 * literal to both, which gives the catalogue's shape: 96 distinct labels from
 * 10:00 AM to 5:55 PM, five minutes apart, in chronological order.
 */
module SlotCatalog {
  import opened Wrappers
  import opened Decimal

  /** The 12-hour-clock label "h:mm AM" or "h:mm PM" of the 24-hour time hour:minute. */
  function TimeLabel(hour: int, minute: int): string
    requires 0 <= hour < 24 && 0 <= minute < 60
  {
    var h := if hour == 0 then 12 else if hour > 12 then hour - 12 else hour;
    var half := if hour < 12 then 'A' else 'P';
    if h < 10 then
      [DigitChar(h), ':', DigitChar(minute / 10), DigitChar(minute % 10), ' ', half, 'M']
    else
      [DigitChar(h / 10), DigitChar(h % 10), ':', DigitChar(minute / 10), DigitChar(minute % 10), ' ', half, 'M']
  }

  /** The twelve five-minute labels of one clock hour, in order. */
  function HourSlots(hour: int): seq<string>
    requires 0 <= hour < 24
  {
    seq(12, k requires 0 <= k < 12 => TimeLabel(hour, 5 * k))
  }

  const Hour10: seq<string> := ["10:00 AM", "10:05 AM", "10:10 AM", "10:15 AM", "10:20 AM", "10:25 AM", "10:30 AM", "10:35 AM", "10:40 AM", "10:45 AM", "10:50 AM", "10:55 AM"]
  const Hour11: seq<string> := ["11:00 AM", "11:05 AM", "11:10 AM", "11:15 AM", "11:20 AM", "11:25 AM", "11:30 AM", "11:35 AM", "11:40 AM", "11:45 AM", "11:50 AM", "11:55 AM"]
  const Hour12: seq<string> := ["12:00 PM", "12:05 PM", "12:10 PM", "12:15 PM", "12:20 PM", "12:25 PM", "12:30 PM", "12:35 PM", "12:40 PM", "12:45 PM", "12:50 PM", "12:55 PM"]
  const Hour13: seq<string> := ["1:00 PM", "1:05 PM", "1:10 PM", "1:15 PM", "1:20 PM", "1:25 PM", "1:30 PM", "1:35 PM", "1:40 PM", "1:45 PM", "1:50 PM", "1:55 PM"]
  const Hour14: seq<string> := ["2:00 PM", "2:05 PM", "2:10 PM", "2:15 PM", "2:20 PM", "2:25 PM", "2:30 PM", "2:35 PM", "2:40 PM", "2:45 PM", "2:50 PM", "2:55 PM"]
  const Hour15: seq<string> := ["3:00 PM", "3:05 PM", "3:10 PM", "3:15 PM", "3:20 PM", "3:25 PM", "3:30 PM", "3:35 PM", "3:40 PM", "3:45 PM", "3:50 PM", "3:55 PM"]
  const Hour16: seq<string> := ["4:00 PM", "4:05 PM", "4:10 PM", "4:15 PM", "4:20 PM", "4:25 PM", "4:30 PM", "4:35 PM", "4:40 PM", "4:45 PM", "4:50 PM", "4:55 PM"]
  const Hour17: seq<string> := ["5:00 PM", "5:05 PM", "5:10 PM", "5:15 PM", "5:20 PM", "5:25 PM", "5:30 PM", "5:35 PM", "5:40 PM", "5:45 PM", "5:50 PM", "5:55 PM"]

  /** `allSlots`: the catalogue, in the order the source lists it. */
  const AllSlots: seq<string> := Hour10 + Hour11 + Hour12 + Hour13 + Hour14 + Hour15 + Hour16 + Hour17

  /**
   * Reads a label "h:mm AM" / "hh:mm PM" (hour 1..12, minute 00..59) as minutes after
   * midnight; None for anything else.
   */
  function SlotTime(s: string): (t: Option<nat>)
    ensures t.Some? ==> t.value < 24 * 60
  {
    var n := |s|;
    if n < 7 || n > 8 then None
    else if s[n - 6] != ':' || s[n - 3] != ' ' || s[n - 1] != 'M' || (s[n - 2] != 'A' && s[n - 2] != 'P') then None
    else if !AllDigits(s[..n - 6]) || !AllDigits(s[n - 5..n - 3]) then None
    else
      var h := DigitsValue(s[..n - 6]);
      var m := DigitsValue(s[n - 5..n - 3]);
      if h < 1 || h > 12 || m > 59 then None
      else Some((h % 12 + (if s[n - 2] == 'P' then 12 else 0)) * 60 + m)
  }

  lemma OneCharValue(p: string)
    requires |p| == 1 && AllDigits(p)
    ensures DigitsValue(p) == DigitValue(p[0])
  {
    assert p[..0] == [];
  }

  /** A string with the shape of a label reads as its hour digits and minute digits. */
  lemma ReadLabel(s: string, h: nat, m: nat)
    requires 7 <= |s| <= 8 && s[|s| - 6] == ':' && s[|s| - 3] == ' ' && s[|s| - 1] == 'M'
    requires s[|s| - 2] == 'A' || s[|s| - 2] == 'P'
    requires AllDigits(s[..|s| - 6]) && DigitsValue(s[..|s| - 6]) == h && 1 <= h <= 12
    requires AllDigits(s[|s| - 5..|s| - 3]) && DigitsValue(s[|s| - 5..|s| - 3]) == m && m <= 59
    ensures SlotTime(s) == Some((h % 12 + (if s[|s| - 2] == 'P' then 12 else 0)) * 60 + m)
  {
  }

  /** A generated label reads back as the time it was generated from. */
  lemma TimeLabelReadsBack(hour: int, minute: int)
    requires 0 <= hour < 24 && 0 <= minute < 60
    ensures SlotTime(TimeLabel(hour, minute)) == Some(60 * hour + minute)
  {
    var s := TimeLabel(hour, minute);
    var n := |s|;
    var h := if hour == 0 then 12 else if hour > 12 then hour - 12 else hour;
    var mm := [DigitChar(minute / 10), DigitChar(minute % 10)];
    assert s[n - 5..n - 3] == mm;
    TwoCharValue(mm);
    if h < 10 {
      assert s[..n - 6] == [DigitChar(h)];
      OneCharValue([DigitChar(h)]);
    } else {
      var hh := [DigitChar(h / 10), DigitChar(h % 10)];
      assert s[..n - 6] == hh;
      TwoCharValue(hh);
    }
    ReadLabel(s, h, minute);
  }

  /** Twelve values at five-minute steps, listed one by one, are the comprehension over the steps. */
  lemma TwelveSteps(f: int --> string)
    requires forall m :: 0 <= m < 60 ==> f.requires(m)
    ensures [f(0), f(5), f(10), f(15), f(20), f(25), f(30), f(35), f(40), f(45), f(50), f(55)]
         == seq(12, k requires 0 <= k < 12 => f(5 * k))
  {
  }

  /** One line of the catalogue literal is the generated labels of its hour. */
  lemma HourLine(line: seq<string>, hour: int)
    requires 0 <= hour < 24
    requires line == [TimeLabel(hour, 0), TimeLabel(hour, 5), TimeLabel(hour, 10), TimeLabel(hour, 15),
                      TimeLabel(hour, 20), TimeLabel(hour, 25), TimeLabel(hour, 30), TimeLabel(hour, 35),
                      TimeLabel(hour, 40), TimeLabel(hour, 45), TimeLabel(hour, 50), TimeLabel(hour, 55)]
    ensures line == HourSlots(hour)
  {
    TwelveSteps(m requires 0 <= m < 60 => TimeLabel(hour, m));
  }

  /** The first n entries of a catalogue that starts at 10:00 and steps five minutes at a time. */
  ghost predicate StepsFromTen(s: seq<string>, n: nat)
    requires n <= 96
  {
    |s| == n && forall i :: 0 <= i < n ==> s[i] == TimeLabel(10 + i / 12, 5 * (i % 12))
  }

  /** Appending the labels of the next hour extends such a catalogue by twelve entries. */
  lemma NextHour(s: seq<string>, r: nat)
    requires r < 8 && StepsFromTen(s, 12 * r)
    ensures StepsFromTen(s + HourSlots(10 + r), 12 * r + 12)
  {
    var t := s + HourSlots(10 + r);
    forall i | 0 <= i < 12 * r + 12 ensures t[i] == TimeLabel(10 + i / 12, 5 * (i % 12)) {
      if i >= 12 * r {
        var k := i - 12 * r;
        assert i / 12 == r && i % 12 == k;
        assert t[i] == HourSlots(10 + r)[k];
      }
    }
  }

  /** Each line of the catalogue literal holds the twelve generated labels of its hour. */
  lemma CatalogueByHour()
    ensures Hour10 == HourSlots(10) && Hour11 == HourSlots(11) && Hour12 == HourSlots(12)
    ensures Hour13 == HourSlots(13) && Hour14 == HourSlots(14) && Hour15 == HourSlots(15)
    ensures Hour16 == HourSlots(16) && Hour17 == HourSlots(17)
  {
    HourLine(Hour10, 10);
    HourLine(Hour11, 11);
    HourLine(Hour12, 12);
    HourLine(Hour13, 13);
    HourLine(Hour14, 14);
    HourLine(Hour15, 15);
    HourLine(Hour16, 16);
    HourLine(Hour17, 17);
  }

  /** Eight consecutive hours of labels, joined, list 10:00 onwards in five-minute steps. */
  lemma EightHours(h10: seq<string>, h11: seq<string>, h12: seq<string>, h13: seq<string>,
                   h14: seq<string>, h15: seq<string>, h16: seq<string>, h17: seq<string>)
    requires h10 == HourSlots(10) && h11 == HourSlots(11) && h12 == HourSlots(12) && h13 == HourSlots(13)
    requires h14 == HourSlots(14) && h15 == HourSlots(15) && h16 == HourSlots(16) && h17 == HourSlots(17)
    ensures StepsFromTen(h10 + h11 + h12 + h13 + h14 + h15 + h16 + h17, 96)
  {
    NextHour([], 0);
    assert [] + h10 == h10;
    NextHour(h10, 1);
    NextHour(h10 + h11, 2);
    NextHour(h10 + h11 + h12, 3);
    NextHour(h10 + h11 + h12 + h13, 4);
    NextHour(h10 + h11 + h12 + h13 + h14, 5);
    NextHour(h10 + h11 + h12 + h13 + h14 + h15, 6);
    NextHour(h10 + h11 + h12 + h13 + h14 + h15 + h16, 7);
  }

  /** Entry i of the catalogue is the label of 10:00 plus 5 * i minutes. */
  lemma CatalogueEntries()
    ensures |AllSlots| == 96
    ensures forall i :: 0 <= i < 96 ==> AllSlots[i] == TimeLabel(10 + i / 12, 5 * (i % 12))
  {
    CatalogueByHour();
    EightHours(Hour10, Hour11, Hour12, Hour13, Hour14, Hour15, Hour16, Hour17);
  }

  /** What a 96-entry list of five-minute steps from 10:00 looks like, read back as times. */
  lemma StepsShape(s: seq<string>)
    requires StepsFromTen(s, 96)
    ensures forall i :: 0 <= i < 96 ==> SlotTime(s[i]) == Some(600 + 5 * i)
    ensures s[0] == "10:00 AM" && s[95] == "5:55 PM"
    ensures forall i, j :: 0 <= i < j < 96 ==> SlotTime(s[i]).value < SlotTime(s[j]).value
    ensures forall i, j :: 0 <= i < 96 && 0 <= j < 96 && s[i] == s[j] ==> i == j
  {
    forall i | 0 <= i < 96 ensures SlotTime(s[i]) == Some(600 + 5 * i) {
      EntryTime(s, i);
    }
    FirstAndLast();
  }

  /** Entry i of such a catalogue reads as 10:00 plus 5·i minutes. */
  lemma EntryTime(s: seq<string>, i: int)
    requires StepsFromTen(s, 96) && 0 <= i < 96
    ensures SlotTime(s[i]) == Some(600 + 5 * i)
  {
    TimeLabelReadsBack(10 + i / 12, 5 * (i % 12));
    assert i == 12 * (i / 12) + i % 12;
  }

  /** The labels of 10:00 and 17:55. */
  lemma FirstAndLast()
    ensures TimeLabel(10, 0) == "10:00 AM" && TimeLabel(17, 55) == "5:55 PM"
  {
  }

  /**
   * The catalogue's shape: 96 labels, the i-th reading as 10:00 plus 5 * i minutes, so
   * from "10:00 AM" to "5:55 PM", strictly chronological and pairwise distinct.
   */
  lemma CatalogueShape()
    ensures |AllSlots| == 96
    ensures forall i :: 0 <= i < 96 ==> SlotTime(AllSlots[i]) == Some(600 + 5 * i)
    ensures AllSlots[0] == "10:00 AM" && AllSlots[95] == "5:55 PM"
    ensures forall i, j :: 0 <= i < j < 96 ==> SlotTime(AllSlots[i]).value < SlotTime(AllSlots[j]).value
    ensures forall i, j :: 0 <= i < 96 && 0 <= j < 96 && AllSlots[i] == AllSlots[j] ==> i == j
  {
    CatalogueEntries();
    StepsShape(AllSlots);
  }

  /** Every entry is a clock label, and each one reads as a strictly later time than the one before. */
  predicate Chronological(s: seq<string>) {
    (forall i :: 0 <= i < |s| ==> SlotTime(s[i]).Some?)
    && forall i, j :: 0 <= i < j < |s| ==> SlotTime(s[i]).value < SlotTime(s[j]).value
  }

  lemma CatalogueChronological()
    ensures Chronological(AllSlots)
  {
    CatalogueShape();
  }

  /** No label from 6 PM on is in the catalogue. */
  lemma EveningOutsideCatalogue(hour: int, minute: int)
    requires 18 <= hour < 24 && 0 <= minute < 60
    ensures TimeLabel(hour, minute) !in AllSlots
  {
    TimeLabelReadsBack(hour, minute);
    CatalogueShape();
  }
}
