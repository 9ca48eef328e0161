/** How the popup turns an "HH:MM" time into a comparable integer: the colon is
    deleted and the remaining digits are read as a decimal number, so "09:00"
    becomes 900 and "14:30" becomes 1430. */
module TimeCode {
  import opened SeqUtil

  datatype ClockTime = ClockTime(hour: nat, minute: nat)

  /** A zero-padded 24-hour time. */
  predicate WellFormed(t: ClockTime) {
    t.hour < 24 && t.minute < 60
  }

  /** The integer the popup computes for a well-formed time. */
  function Encode(t: ClockTime): nat {
    t.hour * 100 + t.minute
  }

  /** Independent reference for chronological order. */
  function MinuteOfDay(t: ClockTime): nat {
    t.hour * 60 + t.minute
  }

  /** The encoding is order-preserving because minutes stay below 60. */
  lemma EncodePreservesOrder(a: ClockTime, b: ClockTime)
    requires a.minute < 60 && b.minute < 60
    ensures Encode(a) < Encode(b) <==> MinuteOfDay(a) < MinuteOfDay(b)
    ensures Encode(a) == Encode(b) <==> a == b
  {
    if a.hour < b.hour {
      assert Encode(a) < (a.hour + 1) * 100 <= Encode(b);
      assert MinuteOfDay(a) < (a.hour + 1) * 60 <= MinuteOfDay(b);
    } else if b.hour < a.hour {
      assert Encode(b) < (b.hour + 1) * 100 <= Encode(a);
      assert MinuteOfDay(b) < (b.hour + 1) * 60 <= MinuteOfDay(a);
    }
  }

  /** Reading an encoded time back: hundreds are hours, the rest minutes. */
  function Decode(code: nat): ClockTime {
    ClockTime(code / 100, code % 100)
  }

  lemma DecodeEncode(t: ClockTime)
    requires t.minute < 60
    ensures Decode(Encode(t)) == t
  {
    var c := Encode(t);
    assert c == t.hour * 100 + t.minute;
    DivModUnique(c, t.hour, t.minute);
  }

  lemma DivModUnique(c: nat, q: nat, r: nat)
    requires r < 100 && c == q * 100 + r
    ensures c / 100 == q && c % 100 == r
  {
  }

  // ---- the text the value comes from -------------------------------------

  predicate IsDigit(c: char) { '0' <= c <= '9' }

  predicate IsDecimal(s: string) {
    forall i :: 0 <= i < |s| ==> IsDigit(s[i])
  }

  function DigitChar(d: nat): (c: char)
    requires d < 10
    ensures IsDigit(c)
  {
    ['0', '1', '2', '3', '4', '5', '6', '7', '8', '9'][d]
  }

  function DigitValue(c: char): (d: nat)
    requires IsDigit(c)
    ensures d < 10
  {
    (c as int - '0' as int) as nat
  }

  /** Value of a string of decimal digits, as `parseInt` reads it. */
  function DecimalValue(s: string): nat
    requires IsDecimal(s)
  {
    if s == [] then 0 else DecimalValue(s[..|s| - 1]) * 10 + DigitValue(s[|s| - 1])
  }

  /** A two-digit, zero-padded field. */
  function TwoDigits(n: nat): (s: string)
    requires n < 100
    ensures |s| == 2 && IsDecimal(s)
  {
    [DigitChar(n / 10), DigitChar(n % 10)]
  }

  /** The "HH:MM" text of a well-formed time. */
  function TimeText(t: ClockTime): string
    requires WellFormed(t)
  {
    TwoDigits(t.hour) + ":" + TwoDigits(t.minute)
  }

  /** JavaScript's `replace(':', '')`: only the first colon is deleted, and the
      characters around it keep their order. */
  function DeleteFirstColon(s: string): (r: string)
    ensures ':' in s ==> |r| == |s| - 1
    ensures ':' in s ==> exists k :: 0 <= k < |s| && s[k] == ':' && ':' !in s[..k] && r == s[..k] + s[k + 1..]
    ensures ':' !in s ==> r == s
  {
    if ':' in s then RemoveAt(s, IndexOf(s, ':')) else s
  }

  /** `parseInt(text.replace(':', ''))` for a text whose colon-free part is all digits. */
  function ParseTime(text: string): nat
    requires IsDecimal(DeleteFirstColon(text))
  {
    DecimalValue(DeleteFirstColon(text))
  }

  /** Parsing the text of a well-formed time yields its encoding. */
  lemma ParseTimeText(t: ClockTime)
    requires WellFormed(t)
    ensures IsDecimal(DeleteFirstColon(TimeText(t)))
    ensures ParseTime(TimeText(t)) == Encode(t)
  {
    var h, m := TwoDigits(t.hour), TwoDigits(t.minute);
    var s := DeleteFirstColon(TimeText(t));
    ColonOfTimeText(t);
    FourDigits(s);
    TwoDigitsValue(t.hour);
    TwoDigitsValue(t.minute);
    var hi, lo := t.hour, t.minute;
    assert (hi / 10) * 10 + hi % 10 == hi;
    assert (lo / 10) * 10 + lo % 10 == lo;
    assert ((hi * 10) + lo / 10) * 10 + lo % 10 == hi * 100 + lo;
  }

  /** Deleting the colon of "HH:MM" leaves the four digits "HHMM". */
  lemma ColonOfTimeText(t: ClockTime)
    requires WellFormed(t)
    ensures DeleteFirstColon(TimeText(t)) == TwoDigits(t.hour) + TwoDigits(t.minute)
  {
    var h, m := TwoDigits(t.hour), TwoDigits(t.minute);
    var x := TimeText(t);
    assert x == [h[0], h[1], ':', m[0], m[1]];
    assert x[1..] == [h[1], ':', m[0], m[1]];
    assert x[1..][1..] == [':', m[0], m[1]];
    assert IsDigit(h[0]) && IsDigit(h[1]);
    assert DeleteFirstColon(x[1..][1..]) == [m[0], m[1]];
    assert DeleteFirstColon(x[1..]) == [h[1], m[0], m[1]];
  }

  lemma TwoDigitsValue(n: nat)
    requires n < 100
    ensures DigitValue(TwoDigits(n)[0]) == n / 10 && DigitValue(TwoDigits(n)[1]) == n % 10
  {
  }

  lemma FourDigits(s: string)
    requires |s| == 4 && IsDecimal(s)
    ensures DecimalValue(s)
         == ((DigitValue(s[0]) * 10 + DigitValue(s[1])) * 10 + DigitValue(s[2])) * 10 + DigitValue(s[3])
  {
    var d0, d1, d2, d3 := DigitValue(s[0]), DigitValue(s[1]), DigitValue(s[2]), DigitValue(s[3]);
    assert [s[0]][..0] == [];
    assert DecimalValue([s[0]]) == d0;
    assert [s[0], s[1]][..1] == [s[0]];
    assert DecimalValue([s[0], s[1]]) == d0 * 10 + d1;
    assert [s[0], s[1], s[2]][..2] == [s[0], s[1]];
    assert DecimalValue([s[0], s[1], s[2]]) == (d0 * 10 + d1) * 10 + d2;
    assert s[..3] == [s[0], s[1], s[2]];
  }

  /** Worked values: "09:00" reads as 900, "14:30" as 1430, and 900 < 1430. */
  lemma EncodingExamples()
    ensures ParseTime("09:00") == 900 && ParseTime("14:30") == 1430
    ensures Encode(ClockTime(9, 0)) < Encode(ClockTime(14, 30))
  {
    MorningExample();
    AfternoonExample();
  }

  lemma MorningExample()
    ensures IsDecimal(DeleteFirstColon("09:00")) && ParseTime("09:00") == 900
  {
    assert TimeText(ClockTime(9, 0)) == "09:00";
    ParseTimeText(ClockTime(9, 0));
  }

  lemma AfternoonExample()
    ensures IsDecimal(DeleteFirstColon("14:30")) && ParseTime("14:30") == 1430
  {
    assert TimeText(ClockTime(14, 30)) == "14:30";
    ParseTimeText(ClockTime(14, 30));
  }

  /** A slot's time range after both ends are encoded. */
  datatype TimeRange = TimeRange(start: int, end: int)

  /** One weekly meeting of a section. */
  datatype Slot = Slot(day: string, time: TimeRange)
}
