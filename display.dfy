/** What the component renders from its state: the celebration panel once
    finished, otherwise four cells, each field written in decimal and padded on
    the left with '0' to at least two characters. */
module Display {
  import opened TimeLeftSplit
  import opened Countdown

  predicate IsDigit(c: char) {
    '0' <= c <= '9'
  }

  predicate AllDigits(s: string) {
    forall i :: 0 <= i < |s| ==> IsDigit(s[i])
  }

  function DigitChar(d: nat): (c: char)
    requires d < 10
    ensures IsDigit(c)
  {
    ('0' as int + d) as char
  }

  function DigitValue(c: char): (d: nat)
    requires IsDigit(c)
    ensures d < 10 && DigitChar(d) == c
  {
    c as int - '0' as int
  }

  /** A non-negative whole number written in decimal, as number-to-string gives it:
      no sign and no leading zero. */
  function DecimalString(n: nat): (s: string)
    ensures 1 <= |s| && AllDigits(s)
    decreases n
  {
    if n < 10 then [DigitChar(n)] else DecimalString(n / 10) + [DigitChar(n % 10)]
  }

  /** The value a string of decimal digits reads as; leading zeros are allowed. */
  function ParseDecimal(s: string): nat
    requires AllDigits(s)
    decreases |s|
  {
    if s == [] then 0 else 10 * ParseDecimal(s[..|s| - 1]) + DigitValue(s[|s| - 1])
  }

  /** Left padding to a width with a one-character fill: strings already that long
      are kept as they are. */
  function PadStart(s: string, width: nat, fill: char): (r: string)
    ensures |r| == if |s| < width then width else |s|
    ensures r[|r| - |s|..] == s
    ensures forall i :: 0 <= i < |r| - |s| ==> r[i] == fill
  {
    if |s| < width then seq(width - |s|, _ => fill) + s else s
  }

  /** One displayed cell: the field in decimal, padded to two characters with '0'. */
  function Pad2(n: nat): (r: string)
    ensures |r| >= 2
  {
    PadStart(DecimalString(n), 2, '0')
  }

  /** A decimal string has a single digit exactly for values below ten. */
  lemma DecimalStringLength(n: nat)
    ensures |DecimalString(n)| == 1 <==> n < 10
    ensures n < 100 ==> |DecimalString(n)| <= 2
  {
  }

  /** A decimal string starts with '0' only when it is the number zero itself. */
  lemma {:induction false} DecimalStringNoLeadingZero(n: nat)
    ensures DecimalString(n)[0] == '0' <==> n == 0
    decreases n
  {
    if n >= 10 {
      DecimalStringNoLeadingZero(n / 10);
    }
  }

  /** Appending a digit multiplies the value read so far by ten and adds the digit. */
  lemma ParseDecimalSnoc(s: string, c: char)
    requires AllDigits(s) && IsDigit(c)
    ensures AllDigits(s + [c])
    ensures ParseDecimal(s + [c]) == 10 * ParseDecimal(s) + DigitValue(c)
  {
  }

  /** Reading a decimal string gives back the number it was written from. */
  lemma {:induction false} DecimalStringReadsBack(n: nat)
    ensures ParseDecimal(DecimalString(n)) == n
    decreases n
  {
    if n < 10 {
      assert ParseDecimal([DigitChar(n)]) == 10 * ParseDecimal([]) + n;
    } else {
      DecimalStringReadsBack(n / 10);
      ParseDecimalSnoc(DecimalString(n / 10), DigitChar(n % 10));
    }
  }

  /** A leading '0' does not change the value read. */
  lemma {:induction false} ParseDecimalLeadingZero(s: string)
    requires AllDigits(s)
    ensures AllDigits(['0'] + s)
    ensures ParseDecimal(['0'] + s) == ParseDecimal(s)
    decreases |s|
  {
    if s != [] {
      var init := s[..|s| - 1];
      ParseDecimalLeadingZero(init);
      assert ['0'] + s == (['0'] + init) + [s[|s| - 1]];
      ParseDecimalSnoc(['0'] + init, s[|s| - 1]);
      assert s == init + [s[|s| - 1]];
      ParseDecimalSnoc(init, s[|s| - 1]);
    }
  }

  /** A cell is at least two characters long, exactly two below one hundred, and
      only as long as the number's own digits from ten on. */
  lemma Pad2Length(n: nat)
    ensures |Pad2(n)| >= 2
    ensures n < 100 ==> |Pad2(n)| == 2
    ensures n >= 10 ==> Pad2(n) == DecimalString(n)
  {
    DecimalStringLength(n);
  }

  /** A cell gets a leading '0' exactly when its value is below ten, and is then
      '0' followed by the single digit. */
  lemma Pad2LeadingZero(n: nat)
    ensures Pad2(n)[0] == '0' <==> n < 10
    ensures n < 10 ==> Pad2(n) == ['0', DigitChar(n)]
  {
    DecimalStringLength(n);
    DecimalStringNoLeadingZero(n);
    if n < 10 {
      assert Pad2(n) == ['0'] + DecimalString(n);
    } else {
      assert Pad2(n) == DecimalString(n);
    }
  }

  /** A cell reads back as the value it displays. */
  lemma Pad2ReadsBack(n: nat)
    ensures AllDigits(Pad2(n))
    ensures ParseDecimal(Pad2(n)) == n
  {
    DecimalStringLength(n);
    DecimalStringReadsBack(n);
    if n < 10 {
      assert Pad2(n) == ['0'] + DecimalString(n);
      ParseDecimalLeadingZero(DecimalString(n));
    }
  }

  /** What the component renders. */
  datatype View = Celebration | Counting(cells: seq<string>)

  /** The celebration panel once finished; otherwise the four cells in the order
      days, hours, minutes, seconds. */
  function Render(s: TimerState): (v: View)
    requires InRange(s.timeLeft)
    ensures v.Celebration? <==> s.isFinished
    ensures v.Counting? ==>
              |v.cells| == 4 &&
              |v.cells[0]| >= 2 && |v.cells[1]| >= 2 && |v.cells[2]| >= 2 && |v.cells[3]| >= 2
  {
    if s.isFinished then Celebration
    else
      var t := s.timeLeft;
      Counting([Pad2(t.days), Pad2(t.hours), Pad2(t.minutes), Pad2(t.seconds)])
  }

  /** While counting, the cells show days, hours, minutes and seconds in that
      order: each is all digits and reads back as its field. */
  lemma RenderCellsShowFields(s: TimerState)
    requires InRange(s.timeLeft) && !s.isFinished
    ensures Render(s).Counting?
    ensures var cells := Render(s).cells;
            AllDigits(cells[0]) && ParseDecimal(cells[0]) == s.timeLeft.days &&
            AllDigits(cells[1]) && ParseDecimal(cells[1]) == s.timeLeft.hours &&
            AllDigits(cells[2]) && ParseDecimal(cells[2]) == s.timeLeft.minutes &&
            AllDigits(cells[3]) && ParseDecimal(cells[3]) == s.timeLeft.seconds
  {
    Pad2ReadsBack(s.timeLeft.days);
    Pad2ReadsBack(s.timeLeft.hours);
    Pad2ReadsBack(s.timeLeft.minutes);
    Pad2ReadsBack(s.timeLeft.seconds);
  }

  /** While counting, reading the four cells back and weighting them by their
      units gives the seconds the last tick measured. */
  lemma CellsReadBackTotal(s: TimerState, totalSeconds: int)
    requires !s.isFinished && totalSeconds > 0
    ensures Render(Next(s, totalSeconds)).Counting?
    ensures var cells := Render(Next(s, totalSeconds)).cells;
            AllDigits(cells[0]) && AllDigits(cells[1]) && AllDigits(cells[2]) && AllDigits(cells[3]) &&
            ParseDecimal(cells[0]) * SecondsPerDay + ParseDecimal(cells[1]) * SecondsPerHour +
            ParseDecimal(cells[2]) * SecondsPerMinute + ParseDecimal(cells[3]) == totalSeconds
  {
    RenderCellsShowFields(Next(s, totalSeconds));
  }

  /** Once the celebration is shown it stays shown, whatever later ticks measure. */
  lemma CelebrationIsFinal(s: TimerState, totals: seq<int>)
    requires InRange(s.timeLeft) && s.isFinished
    ensures InRange(Run(s, totals).timeLeft)
    ensures Render(Run(s, totals)) == Celebration
  {
  }
}
