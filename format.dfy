/**
 * The `MM:SS` rendering of `CatodoroTimer.updateDisplay` (script.js) and the page titles.
 * A JavaScript string is a sequence of characters; `toString` of a non-negative integer
 * below 10^21 is its decimal digits (larger numbers print in exponent notation, and a
 * Number above 2^53 has already lost its low digits; neither is modelled), and `padStart(2, '0')` prefixes zeros up to length two.
 */
module Format {
  const TITLE_SUFFIX := " - Catodoro"
  const DONE_TITLE := "Done! - Catodoro"

  predicate IsDigit(c: char) { '0' <= c <= '9' }

  predicate IsDigits(s: string) { forall i :: 0 <= i < |s| ==> IsDigit(s[i]) }

  function DigitValue(c: char): nat
    requires IsDigit(c)
  {
    c as int - '0' as int
  }

  /** The number a string of decimal digits denotes (leading zeros allowed). */
  function DigitsValue(s: string): nat
    requires IsDigits(s)
  {
    if s == [] then 0 else 10 * DigitsValue(s[..|s| - 1]) + DigitValue(s[|s| - 1])
  }

  function DigitChar(d: nat): (c: char)
    requires d < 10
    ensures IsDigit(c) && DigitValue(c) == d
  {
    ('0' as int + d) as char
  }

  /** `n.toString()` for a non-negative integer `n` below 10^21: its digits, without leading zeros. */
  function Decimal(n: nat): (s: string)
    ensures IsDigits(s) && 1 <= |s| && (s[0] == '0' ==> s == "0")
    ensures |s| >= 2 <==> n >= 10
    ensures n < 100 ==> |s| <= 2
  {
    if n < 10 then [DigitChar(n)] else Decimal(n / 10) + [DigitChar(n % 10)]
  }

  /** `toString` and reading the digits back are inverse. */
  lemma {:induction false} DecimalValue(n: nat)
    ensures DigitsValue(Decimal(n)) == n
  {
    if n >= 10 {
      var s := Decimal(n);
      assert s[..|s| - 1] == Decimal(n / 10);
      DecimalValue(n / 10);
    }
  }

  /** `k` zero characters. */
  function Zeros(k: nat): (z: string)
    ensures |z| == k
  {
    if k == 0 then "" else "0" + Zeros(k - 1)
  }

  /** `s.padStart(2, '0')`: zeros are put in front until the string has length two. */
  function PadStart2(s: string): (r: string)
    ensures |r| == if |s| < 2 then 2 else |s|
    ensures r == Zeros(|r| - |s|) + s
    decreases 2 - |s|
  {
    if |s| >= 2 then s else PadStart2("0" + s)
  }

  /** The number that the timer shows is never negative. */
  function Clamp(t: int): nat
  {
    if t < 0 then 0 else t
  }

  /** The display text for `timeRemaining == t` seconds. */
  function Display(t: int): (d: string)
    ensures |d| >= 5 && d[|d| - 3] == ':'
  {
    Fields(Clamp(t) / 60, Clamp(t) % 60)
  }

  /** Minutes and seconds, each padded to two digits, around a colon. */
  function Fields(minutes: nat, seconds: nat): (d: string)
    requires seconds < 60
    ensures |d| >= 5 && d[|d| - 3] == ':'
  {
    var mm, ss := PadStart2(Decimal(minutes)), PadStart2(Decimal(seconds));
    assert |ss| == 2;
    mm + ":" + ss
  }

  /** The page title that `updateDisplay` writes beside the display text. */
  function Title(display: string): (title: string)
    ensures |title| == |display| + |TITLE_SUFFIX|
    ensures title[..|display|] == display && title[|display|..] == TITLE_SUFFIX
  {
    display + TITLE_SUFFIX
  }

  /** A rendered time never titles the page as the completion screen does. */
  lemma TitleNeverDone(t: int)
    ensures Title(Display(t)) != DONE_TITLE
  {
    var d := Display(t);
    if |d| == 5 {
      assert Title(d)[2] == ':' != DONE_TITLE[2];
    }
  }

  /** Zeros in front of a digit string do not change its value. */
  lemma {:induction false} LeadingZeros(k: nat, s: string)
    requires IsDigits(s)
    ensures IsDigits(Zeros(k) + s) && DigitsValue(Zeros(k) + s) == DigitsValue(s)
    decreases |s|
  {
    if s == [] {
      assert Zeros(k) + s == Zeros(k);
      ZerosValue(k);
    } else {
      var init := s[..|s| - 1];
      assert (Zeros(k) + s)[..|Zeros(k) + s| - 1] == Zeros(k) + init;
      LeadingZeros(k, init);
      ZerosDigits(k);
      assert IsDigits(Zeros(k) + s) by {
        forall i | 0 <= i < |Zeros(k) + s| ensures IsDigit((Zeros(k) + s)[i]) {
          if i >= k { assert (Zeros(k) + s)[i] == s[i - k]; }
        }
      }
    }
  }

  lemma {:induction false} ZerosDigits(k: nat)
    ensures IsDigits(Zeros(k))
    ensures forall i :: 0 <= i < k ==> Zeros(k)[i] == '0'
  {
    if k > 0 {
      ZerosDigits(k - 1);
      assert forall i :: 1 <= i < k ==> Zeros(k)[i] == Zeros(k - 1)[i - 1];
    }
  }

  lemma {:induction false} ZerosValue(k: nat)
    ensures IsDigits(Zeros(k)) && DigitsValue(Zeros(k)) == 0
  {
    ZerosDigits(k);
    if k > 0 {
      var z := Zeros(k);
      assert z[..k - 1] == Zeros(k - 1) by {
        ZerosDigits(k - 1);
      }
      ZerosValue(k - 1);
    }
  }

  /** Padding keeps a digit string's value. */
  lemma PadStart2Value(s: string)
    requires IsDigits(s)
    ensures IsDigits(PadStart2(s)) && DigitsValue(PadStart2(s)) == DigitsValue(s)
  {
    var r := PadStart2(s);
    LeadingZeros(|r| - |s|, s);
  }

  /** The seconds field: exactly two digits, denoting `n`, the first of them at most 5. */
  lemma SecondsField(n: nat)
    requires n < 60
    ensures var ss := PadStart2(Decimal(n));
      |ss| == 2 && IsDigits(ss) && DigitsValue(ss) == n && '0' <= ss[0] <= '5'
  {
    var ss := PadStart2(Decimal(n));
    PadStart2Value(Decimal(n));
    DecimalValue(n);
    assert ss[..1][..0] == [];
    assert DigitsValue(ss) == 10 * DigitValue(ss[0]) + DigitValue(ss[1]);
  }

  /** The minutes field: at least two digits, denoting `n` in full. */
  lemma MinutesField(n: nat)
    ensures var mm := PadStart2(Decimal(n));
      |mm| >= 2 && IsDigits(mm) && DigitsValue(mm) == n
  {
    PadStart2Value(Decimal(n));
    DecimalValue(n);
  }

  /** The text before the colon of a rendering. */
  function MinutesText(d: string): string
    requires |d| >= 3
  {
    d[..|d| - 3]
  }

  /** The text after the colon of a rendering. */
  function SecondsText(d: string): string
    requires |d| >= 2
  {
    d[|d| - 2..]
  }

  /**
   * The display reads back as the clamped number of seconds: everything before the
   * colon is the whole number of minutes (at least two digits, never truncated) and
   * the two characters after it are the seconds, 00 to 59.
   */
  lemma DisplayDecodes(t: int)
    ensures var minutes, seconds := MinutesText(Display(t)), SecondsText(Display(t));
      && |minutes| >= 2 && IsDigits(minutes) && DigitsValue(minutes) == Clamp(t) / 60
      && |seconds| == 2 && IsDigits(seconds) && DigitsValue(seconds) == Clamp(t) % 60
      && '0' <= seconds[0] <= '5'
  {
    FieldsDecode(Clamp(t) / 60, Clamp(t) % 60);
  }

  lemma FieldsDecode(m: nat, k: nat)
    requires k < 60
    ensures var minutes, seconds := MinutesText(Fields(m, k)), SecondsText(Fields(m, k));
      && |minutes| >= 2 && IsDigits(minutes) && DigitsValue(minutes) == m
      && |seconds| == 2 && IsDigits(seconds) && DigitsValue(seconds) == k
      && '0' <= seconds[0] <= '5'
  {
    var mm, ss := PadStart2(Decimal(m)), PadStart2(Decimal(k));
    MinutesField(m);
    SecondsField(k);
    Split(mm, ss);
    assert Fields(m, k) == mm + ":" + ss;
  }

  /** Cutting `minutes ":" seconds` three characters from the end gives the two fields back. */
  lemma Split(minutes: string, seconds: string)
    requires |seconds| == 2
    ensures var d := minutes + ":" + seconds;
      MinutesText(d) == minutes && SecondsText(d) == seconds
  {
  }

  /** Two times show the same text exactly when their clamped values agree. */
  lemma DisplayInjective(a: int, b: int)
    ensures Display(a) == Display(b) <==> Clamp(a) == Clamp(b)
  {
    if Display(a) == Display(b) {
      DisplayDecodes(a);
      DisplayDecodes(b);
      var x, y := Clamp(a), Clamp(b);
      assert x / 60 == y / 60 && x % 60 == y % 60;
      assert x == 60 * (x / 60) + x % 60;
      assert y == 60 * (y / 60) + y % 60;
    }
  }

  /** 125 seconds show as two minutes and five seconds. */
  lemma DisplayOf125()
    ensures Display(125) == "02:05"
  {
    assert Clamp(125) / 60 == 2 && Clamp(125) % 60 == 5;
    assert PadStart2(Decimal(2)) == "02" by { assert Decimal(2) == "2"; }
    assert PadStart2(Decimal(5)) == "05" by { assert Decimal(5) == "5"; }
  }

  /** Zero and negative times show as all zeros. */
  lemma DisplayOfNonPositive(t: int)
    requires t <= 0
    ensures Display(t) == "00:00"
  {
    assert Display(t) == PadStart2(Decimal(0)) + ":" + PadStart2(Decimal(0));
  }

  /**
   * The default session, 25 minutes. The time is a parameter, not a literal, so that the
   * constructor can use it without unfolding `Display` on a constant.
   */
  lemma DisplayOf1500(t: int)
    requires t == 1500
    ensures Display(t) == "25:00"
  {
    assert Clamp(t) / 60 == 25 && Clamp(t) % 60 == 0;
    assert PadStart2(Decimal(25)) == "25" by { assert Decimal(25) == "25" by { assert Decimal(2) == "2"; } }
    assert PadStart2(Decimal(0)) == "00" by { assert Decimal(0) == "0"; }
  }

  /** Ten minutes. */
  lemma DisplayOf600()
    ensures Display(600) == "10:00"
  {
    assert Clamp(600) / 60 == 10 && Clamp(600) % 60 == 0;
    assert PadStart2(Decimal(10)) == "10" by { assert Decimal(10) == "10" by { assert Decimal(1) == "1"; } }
    assert PadStart2(Decimal(0)) == "00" by { assert Decimal(0) == "0"; }
  }

  /** A hundred minutes keep all three minute digits. */
  lemma DisplayOf6000()
    ensures Display(6000) == "100:00"
  {
    assert Clamp(6000) / 60 == 100 && Clamp(6000) % 60 == 0;
    assert PadStart2(Decimal(100)) == "100" by {
      assert Decimal(100) == "100" by { assert Decimal(10) == "10" by { assert Decimal(1) == "1"; } }
    }
    assert PadStart2(Decimal(0)) == "00" by { assert Decimal(0) == "0"; }
  }
}
