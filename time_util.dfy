/** Millisecond formatting (util/TimeUtil.java): integer decomposition and zero-padded decimal text. */
module TimeUtil {
  import opened Wrappers

  const HourMillis: nat := 3600000
  const MinuteMillis: nat := 60000
  const SecondMillis: nat := 1000

  predicate IsDigit(c: char)
  {
    '0' <= c <= '9'
  }

  predicate AllDigits(s: string)
  {
    forall i | 0 <= i < |s| :: IsDigit(s[i])
  }

  function Digit(d: nat): (c: char)
    requires d < 10
    ensures IsDigit(c) && c as int - '0' as int == d
  {
    ('0' as int + d) as char
  }

  /** Decimal text of a non-negative number, as Java's "%d" and StringBuilder.append(long)
      write it: digits only, no sign, no leading zero. */
  function NatToString(n: nat): (s: string)
    ensures |s| >= 1 && AllDigits(s)
    decreases n
  {
    if n < 10 then [Digit(n)] else NatToString(n / 10) + [Digit(n % 10)]
  }

  /** The number a string of decimal digits denotes. */
  function DigitsValue(s: string): nat
    requires AllDigits(s)
    decreases |s|
  {
    if s == [] then 0 else DigitsValue(s[..|s| - 1]) * 10 + (s[|s| - 1] as int - '0' as int)
  }

  /** Reading the decimal text back gives the number: NatToString is injective. */
  lemma {:induction false} NatToStringValue(n: nat)
    ensures DigitsValue(NatToString(n)) == n
    decreases n
  {
    if n >= 10 {
      NatToStringValue(n / 10);
      var s := NatToString(n);
      assert s[..|s| - 1] == NatToString(n / 10);
    }
  }

  /** The decimal text of a positive number does not start with '0'. */
  lemma {:induction false} NatToStringNoLeadingZero(n: nat)
    ensures n > 0 ==> NatToString(n)[0] != '0'
    decreases n
  {
    if n >= 10 {
      NatToStringNoLeadingZero(n / 10);
    }
  }

  /** Numbers below 100 take at most two digits, numbers below 1000 at most three. */
  lemma NatToStringShort(n: nat)
    ensures n < 10 ==> |NatToString(n)| == 1
    ensures n < 100 ==> |NatToString(n)| <= 2
    ensures n < 1000 ==> |NatToString(n)| <= 3
  {
    if n >= 10 {
      assert |NatToString(n)| == |NatToString(n / 10)| + 1;
      if n >= 100 {
        assert |NatToString(n / 10)| == |NatToString(n / 100)| + 1;
      }
    }
  }

  function Zeros(k: nat): (z: string)
    ensures |z| == k && AllDigits(z)
  {
    seq(k, _ => '0')
  }

  /** Left padding with '0' up to a minimum width, as the "%0Nd" conversions do. */
  function ZeroPad(s: string, width: nat): (r: string)
    ensures |r| == if |s| >= width then |s| else width
  {
    if |s| >= width then s else Zeros(width - |s|) + s
  }

  lemma {:induction false} ZerosValue(k: nat)
    ensures DigitsValue(Zeros(k)) == 0
    decreases k
  {
    if k > 0 {
      assert Zeros(k)[..k - 1] == Zeros(k - 1);
      ZerosValue(k - 1);
    }
  }

  /** Leading zeros do not change the value of a digit string. */
  lemma {:induction false} LeadingZerosValue(k: nat, s: string)
    requires AllDigits(s)
    ensures AllDigits(Zeros(k) + s) && DigitsValue(Zeros(k) + s) == DigitsValue(s)
    decreases |s|
  {
    var t := Zeros(k) + s;
    assert AllDigits(t) by {
      forall i | 0 <= i < |t| ensures IsDigit(t[i]) {
        if i < k { assert t[i] == Zeros(k)[i]; } else { assert t[i] == s[i - k]; }
      }
    }
    if s == [] {
      assert t == Zeros(k);
      ZerosValue(k);
    } else {
      assert t[..|t| - 1] == Zeros(k) + s[..|s| - 1];
      LeadingZerosValue(k, s[..|s| - 1]);
    }
  }

  /** String.format("%0<width>d", n) for n >= 0. */
  function Pad(n: nat, width: nat): (r: string)
    ensures AllDigits(r) && DigitsValue(r) == n
    ensures |r| == if |NatToString(n)| >= width then |NatToString(n)| else width
  {
    var s := NatToString(n);
    NatToStringValue(n);
    if |s| >= width then ZeroPad(s, width)
    else LeadingZerosValue(width - |s|, s); ZeroPad(s, width)
  }

  /** The fields formatTime and formatTimeReadable compute by integer division and remainder. */
  datatype Breakdown = Breakdown(hours: nat, minutes: nat, seconds: nat, millis: nat)

  function Decompose(millis: nat): (b: Breakdown)
    ensures b.hours * HourMillis + b.minutes * MinuteMillis + b.seconds * SecondMillis + b.millis == millis
    ensures b.minutes < 60 && b.seconds < 60 && b.millis < 1000
  {
    var b := Breakdown(millis / 3600000, (millis % 3600000) / 60000, (millis % 60000) / 1000, millis % 1000);
    DecomposeSound(millis);
    b
  }

  lemma DecomposeSound(millis: nat)
    ensures (millis / 3600000) * 3600000 + ((millis % 3600000) / 60000) * 60000
            + ((millis % 60000) / 1000) * 1000 + millis % 1000 == millis
    ensures (millis % 3600000) / 60000 < 60 && (millis % 60000) / 1000 < 60
  {
    var h, r1 := millis / 3600000, millis % 3600000;
    var m, r2 := r1 / 60000, r1 % 60000;
    assert millis == h * 3600000 + r1;
    assert r1 == m * 60000 + r2;
    assert millis == (h * 60 + m) * 60000 + r2;
    assert millis % 60000 == r2;
    var s, r3 := r2 / 1000, r2 % 1000;
    assert r2 == s * 1000 + r3;
    assert millis == ((h * 60 + m) * 60 + s) * 1000 + r3;
    assert millis % 1000 == r3;
  }

  /** formatTime: "HH:mm:ss.SSS", or "--:--:--.---" for a negative value. */
  function FormatTime(millis: int): string
  {
    if millis < 0 then "--:--:--.---"
    else
      var b := Decompose(millis);
      Pad(b.hours, 2) + ":" + Pad(b.minutes, 2) + ":" + Pad(b.seconds, 2) + "." + Pad(b.millis, 3)
  }

  /** Reads a "HH:mm:ss.SSS" text back into milliseconds; the hours field may be any width of at least two. */
  function ParseTime(s: string): Option<nat>
  {
    var n := |s|;
    if n >= 12 && s[n - 10] == ':' && s[n - 7] == ':' && s[n - 4] == '.'
       && AllDigits(s[..n - 10]) && AllDigits(s[n - 9..n - 7]) && AllDigits(s[n - 6..n - 4]) && AllDigits(s[n - 3..])
    then Some(DigitsValue(s[..n - 10]) * HourMillis + DigitsValue(s[n - 9..n - 7]) * MinuteMillis
              + DigitsValue(s[n - 6..n - 4]) * SecondMillis + DigitsValue(s[n - 3..]))
    else None
  }

  /** A negative time is shown as the placeholder, which is not a time. */
  lemma FormatTimeNegative(millis: int)
    requires millis < 0
    ensures FormatTime(millis) == "--:--:--.---" && ParseTime(FormatTime(millis)).None?
  {
    var s := FormatTime(millis);
    assert s[..|s| - 10] == "--";
    assert !IsDigit(s[0]);
  }

  /** Where the fields of an "H:mm:ss.SSS" text sit, counted from its end. */
  lemma LongLayout(h: string, m: string, sec: string, x: string)
    requires |m| == 2 && |sec| == 2 && |x| == 3
    ensures var t := h + ":" + m + ":" + sec + "." + x;
      var n := |t|;
      && n == |h| + 10
      && t[n - 10] == ':' && t[n - 7] == ':' && t[n - 4] == '.'
      && t[..n - 10] == h && t[n - 9..n - 7] == m && t[n - 6..n - 4] == sec && t[n - 3..] == x
  {
    var t := h + ":" + m + ":" + sec + "." + x;
    var n := |t|;
    assert t == h + (":" + m + ":" + sec + "." + x);
    var u := ":" + m + ":" + sec + "." + x;
    assert t[|h|..] == u;
    assert u[1..3] == m && u[4..6] == sec && u[7..] == x;
  }

  /** formatTime zero-pads minutes and seconds to two digits and milliseconds to three,
      and the hours field to at least two; the text reads back as the same time. */
  lemma FormatTimeRoundTrip(millis: nat)
    ensures var s := FormatTime(millis);
      && |s| >= 12 && s[|s| - 10] == ':' && s[|s| - 7] == ':' && s[|s| - 4] == '.'
      && ParseTime(s) == Some(millis)
  {
    var b := Decompose(millis);
    var hh, mm, ss, xs := Pad(b.hours, 2), Pad(b.minutes, 2), Pad(b.seconds, 2), Pad(b.millis, 3);
    NatToStringShort(b.minutes);
    NatToStringShort(b.seconds);
    NatToStringShort(b.millis);
    LongLayout(hh, mm, ss, xs);
    var s := hh + ":" + mm + ":" + ss + "." + xs;
    assert FormatTime(millis) == s;
  }

  /** Different non-negative times never format alike. */
  lemma FormatTimeInjective(a: nat, b: nat)
    requires FormatTime(a) == FormatTime(b)
    ensures a == b
  {
    FormatTimeRoundTrip(a);
    FormatTimeRoundTrip(b);
  }

  /** formatTimeShort: "mm:ss" below one hour, "h:mm:ss" (hours unpadded) from one hour on,
      "--:--" for a negative value; the milliseconds are dropped. */
  function FormatTimeShort(millis: int): string
  {
    if millis < 0 then "--:--"
    else
      var totalSeconds := millis / 1000;
      var minutes := totalSeconds / 60;
      var seconds := totalSeconds % 60;
      if minutes >= 60 then NatToString(minutes / 60) + ":" + Pad(minutes % 60, 2) + ":" + Pad(seconds, 2)
      else Pad(minutes, 2) + ":" + Pad(seconds, 2)
  }

  /** Reads a "mm:ss" or "h:mm:ss" text back into whole seconds. */
  function ParseShort(s: string): Option<nat>
  {
    var n := |s|;
    if n >= 5 && s[n - 3] == ':' && AllDigits(s[n - 2..]) then
      if n == 5 && AllDigits(s[..2]) then Some(DigitsValue(s[..2]) * 60 + DigitsValue(s[3..]))
      else if n >= 7 && s[n - 6] == ':' && AllDigits(s[..n - 6]) && AllDigits(s[n - 5..n - 3]) then
        Some(DigitsValue(s[..n - 6]) * 3600 + DigitsValue(s[n - 5..n - 3]) * 60 + DigitsValue(s[n - 2..]))
      else None
    else None
  }

  lemma ShortLayout(m: string, sec: string)
    requires |m| == 2 && |sec| == 2
    ensures var t := m + ":" + sec; |t| == 5 && t[2] == ':' && t[..2] == m && t[3..] == sec
  {
  }

  lemma HourLayout(h: string, m: string, sec: string)
    requires |h| >= 1 && |m| == 2 && |sec| == 2
    ensures var t := h + ":" + m + ":" + sec;
      var n := |t|;
      && n == |h| + 6 && t[0] == h[0]
      && t[n - 6] == ':' && t[n - 3] == ':'
      && t[..n - 6] == h && t[n - 5..n - 3] == m && t[n - 2..] == sec
  {
    var t := h + ":" + m + ":" + sec;
    var u := ":" + m + ":" + sec;
    assert t == h + u;
    assert t[|h|..] == u;
    assert u[1..3] == m && u[4..] == sec;
  }

  lemma ShortArith(millis: nat)
    ensures var total := millis / 1000; var minutes := total / 60;
      && (minutes >= 60 <==> millis >= HourMillis)
      && minutes * 60 + total % 60 == total
      && (minutes / 60) * 3600 + (minutes % 60) * 60 + total % 60 == total
  {
    var total := millis / 1000;
    var minutes := total / 60;
    assert total == minutes * 60 + total % 60;
    assert minutes == (minutes / 60) * 60 + minutes % 60;
    assert millis == total * 1000 + millis % 1000;
    if minutes >= 60 {
      assert total >= 3600;
    } else {
      assert total < 3600;
    }
  }

  lemma ShortFromHour(millis: nat)
    requires millis >= HourMillis
    ensures var s := FormatTimeShort(millis);
      && ParseShort(s) == Some(millis / 1000)
      && |s| >= 7 && s[|s| - 3] == ':' && s[|s| - 6] == ':' && s[0] != '0'
  {
    var total := millis / 1000;
    var minutes, seconds := total / 60, total % 60;
    ShortArith(millis);
    var h, m := minutes / 60, minutes % 60;
    LongForm(h, m, seconds);
    assert FormatTimeShort(millis) == NatToString(h) + ":" + Pad(m, 2) + ":" + Pad(seconds, 2);
    assert h * 3600 + m * 60 + seconds == total;
  }

  /** "<h>:<mm>:<ss>" for h >= 1 reads back as h hours, m minutes and s seconds. */
  lemma LongForm(h: nat, m: nat, sec: nat)
    requires h >= 1 && m < 60 && sec < 60
    ensures var t := NatToString(h) + ":" + Pad(m, 2) + ":" + Pad(sec, 2);
      && ParseShort(t) == Some(h * 3600 + m * 60 + sec)
      && |t| >= 7 && t[|t| - 3] == ':' && t[|t| - 6] == ':' && t[0] != '0'
  {
    var hs, ms, ss := NatToString(h), Pad(m, 2), Pad(sec, 2);
    NatToStringShort(sec);
    NatToStringShort(m);
    NatToStringValue(h);
    NatToStringNoLeadingZero(h);
    ParseHourLayout(hs, ms, ss);
  }

  /** The long layout parses back to its three fields. */
  lemma ParseHourLayout(h: string, m: string, sec: string)
    requires |h| >= 1 && |m| == 2 && |sec| == 2 && AllDigits(h) && AllDigits(m) && AllDigits(sec)
    ensures var t := h + ":" + m + ":" + sec;
      && ParseShort(t) == Some(DigitsValue(h) * 3600 + DigitsValue(m) * 60 + DigitsValue(sec))
      && |t| >= 7 && t[|t| - 3] == ':' && t[|t| - 6] == ':' && t[0] == h[0]
  {
    HourLayout(h, m, sec);
    ParseLong(h + ":" + m + ":" + sec, h, m, sec);
  }

  /** A text whose fields, cut at the two colons, are h, m and sec parses to their value. */
  lemma ParseLong(t: string, h: string, m: string, sec: string)
    requires |h| >= 1 && |m| == 2 && |sec| == 2 && AllDigits(h) && AllDigits(m) && AllDigits(sec)
    requires |t| == |h| + 6 && t[|t| - 6] == ':' && t[|t| - 3] == ':'
    requires t[..|t| - 6] == h && t[|t| - 5..|t| - 3] == m && t[|t| - 2..] == sec
    ensures ParseShort(t) == Some(DigitsValue(h) * 3600 + DigitsValue(m) * 60 + DigitsValue(sec))
  {
  }

  lemma ShortBelowHour(millis: nat)
    requires millis < HourMillis
    ensures var s := FormatTimeShort(millis);
      && ParseShort(s) == Some(millis / 1000)
      && |s| == 5 && s[2] == ':'
  {
    var total := millis / 1000;
    var minutes, seconds := total / 60, total % 60;
    ShortArith(millis);
    var ms, ss := Pad(minutes, 2), Pad(seconds, 2);
    NatToStringShort(seconds);
    NatToStringShort(minutes);
    ShortLayout(ms, ss);
    var t := ms + ":" + ss;
    assert FormatTimeShort(millis) == t;
    assert ParseShort(t) == Some(DigitsValue(ms) * 60 + DigitsValue(ss));
  }

  /** The short form keeps exactly the whole seconds: it reads back as millis / 1000, and it
      has the "mm:ss" shape below one hour and the "h:mm:ss" shape (no leading zero) from one hour on. */
  lemma FormatTimeShortRoundTrip(millis: nat)
    ensures var s := FormatTimeShort(millis);
      && ParseShort(s) == Some(millis / 1000)
      && (millis < HourMillis ==> |s| == 5 && s[2] == ':')
      && (millis >= HourMillis ==> |s| >= 7 && s[|s| - 3] == ':' && s[|s| - 6] == ':' && s[0] != '0')
  {
    if millis >= HourMillis {
      ShortFromHour(millis);
    } else {
      ShortBelowHour(millis);
    }
  }

  /** Two times within the same second have the same short form. */
  lemma FormatTimeShortSameSecond(a: nat, b: nat)
    requires a / 1000 == b / 1000
    ensures FormatTimeShort(a) == FormatTimeShort(b)
  {
  }

  /** formatTimeReadable: "<h>時間<m>分<s>.<SSS>秒" with the hours part only when there are hours and
      the minutes part only when there are minutes or hours; "計測中..." for a negative value. */
  function FormatTimeReadable(millis: int): string
  {
    if millis < 0 then "計測中..."
    else
      var b := Decompose(millis);
      HoursPart(b) + MinutesPart(b) + SecondsPart(b)
  }

  /** "<h>時間" when there are whole hours, otherwise nothing. */
  function HoursPart(b: Breakdown): string
  {
    if b.hours > 0 then NatToString(b.hours) + "時間" else ""
  }

  /** "<m>分" when there are whole minutes or whole hours, otherwise nothing. */
  function MinutesPart(b: Breakdown): string
  {
    if b.minutes > 0 || b.hours > 0 then NatToString(b.minutes) + "分" else ""
  }

  /** "<s>.<SSS>秒", always present. */
  function SecondsPart(b: Breakdown): string
  {
    NatToString(b.seconds) + "." + Pad(b.millis, 3) + "秒"
  }

  lemma DigitsLackChar(s: string, c: char)
    requires AllDigits(s) && !IsDigit(c)
    ensures c !in s
  {
    forall i | 0 <= i < |s| ensures s[i] != c {
      assert IsDigit(s[i]);
    }
  }

  lemma ReadableTail(secs: string, xs: string)
    requires AllDigits(secs) && AllDigits(xs) && |xs| == 3
    ensures var t := secs + "." + xs + "秒";
      && '時' !in t && '分' !in t
      && |t| >= 5 && t[|t| - 1] == '秒' && t[|t| - 5] == '.' && t[|t| - 4..|t| - 1] == xs
  {
    var t := secs + "." + xs + "秒";
    DigitsLackChar(secs, '時');
    DigitsLackChar(secs, '分');
    DigitsLackChar(xs, '時');
    DigitsLackChar(xs, '分');
    assert t == secs + ("." + xs + "秒");
  }

  lemma MarkerPart(digits: string, marker: string, c: char, other: char)
    requires AllDigits(digits) && |marker| >= 1 && marker[0] == c && other !in marker && !IsDigit(other) && !IsDigit(c)
    ensures c in digits + marker && other !in digits + marker
  {
    DigitsLackChar(digits, other);
    assert (digits + marker)[|digits|] == c;
  }

  /** The hours part carries the hour marker exactly when there are hours, and never the
      minute marker. */
  lemma HoursMarkers(b: Breakdown)
    ensures ('時' in HoursPart(b) <==> b.hours > 0) && '分' !in HoursPart(b)
  {
    if b.hours > 0 { MarkerPart(NatToString(b.hours), "時間", '時', '分'); }
  }

  /** The minutes part carries the minute marker exactly when there are minutes or hours, and
      never the hour marker. */
  lemma MinutesMarkers(b: Breakdown)
    ensures ('分' in MinutesPart(b) <==> (b.minutes > 0 || b.hours > 0)) && '時' !in MinutesPart(b)
  {
    if b.minutes > 0 || b.hours > 0 { MarkerPart(NatToString(b.minutes), "分", '分', '時'); }
  }

  lemma ThreeParts(a: string, b: string, t: string, c: char)
    requires |t| >= 5
    ensures var s := a + b + t;
      && (c in s <==> c in a || c in b || c in t)
      && |s| >= |t| && s[|s| - 1] == t[|t| - 1] && s[|s| - 5] == t[|t| - 5]
      && s[|s| - 4..|s| - 1] == t[|t| - 4..|t| - 1]
  {
    var s := a + b + t;
    assert s == (a + b) + t;
    assert s[|a + b|..] == t;
  }

  /** Which parts formatTimeReadable writes: the hour marker appears exactly when hours > 0, the
      minute marker exactly when minutes > 0 or hours > 0, and the text always ends in three
      millisecond digits and the seconds marker. */
  lemma FormatTimeReadableParts(millis: nat)
    ensures var s := FormatTimeReadable(millis);
      var b := Decompose(millis);
      && ('時' in s <==> b.hours > 0)
      && ('分' in s <==> (b.minutes > 0 || b.hours > 0))
      && |s| >= 6 && s[|s| - 1] == '秒' && s[|s| - 5] == '.'
      && AllDigits(s[|s| - 4..|s| - 1]) && DigitsValue(s[|s| - 4..|s| - 1]) == millis % 1000
  {
    var b := Decompose(millis);
    var hp, mp, tail := HoursPart(b), MinutesPart(b), SecondsPart(b);
    NatToStringShort(b.millis);
    ReadableTail(NatToString(b.seconds), Pad(b.millis, 3));
    HoursMarkers(b);
    MinutesMarkers(b);
    assert FormatTimeReadable(millis) == hp + mp + tail;
    ThreeParts(hp, mp, tail, '時');
    ThreeParts(hp, mp, tail, '分');
  }
}
