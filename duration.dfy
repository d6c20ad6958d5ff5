/**
 * The Gson adapter for `java.time.Duration`: a duration travels in JSON as
 * a string "hh:mm" of whole hours and the remaining minutes. Durations are
 * whole minutes here, so the seconds the writer drops are never present.
 */
module DurationJson {
  import opened Wrappers
  import opened JavaText

  /** The JSON value the writer emits: `null`, or a string. */
  datatype Json = JsonNull | JsonString(text: string)

  /** The exceptions `read` can throw: the `IOException` for a value that is
      not two `:`-separated parts, and the `NumberFormatException` of
      `Integer.parseInt`. */
  datatype ReadError = NotHoursMinutes | NumberFormat

  /** Java's `/` on integers: the quotient truncated toward zero. */
  function JavaDiv(a: int, b: int): (q: int)
    requires b > 0
    ensures a >= 0 ==> q == a / b
    ensures q * b <= a < q * b + b || q * b - b < a <= q * b
    ensures (q >= 0) == (a > -b)
  {
    if a >= 0 then a / b else -((-a) / b)
  }

  /** Java's `%` on integers: the remainder takes the sign of the dividend. */
  function JavaRem(a: int, b: int): (r: int)
    requires b > 0
    ensures JavaDiv(a, b) * b + r == a
    ensures -b < r < b
    ensures a >= 0 ==> r == a % b && r >= 0
  {
    a - JavaDiv(a, b) * b
  }

  /** `String.format("%02d", n)`: the decimal text of `n`, with a leading zero
      when that text is a single digit. */
  function Pad2(n: int): (r: string)
    ensures ParseInt(r) == if IsInt32(n) then Some(n) else None
    ensures n >= 0 ==> |r| >= 2 && AllDigits(r) && DigitsValue(r) == n
    ensures 0 <= n < 100 ==> |r| == 2
    ensures |r| > 0 && forall i :: 0 <= i < |r| ==> r[i] == '-' || IsDigit(r[i])
  {
    ParseIntToString(n);
    if 0 <= n < 10 then
      assert DigitsValue(['0', DigitChar(n)]) == n by {
        assert ['0', DigitChar(n)][..1] == ['0'];
        assert DigitValue(DigitChar(n)) == n;
      }
      ['0', DigitChar(n)]
    else
      DigitsValueOfNat(if n >= 0 then n else 0);
      TwoDigits(if 10 <= n < 100 then n else 10);
      IntToString(n)
  }

  lemma TwoDigits(n: nat)
    requires 10 <= n < 100
    ensures |NatToString(n)| == 2
  {
    assert NatToString(n) == NatToString(n / 10) + [DigitChar(n % 10)];
  }

  /** `write` for a duration of `d` minutes, or for `null`. `toHours()` and
      `toMinutesPart()` truncate toward zero, so a negative duration gives a
      negative hour count and a negative minute part. */
  function Write(d: Option<int>): (r: Json)
    ensures d.None? <==> r.JsonNull?
    ensures d.Some? && d.value >= 0 ==>
      && r.JsonString?
      && Split(r.text, ':') == [Pad2(d.value / 60), Pad2(d.value % 60)]
      && |Pad2(d.value % 60)| == 2
  {
    match d
    case None => JsonNull
    case Some(m) =>
      var text := Pad2(JavaDiv(m, 60)) + ":" + Pad2(JavaRem(m, 60));
      HoursMinutesSplit(Pad2(JavaDiv(m, 60)), Pad2(JavaRem(m, 60)));
      JsonString(text)
  }

  /** `read` of the string `in.nextString()` returned, in minutes. */
  function Read(s: string): (r: Result<int, ReadError>)
    ensures r.Err? && r.error == NotHoursMinutes <==> |Split(s, ':')| != 2
    ensures var parts := Split(s, ':');
      r.Ok? <==> |parts| == 2 && ParseInt(parts[0]).Some? && ParseInt(parts[1]).Some?
    ensures var parts := Split(s, ':');
      r.Err? && r.error == NumberFormat <==>
        |parts| == 2 && (ParseInt(parts[0]).None? || ParseInt(parts[1]).None?)
    ensures r.Ok? ==>
      var parts := Split(s, ':');
      r.value == ParseInt(parts[0]).value * 60 + ParseInt(parts[1]).value
  {
    var parts := Split(s, ':');
    if |parts| != 2 then Err(NotHoursMinutes)
    else
      match (ParseInt(parts[0]), ParseInt(parts[1]))
      case (Some(h), Some(m)) => Ok(h * 60 + m)
      case _ => Err(NumberFormat)
  }

  /** A digit or minus-sign text holds no `:`, so "h:m" splits into h and m. */
  lemma HoursMinutesSplit(h: string, m: string)
    requires forall i :: 0 <= i < |h| ==> h[i] == '-' || IsDigit(h[i])
    requires forall i :: 0 <= i < |m| ==> m[i] == '-' || IsDigit(m[i])
    requires |m| > 0
    ensures Split(h + ":" + m, ':') == [h, m]
  {
    assert forall i :: 0 <= i < |h| ==> h[i] != ':';
    assert forall i :: 0 <= i < |m| ==> m[i] != ':';
    assert Join([h, m], ':') == h + ":" + m;
    SplitJoin([h, m], ':');
  }

  /** Every duration whose hour count a Java `int` holds reads back as the
      minutes it was written from; negative durations included, since both
      parts then carry the sign. */
  lemma {:induction false} ReadWrite(d: int)
    requires IsInt32(JavaDiv(d, 60))
    ensures Write(Some(d)).JsonString?
    ensures Read(Write(Some(d)).text) == Ok(d)
  {
    var h, m := JavaDiv(d, 60), JavaRem(d, 60);
    var t := Pad2(h) + ":" + Pad2(m);
    assert Write(Some(d)) == JsonString(t);
    HoursMinutesSplit(Pad2(h), Pad2(m));
    assert IsInt32(m);
    assert ParseInt(Pad2(h)) == Some(h) && ParseInt(Pad2(m)) == Some(m);
    assert h * 60 + m == d;
  }

  /** An hour count past `Integer.MAX_VALUE` is written but cannot be read. */
  lemma HugeDurationUnreadable()
    ensures Read(Write(Some((IntMax + 1) * 60)).text) == Err(NumberFormat)
  {
    var d := (IntMax + 1) * 60;
    assert JavaDiv(d, 60) == IntMax + 1;
    HoursMinutesSplit(Pad2(IntMax + 1), Pad2(0));
  }

  /** `null` is written for an absent duration. */
  lemma WriteNull()
    ensures Write(None) == JsonNull
  {
  }

  /** Less than an hour: zero hours, both parts padded to two digits. */
  lemma WriteMinutesOnly()
    ensures Write(Some(5)) == JsonString("00:05")
  {
    assert Write(Some(5)) == JsonString(Pad2(JavaDiv(5, 60)) + ":" + Pad2(JavaRem(5, 60)));
    assert JavaDiv(5, 60) == 0 && JavaRem(5, 60) == 5;
    assert Pad2(0) == "00" && Pad2(5) == "05";
  }

  lemma WriteHoursAndMinutes()
    ensures Write(Some(90)) == JsonString("01:30")
  {
    assert Write(Some(90)) == JsonString(Pad2(JavaDiv(90, 60)) + ":" + Pad2(JavaRem(90, 60)));
    assert JavaDiv(90, 60) == 1 && JavaRem(90, 60) == 30;
    assert NatToString(30) == "30";
    assert Pad2(1) == "01" && Pad2(30) == "30";
  }

  /** A hundred hours or more take as many digits as they need. */
  lemma WriteWide()
    ensures Write(Some(6000)) == JsonString("100:00")
  {
    assert Write(Some(6000)) == JsonString(Pad2(JavaDiv(6000, 60)) + ":" + Pad2(JavaRem(6000, 60)));
    assert JavaDiv(6000, 60) == 100 && JavaRem(6000, 60) == 0;
    assert NatToString(10) == "10";
    assert NatToString(100) == "100";
    assert Pad2(100) == "100" && Pad2(0) == "00";
  }

  /** A negative duration carries its sign in both parts. */
  lemma WriteNegative()
    ensures Write(Some(-90)) == JsonString("-1:-30")
  {
    assert Write(Some(-90)) == JsonString(Pad2(JavaDiv(-90, 60)) + ":" + Pad2(JavaRem(-90, 60)));
    assert JavaDiv(-90, 60) == -1 && JavaRem(-90, 60) == -30;
    assert NatToString(30) == "30";
    assert Pad2(-1) == "-1" && Pad2(-30) == "-30";
  }

  /** A value without `:` is one part, and is refused. */
  lemma ReadRejectsOnePart()
    ensures Read("12") == Err(NotHoursMinutes)
  {
    assert ':' !in "12";
    assert Split("12", ':') == ["12"];
  }

  lemma ReadRejectsThreeParts()
    ensures Read("1:2:3") == Err(NotHoursMinutes)
  {
    PiecesOfFree("3", ':');
    assert "1:2:3" == "1" + ":" + "2:3" && "2:3" == "2" + ":" + "3";
    PiecesAfterField("2", ':', "3");
    PiecesAfterField("1", ':', "2:3");
    assert ':' in "1:2:3" by { assert "1:2:3"[1] == ':'; }
    assert Split("1:2:3", ':') == ["1", "2", "3"];
  }

  /** "12:" is one part too: `split` drops the empty part after the colon. */
  lemma ReadRejectsTrailingColon()
    ensures Read("12:") == Err(NotHoursMinutes)
  {
    assert "12:" == "12" + ":" + "";
    PiecesAfterField("12", ':', "");
    assert ':' in "12:" by { assert "12:"[2] == ':'; }
    assert Split("12:", ':') == ["12"];
  }

  /** Two parts that are not both integers fail in `Integer.parseInt`. */
  lemma ReadRejectsEmptyHours()
    ensures Read(":30") == Err(NumberFormat)
  {
    assert ":30" == "" + ":" + "30";
    HoursMinutesSplit("", "30");
  }

  lemma ReadRejectsNonDigit()
    ensures Read("1h:30") == Err(NumberFormat)
  {
    assert "1h:30" == "1h" + ":" + "30";
    PiecesOfFree("30", ':');
    PiecesAfterField("1h", ':', "30");
    assert ':' in "1h:30" by { assert "1h:30"[2] == ':'; }
    assert Split("1h:30", ':') == ["1h", "30"];
    assert !AllDigits("1h") by { assert !IsDigit("1h"[1]); }
  }

  lemma ReadExample()
    ensures Read("02:15") == Ok(135)
  {
    HoursMinutesSplit("02", "15");
    assert "02" + ":" + "15" == "02:15";
    assert ParseInt("02") == Some(2) by {
      assert AllDigits("02");
      assert DigitsValue("02") == 2 by { assert "02"[..1] == "0"; }
    }
    assert ParseInt("15") == Some(15) by {
      assert AllDigits("15");
      assert DigitsValue("15") == 15 by { assert "15"[..1] == "1"; }
    }
  }
}
