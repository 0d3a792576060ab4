/**
 * The `MM:SS` display of the countdown: `formatTime` of src/Timer.js, built from
 * the two JavaScript string operations it uses, `Number.prototype.toString()` on a
 * non-negative integer and `String.prototype.padStart(2, '0')`.
 *
 * `ReadDecimal` and `ParseTime` are not in the program; they are the readings
 * against which the display is checked (every displayed field is a decimal numeral
 * of the right value, and every display reads back as the seconds it shows).
 */
module TimeFormat {

  datatype Option<T> = None | Some(value: T)

  predicate IsDigit(c: char) {
    '0' <= c <= '9'
  }

  function DigitChar(d: nat): (c: char)
    requires d < 10
    ensures IsDigit(c) && c as int - '0' as int == d
  {
    ('0' as int + d) as char
  }

  /** The number a string of decimal digits denotes (most significant first), or None if some character is not a digit. */
  function ReadDecimal(s: string): Option<nat> {
    if s == [] then Some(0)
    else
      match ReadDecimal(s[..|s| - 1])
      case None => None
      case Some(v) =>
        var c := s[|s| - 1];
        if IsDigit(c) then Some(v * 10 + (c as int - '0' as int)) else None
  }

  /** One more digit on the right of a numeral. */
  lemma ReadDecimalSnoc(s: string, d: nat)
    requires d < 10
    ensures ReadDecimal(s + [DigitChar(d)]) ==
      match ReadDecimal(s) case None => None case Some(v) => Some(v * 10 + d)
  {
    assert (s + [DigitChar(d)])[..|s|] == s;
  }

  /** A canonical numeral: at least one digit, and no leading zero unless it is "0". */
  predicate Canonical(s: string) {
    |s| >= 1 && ReadDecimal(s).Some? && (s[0] == '0' ==> |s| == 1)
  }

  /**
   * `n.toString()` for a non-negative integer: the canonical decimal numeral of `n`.
   * It has at most two digits exactly when `n < 100`.
   */
  function DecimalString(n: nat): (r: string)
    ensures Canonical(r) && ReadDecimal(r) == Some(n)
    ensures |r| <= 2 <==> n < 100
  {
    if n < 10 then
      assert [DigitChar(n)] == [] + [DigitChar(n)];
      ReadDecimalSnoc([], n);
      [DigitChar(n)]
    else
      var prefix := DecimalString(n / 10);
      ReadDecimalSnoc(prefix, n % 10);
      prefix + [DigitChar(n % 10)]
  }

  /** A leading '0' does not change the value of a numeral. */
  lemma {:induction false} LeadingZero(s: string)
    ensures ReadDecimal("0" + s) == ReadDecimal(s)
  {
    var z := "0" + s;
    if s == [] {
      assert z == [] + [DigitChar(0)];
      ReadDecimalSnoc([], 0);
    } else {
      var p := s[..|s| - 1];
      assert z[..|z| - 1] == "0" + p;
      LeadingZero(p);
    }
  }

  /** A canonical numeral of two or more digits denotes at least 10. */
  lemma {:induction false} CanonicalLongValue(s: string)
    requires Canonical(s) && |s| >= 2
    ensures ReadDecimal(s).value >= 10
  {
    var p := s[..|s| - 1];
    assert Canonical(p);
    if |p| >= 2 {
      CanonicalLongValue(p);
    } else {
      assert p == [] + [p[0]];
      assert p[..0] == [];
    }
  }

  /** DecimalString inverts ReadDecimal on canonical numerals. */
  lemma {:induction false} DecimalStringOfValue(s: string)
    requires Canonical(s)
    ensures DecimalString(ReadDecimal(s).value) == s
  {
    var p := s[..|s| - 1];
    var c := s[|s| - 1];
    var n := ReadDecimal(s).value;
    if |s| == 1 {
      assert p == [] && s == [c];
      assert ReadDecimal(p) == Some(0);
      assert IsDigit(c) && ReadDecimal(s) == Some(c as int - '0' as int);
      assert DigitChar(n) == c;
    } else {
      assert Canonical(p);
      CanonicalLongValue(s);
      var v := ReadDecimal(p).value;
      assert n == v * 10 + (c as int - '0' as int);
      assert n / 10 == v && n % 10 == c as int - '0' as int;
      DecimalStringOfValue(p);
      assert s == p + [c];
    }
  }

  /** k copies of the character c. */
  function Repeat(c: char, k: nat): (r: string)
    ensures |r| == k
    ensures forall i :: 0 <= i < k ==> r[i] == c
  {
    if k == 0 then [] else [c] + Repeat(c, k - 1)
  }

  /**
   * `s.padStart(width, fill)` for a one-character `fill`: `s` itself when it is already
   * `width` long, otherwise `s` behind enough copies of `fill` to make it `width` long.
   */
  function PadStart(s: string, width: nat, fill: char): (r: string)
    ensures |r| == if |s| >= width then |s| else width
    ensures r == Repeat(fill, |r| - |s|) + s
  {
    if |s| >= width then
      assert Repeat(fill, 0) + s == s;
      s
    else
      Repeat(fill, width - |s|) + s
  }

  /**
   * `n.toString().padStart(2, '0')`: the numeral of n, widened to two digits with leading
   * zeros; a numeral of three or more digits is left as it is, with no leading zero.
   */
  function Pad2(n: nat): (r: string)
    ensures |r| >= 2 && ReadDecimal(r) == Some(n)
    ensures |r| == 2 <==> n < 100
    ensures |r| > 2 ==> r[0] != '0'
  {
    var d := DecimalString(n);
    var r := PadStart(d, 2, '0');
    if |d| < 2 then
      assert Repeat('0', 1) == "0";
      LeadingZero(d);
      r
    else
      assert Repeat('0', 0) == [];
      r
  }

  /**
   * `formatTime(sec)`: the whole minutes, at least two digits and never truncated,
   * a colon, and the remaining seconds as exactly two digits. The display reads back
   * as `sec`, so both fields are decimal numerals, the seconds field is `sec % 60` and
   * the minutes field is `sec / 60`; it is five characters long exactly when the
   * minutes fit in two digits, and a wider minutes field carries no leading zero.
   */
  function FormatTime(sec: nat): (r: string)
    ensures |r| >= 5 && r[|r| - 3] == ':'
    ensures ParseTime(r) == Some(sec)
    ensures |r| == 5 <==> sec < 6000
    ensures sec >= 6000 ==> r[0] != '0'
  {
    var mm := Pad2(sec / 60);
    var ss := Pad2(sec % 60);
    ParseJoin(mm, ss, sec / 60, sec % 60);
    MinutesFieldWidth(sec);
    mm + ([':'] + ss)
  }

  lemma MinutesFieldWidth(sec: nat)
    ensures sec / 60 < 100 <==> sec < 6000
  {
  }

  /** Reads an `M…M:SS` display back as a number of seconds. */
  function ParseTime(t: string): Option<nat> {
    if |t| < 5 || t[|t| - 3] != ':' then None
    else
      match (ReadDecimal(t[..|t| - 3]), ReadDecimal([t[|t| - 2], t[|t| - 1]]))
      case (Some(m), Some(s)) => if s < 60 then Some(m * 60 + s) else None
      case _ => None
  }

  /** A minutes field of at least two digits and a two-digit seconds field below 60 read back as m * 60 + s. */
  lemma ParseJoin(mm: string, ss: string, m: nat, s: nat)
    requires |mm| >= 2 && ReadDecimal(mm) == Some(m)
    requires |ss| == 2 && ReadDecimal(ss) == Some(s) && s < 60
    ensures var t := mm + ([':'] + ss); |t| >= 5 && t[|t| - 3] == ':' && ParseTime(t) == Some(m * 60 + s)
  {
    var t := mm + ([':'] + ss);
    assert t[..|mm|] == mm;
    assert [t[|t| - 2], t[|t| - 1]] == [ss[0], ss[1]] == ss;
  }

  /** Distinct second counts never share a display. */
  lemma FormatTimeInjective(a: nat, b: nat)
    requires FormatTime(a) == FormatTime(b)
    ensures a == b
  {
  }

  /** The default 25-minute session shows "25:00". */
  lemma FormatTimeDefaultSession()
    ensures FormatTime(1500) == "25:00"
  {
    assert 1500 / 60 == 25 && 1500 % 60 == 0;
    TwoDigitField("25", 25);
    OneDigitField("0", 0);
    assert FormatTime(1500) == Pad2(25) + ([':'] + Pad2(0));
  }

  /** A full hour shows "60:00": the minutes field is not truncated. */
  lemma FormatTimeFullHour()
    ensures FormatTime(3600) == "60:00"
  {
    assert 3600 / 60 == 60 && 3600 % 60 == 0;
    TwoDigitField("60", 60);
    OneDigitField("0", 0);
    assert FormatTime(3600) == Pad2(60) + ([':'] + Pad2(0));
  }

  /** The last second of a countdown shows "00:01". */
  lemma FormatTimeLastSecond()
    ensures FormatTime(1) == "00:01"
  {
    assert 1 / 60 == 0 && 1 % 60 == 1;
    OneDigitField("1", 1);
    OneDigitField("0", 0);
    assert FormatTime(1) == Pad2(0) + ([':'] + Pad2(1));
  }

  lemma TwoDigitField(s: string, n: nat)
    requires |s| == 2 && Canonical(s) && ReadDecimal(s) == Some(n)
    ensures Pad2(n) == s
  {
    DecimalStringOfValue(s);
  }

  lemma OneDigitField(s: string, n: nat)
    requires |s| == 1 && Canonical(s) && ReadDecimal(s) == Some(n)
    ensures Pad2(n) == "0" + s
  {
    DecimalStringOfValue(s);
    assert Repeat('0', 1) == "0";
  }
}
