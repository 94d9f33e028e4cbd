/**
 * The `mm:ss` formatter of utils/format-time.ts: each number is written in
 * decimal, left-padded with '0' to two characters, and the two are joined
 * with ':'.
 */
module FormatTime {
  import opened Optional

  predicate IsDigit(c: char)
  {
    '0' <= c <= '9'
  }

  predicate AllDigits(s: string)
  {
    forall i :: 0 <= i < |s| ==> IsDigit(s[i])
  }

  function DigitChar(d: nat): (c: char)
    requires d < 10
    ensures IsDigit(c)
  {
    ('0' as int + d) as char
  }

  predicate NoColon(s: string)
  {
    forall i :: 0 <= i < |s| ==> s[i] != ':'
  }

  function DigitValue(c: char): nat
    requires IsDigit(c)
  {
    c as int - '0' as int
  }

  /** `n.toString()` for a natural number: its decimal digits, without leading zeros. */
  function NatToString(n: nat): (s: string)
    ensures |s| >= 1 && AllDigits(s)
    ensures |s| == 1 <==> n < 10
    ensures n >= 10 ==> s[0] != '0'
    decreases n
  {
    if n < 10 then [DigitChar(n)] else NatToString(n / 10) + [DigitChar(n % 10)]
  }

  /**
   * `n.toString()` for an integer: a '-' in front of a negative number's
   * digits. The digits after the sign read back as the number's magnitude.
   */
  function IntToString(n: int): (s: string)
    ensures |s| >= 1 && NoColon(s)
    ensures s[0] == '-' <==> n < 0
    ensures var digits := if n < 0 then s[1..] else s;
      AllDigits(digits) && DecimalValue(digits) == if n < 0 then -n else n
  {
    if n < 0 then
      DecimalOfString(-n);
      assert ("-" + NatToString(-n))[1..] == NatToString(-n);
      "-" + NatToString(-n)
    else
      DecimalOfString(n);
      NatToString(n)
  }

  /** `s.padStart(2, "0")`: zeros in front up to length 2; a longer string is kept whole. */
  function Pad2(s: string): (r: string)
    ensures |r| == if |s| >= 2 then |s| else 2
    ensures r[|r| - |s|..] == s
    ensures forall i :: 0 <= i < |r| - |s| ==> r[i] == '0'
  {
    if |s| >= 2 then s else if |s| == 1 then "0" + s else "00"
  }

  /**
   * formatTime(minutes, seconds): the first ':' of the result splits it into
   * the padded minutes and the padded seconds.
   */
  function Format(minutes: int, seconds: int): (r: string)
    ensures |r| >= 5
    ensures var i := IndexOf(r, ':');
      && i < |r|
      && r[..i] == Pad2(IntToString(minutes))
      && r[i + 1..] == Pad2(IntToString(seconds))
  {
    PadNoColon(IntToString(minutes));
    SplitJoined(Pad2(IntToString(minutes)), Pad2(IntToString(seconds)));
    Pad2(IntToString(minutes)) + ":" + Pad2(IntToString(seconds))
  }

  /** Joining a text with no ':' to another with ':' in between can be undone at the first ':'. */
  lemma SplitJoined(a: string, b: string)
    requires NoColon(a)
    ensures var r, i := a + ":" + b, IndexOf(a + ":" + b, ':');
      i == |a| < |r| && r[..i] == a && r[i + 1..] == b
  {
    IndexAfterPlain(a, b);
    assert (a + ":" + b)[..|a|] == a && (a + ":" + b)[|a| + 1..] == b;
  }

  /** Padding adds only '0's, so it brings in no ':'. */
  lemma PadNoColon(s: string)
    requires NoColon(s)
    ensures NoColon(Pad2(s))
  {
    var r := Pad2(s);
    forall i | 0 <= i < |r|
      ensures r[i] != ':'
    {
      if i >= |r| - |s| {
        assert r[i] == r[|r| - |s|..][i - (|r| - |s|)];
      }
    }
  }

  /** The value of a string of decimal digits; leading zeros add nothing. */
  function DecimalValue(s: string): nat
    requires AllDigits(s)
  {
    if s == [] then 0 else DecimalValue(s[..|s| - 1]) * 10 + DigitValue(s[|s| - 1])
  }

  /** The index of the first `c` in `s`, or |s| when there is none. */
  function IndexOf(s: string, c: char): (i: nat)
    ensures i <= |s|
    ensures i < |s| ==> s[i] == c
    ensures forall j :: 0 <= j < i ==> s[j] != c
  {
    if s == [] then 0 else if s[0] == c then 0 else 1 + IndexOf(s[1..], c)
  }

  /** Reads a formatted time back: split at the ':' and read both sides as decimal numbers. */
  function ParseTime(text: string): Option<(nat, nat)>
  {
    var i := IndexOf(text, ':');
    if i < |text| && AllDigits(text[..i]) && AllDigits(text[i + 1..]) then
      Some((DecimalValue(text[..i]), DecimalValue(text[i + 1..])))
    else
      None
  }

  /** A number below 100 has at most two digits. */
  lemma ShortNumber(n: nat)
    requires n <= 99
    ensures |NatToString(n)| <= 2
  {
    if n >= 10 {
      assert n / 10 < 10;
    }
  }

  lemma FormatOfNaturals(minutes: nat, seconds: nat)
    ensures Format(minutes, seconds) == Pad2(NatToString(minutes)) + ":" + Pad2(NatToString(seconds))
  {
  }

  /** Padding a number's digits gives digits only. */
  lemma PaddedDigits(n: nat)
    ensures AllDigits(Pad2(NatToString(n)))
  {
    var s := NatToString(n);
    var a := Pad2(s);
    forall i | 0 <= i < |a|
      ensures IsDigit(a[i])
    {
      if i >= |a| - |s| {
        assert a[i] == a[|a| - |s|..][i - (|a| - |s|)];
      }
    }
  }

  lemma JoinedShape(a: string, b: string)
    requires |a| == 2 && |b| == 2 && AllDigits(a) && AllDigits(b)
    ensures var r := a + ":" + b;
      && |r| == 5 && r[2] == ':'
      && forall i :: 0 <= i < 5 && i != 2 ==> IsDigit(r[i])
  {
    var r := a + ":" + b;
    forall i | 0 <= i < 5 && i != 2
      ensures IsDigit(r[i])
    {
      if i < 2 {
        assert r[i] == a[i];
      } else {
        assert r[i] == b[i - 3];
      }
    }
  }

  /**
   * For minutes and seconds in 0..99 the result is five characters: two
   * digits, ':', two digits.
   */
  lemma FormatShape(minutes: nat, seconds: nat)
    requires minutes <= 99 && seconds <= 99
    ensures var r := Format(minutes, seconds);
      && |r| == 5 && r[2] == ':'
      && forall i :: 0 <= i < 5 && i != 2 ==> IsDigit(r[i])
  {
    ShortNumber(minutes);
    ShortNumber(seconds);
    PaddedDigits(minutes);
    PaddedDigits(seconds);
    FormatOfNaturals(minutes, seconds);
    JoinedShape(Pad2(NatToString(minutes)), Pad2(NatToString(seconds)));
  }

  /** A single digit gets exactly one leading '0'; two or more digits are left as they are. */
  lemma PadKeepsDigits(n: nat)
    ensures n < 10 ==> Pad2(NatToString(n)) == ['0', DigitChar(n)]
    ensures n >= 10 ==> Pad2(NatToString(n)) == NatToString(n)
  {
  }

  /** A negative one-digit number keeps its '-' and gets no '0'. */
  lemma NegativeNotPadded(n: int)
    requires -9 <= n < 0
    ensures Format(n, 0) == IntToString(n) + ":00"
  {
    assert NatToString(0) == "0";
  }

  lemma {:induction false} DecimalOfString(n: nat)
    ensures DecimalValue(NatToString(n)) == n
    decreases n
  {
    if n >= 10 {
      var s := NatToString(n);
      assert s[..|s| - 1] == NatToString(n / 10);
      DecimalOfString(n / 10);
    }
  }

  lemma {:induction false} DecimalOfZeros(k: nat)
    ensures AllDigits(seq(k, _ => '0')) && DecimalValue(seq(k, _ => '0')) == 0
  {
    if k > 0 {
      assert seq(k, _ => '0')[..k - 1] == seq(k - 1, _ => '0');
      DecimalOfZeros(k - 1);
    }
  }

  lemma {:induction false} LeadingZeros(k: nat, x: string)
    requires AllDigits(x)
    ensures AllDigits(seq(k, _ => '0') + x)
    ensures DecimalValue(seq(k, _ => '0') + x) == DecimalValue(x)
    decreases |x|
  {
    DecimalOfZeros(k);
    var z := seq(k, _ => '0');
    if x == [] {
      assert z + x == z;
    } else {
      assert (z + x)[..|z + x| - 1] == z + x[..|x| - 1];
      LeadingZeros(k, x[..|x| - 1]);
    }
  }

  /** The padding in front of a number's digits does not change its value. */
  lemma PaddedValue(n: nat)
    ensures AllDigits(Pad2(NatToString(n))) && DecimalValue(Pad2(NatToString(n))) == n
  {
    DecimalOfString(n);
    var s := NatToString(n);
    if |s| < 2 {
      assert Pad2(s) == seq(1, _ => '0') + s;
      LeadingZeros(1, s);
    }
  }

  /** The first ':' after a text with no ':' is the one that ends it. */
  lemma {:induction false} IndexAfterPlain(a: string, b: string)
    requires NoColon(a)
    ensures IndexOf(a + ":" + b, ':') == |a|
    decreases |a|
  {
    if a != [] {
      assert a[0] != ':';
      assert (a + ":" + b)[1..] == a[1..] + ":" + b;
      IndexAfterPlain(a[1..], b);
    }
  }

  /** Reading back two digit strings joined by ':' gives their values. */
  lemma ParseJoined(a: string, b: string)
    requires AllDigits(a) && AllDigits(b)
    ensures ParseTime(a + ":" + b) == Some((DecimalValue(a), DecimalValue(b)))
  {
    var text := a + ":" + b;
    IndexAfterPlain(a, b);
    assert text[..|a|] == a && text[|a| + 1..] == b;
  }

  /** For non-negative minutes and seconds, reading the formatted text back gives both numbers. */
  lemma FormatRoundTrip(minutes: nat, seconds: nat)
    ensures ParseTime(Format(minutes, seconds)) == Some((minutes, seconds))
  {
    PaddedValue(minutes);
    PaddedValue(seconds);
    FormatOfNaturals(minutes, seconds);
    ParseJoined(Pad2(NatToString(minutes)), Pad2(NatToString(seconds)));
  }
}
