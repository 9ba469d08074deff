/** The few Python string built-ins the MAC utilities rely on: hexadecimal
    digits (the regex class `[0-9A-F]` under `re.I`, and the `{0:02X}` format),
    `str.upper`, `str.zfill` and `str.join`. */
module Text {

  /** `[0-9A-F]` matched case-insensitively. */
  predicate IsHexDigit(c: char) {
    '0' <= c <= '9' || 'a' <= c <= 'f' || 'A' <= c <= 'F'
  }

  /** A digit as the `X` format specifier writes it. */
  predicate IsUpperHexDigit(c: char) {
    IsHexDigit(c) && !('a' <= c <= 'f')
  }

  predicate AllHex(s: string) {
    forall i :: 0 <= i < |s| ==> IsHexDigit(s[i])
  }

  /** The value of a hex digit (0 for any other character, which never
      reaches it). */
  function HexValue(c: char): (v: nat)
    ensures v < 16
  {
    if '0' <= c <= '9' then c as int - '0' as int
    else if 'a' <= c <= 'f' then c as int - 'a' as int + 10
    else if 'A' <= c <= 'F' then c as int - 'A' as int + 10
    else 0
  }

  /** The value of a string of hexadecimal digits, most significant first
      (`int(s, 16)`, with the empty string read as 0). */
  function HexNumber(s: string): nat
  {
    if s == [] then 0 else HexNumber(s[..|s| - 1]) * 16 + HexValue(s[|s| - 1])
  }

  lemma HexNumberPair(x: string)
    requires |x| == 2 && AllHex(x)
    ensures HexNumber(x) == HexValue(x[0]) * 16 + HexValue(x[1])
  {
    var a := x[..1];
    assert AllHex(a) && a[..0] == [] && a[0] == x[0];
    assert HexNumber(a) == HexValue(x[0]);
  }

  lemma HexNumberQuad(x: string)
    requires |x| == 4 && AllHex(x)
    ensures HexNumber(x) ==
      ((HexValue(x[0]) * 16 + HexValue(x[1])) * 16 + HexValue(x[2])) * 16 + HexValue(x[3])
  {
    var c := x[..3];
    assert AllHex(c) && c[..2] == x[..2] && c[2] == x[2];
    HexNumberPair(x[..2]);
  }

  /** One upper-case digit, as `X` formats a value below 16. */
  function HexDigit(v: nat): (c: char)
    requires v < 16
    ensures IsUpperHexDigit(c) && HexValue(c) == v
  {
    if v < 10 then ('0' as int + v) as char else ('A' as int + v - 10) as char
  }

  /** Upper-case digits are told apart by their values. */
  lemma UpperHexDigitsEqual(a: char, b: char)
    requires IsUpperHexDigit(a) && IsUpperHexDigit(b) && HexValue(a) == HexValue(b)
    ensures a == b
  {
  }

  /** `str.upper` on one character, for the ASCII range. */
  function UpperChar(c: char): (u: char)
    ensures IsHexDigit(c) ==> IsUpperHexDigit(u) && HexValue(u) == HexValue(c)
    ensures IsUpperHexDigit(c) || c == ':' ==> u == c
  {
    if 'a' <= c <= 'z' then (c as int - 32) as char else c
  }

  /** `str.upper`, character by character; it turns hex strings into
      upper-case hex strings. */
  function Upper(s: string): (r: string)
    ensures |r| == |s| && forall i :: 0 <= i < |s| ==> r[i] == UpperChar(s[i])
    ensures AllHex(s) ==> forall i :: 0 <= i < |r| ==> IsUpperHexDigit(r[i])
  {
    seq(|s|, i requires 0 <= i < |s| => UpperChar(s[i]))
  }

  function Zeros(n: nat): (z: string)
    ensures |z| == n && forall i :: 0 <= i < n ==> z[i] == '0'
  {
    seq(n, _ => '0')
  }

  predicate IsSign(c: char) {
    c == '+' || c == '-'
  }

  /** `s.zfill(width)`: pads with `0` on the left up to `width` characters,
      after a leading sign if there is one; a string already that long is
      returned as it is. */
  function ZFill(s: string, width: nat): (r: string)
    ensures |r| == if |s| < width then width else |s|
    ensures s == [] || !IsSign(s[0]) ==> r == Zeros(|r| - |s|) + s
    ensures AllHex(s) ==> AllHex(r) && HexNumber(r) == HexNumber(s)
  {
    if |s| >= width then s
    else if |s| > 0 && IsSign(s[0]) then [s[0]] + Zeros(width - |s|) + s[1..]
    else
      var r := Zeros(width - |s|) + s;
      assert AllHex(s) ==> AllHex(r) && HexNumber(r) == HexNumber(s) by {
        if AllHex(s) { LeadingZeros(width - |s|, s); }
      }
      r
  }

  /** Leading zero digits do not change a hexadecimal value. */
  lemma {:induction false} LeadingZeros(n: nat, s: string)
    requires AllHex(s)
    ensures AllHex(Zeros(n) + s) && HexNumber(Zeros(n) + s) == HexNumber(s)
  {
    var z := Zeros(n) + s;
    if s == [] {
      assert z == Zeros(n);
      ZerosValue(n);
    } else {
      var init := s[..|s| - 1];
      LeadingZeros(n, init);
      assert z[..|z| - 1] == Zeros(n) + init;
      assert z[|z| - 1] == s[|s| - 1];
    }
  }

  lemma {:induction false} ZerosValue(n: nat)
    ensures AllHex(Zeros(n)) && HexNumber(Zeros(n)) == 0
  {
    if n > 0 {
      ZerosValue(n - 1);
      assert Zeros(n)[..n - 1] == Zeros(n - 1);
    }
  }

  /** The sum of the lengths of the parts. */
  function TotalLength(parts: seq<string>): nat
  {
    if |parts| == 0 then 0 else |parts[0]| + TotalLength(parts[1..])
  }

  /** `sep.join(parts)`: the parts with one separator between each two. */
  function Join(sep: string, parts: seq<string>): (r: string)
    ensures |parts| == 0 ==> r == []
    ensures |parts| > 0 ==> |r| == TotalLength(parts) + (|parts| - 1) * |sep|
    ensures |parts| > 0 ==> r[..|parts[0]|] == parts[0]
  {
    if |parts| == 0 then ""
    else if |parts| == 1 then parts[0]
    else parts[0] + sep + Join(sep, parts[1..])
  }

  /** `':'.join` of two-character parts puts part `i / 3` at every position
      `i` except each third one, which holds the colon. */
  lemma {:induction false} JoinPairs(parts: seq<string>)
    requires |parts| >= 1
    requires forall k :: 0 <= k < |parts| ==> |parts[k]| == 2
    ensures |Join(":", parts)| == 3 * |parts| - 1
    ensures forall i :: 0 <= i < 3 * |parts| - 1 ==>
      Join(":", parts)[i] == if i % 3 == 2 then ':' else parts[i / 3][i % 3]
  {
    if |parts| > 1 {
      var tail := parts[1..];
      JoinPairs(tail);
      var r := Join(":", parts);
      assert r == parts[0] + ":" + Join(":", tail);
      forall i | 3 <= i < 3 * |parts| - 1
        ensures r[i] == if i % 3 == 2 then ':' else parts[i / 3][i % 3]
      {
        assert r[i] == Join(":", tail)[i - 3];
        assert (i - 3) % 3 == i % 3 && (i - 3) / 3 == i / 3 - 1;
      }
    }
  }

  /** The parts joined by the empty separator are their concatenation. */
  lemma JoinEmptySeparator3(a: string, b: string, c: string)
    ensures Join("", [a, b, c]) == a + b + c
  {
    assert [a, b, c][1..] == [b, c];
    assert [b, c][1..] == [c];
    assert Join("", [b, c]) == b + "" + c == b + c;
    assert a + "" + (b + c) == a + b + c;
  }

}
