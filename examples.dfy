/** Concrete inputs of normalize_mac_address and what it returns for them,
    derived from the general lemmas about the matchers and the two paths. */
module UtilExamples {

  import opened Wrappers
  import opened Text
  import opened Patterns
  import opened Util

  /** Cisco notation: each run of four digits gives two octets. */
  lemma CiscoExample(s: string, c: string)
    requires s == "0123.4567.89ab" && c == "01:23:45:67:89:AB"
    ensures NormalizeMacAddress(s) == Some(c)
  {
    var g := ["0123", "4567", "89ab"];
    CiscoExampleMatch(s, g);
    NormalizeCisco(s, g);
    CiscoExampleRuns(g);
    CanonicalExample(c);
    CanonicalEqual(NormalizeMacAddress(s).value, c);
  }

  lemma CiscoExampleMatch(s: string, g: seq<string>)
    requires s == "0123.4567.89ab" && g == ["0123", "4567", "89ab"]
    ensures MatchCisco(s) == Some(g)
  {
    assert CiscoLayout(s, g) by {
      assert s[..4] == g[0] && s[4..][1..] == "4567.89ab";
      assert "4567.89ab"[..4] == g[1] && "4567.89ab"[4..][1..] == "89ab";
      assert "89ab"[..4] == g[2] && "89ab"[4..] == [];
    }
    CiscoMatchIff(s, g);
  }

  lemma CiscoExampleRuns(g: seq<string>)
    requires g == ["0123", "4567", "89ab"]
    ensures RunOctets(g) == [0x01, 0x23, 0x45, 0x67, 0x89, 0xAB]
  {
    HexNumberQuad(g[0]);
    HexNumberQuad(g[1]);
    HexNumberQuad(g[2]);
  }

  lemma CanonicalExample(c: string)
    requires c == "01:23:45:67:89:AB"
    ensures IsCanonical(c) && OctetValues(c) == [0x01, 0x23, 0x45, 0x67, 0x89, 0xAB]
  {
    forall i | 0 <= i < 17 ensures if i % 3 == 2 then c[i] == ':' else IsUpperHexDigit(c[i]) {
    }
  }

  /** Dashes as delimiters and mixed case: the groups are kept and
      upper-cased, joined by colons. */
  lemma DashedExample(s: string, c: string)
    requires s == "00-1A-2B-3C-4D-5E" && c == "00:1A:2B:3C:4D:5E"
    ensures NormalizeMacAddress(s) == Some(c)
  {
    DashedExamplePairs(s);
    NormalizeDelimitedPairs(s);
    DashedExampleChars(s, c);
    SameChars(NormalizeMacAddress(s).value, c);
  }

  lemma DashedExampleChars(s: string, c: string)
    requires s == "00-1A-2B-3C-4D-5E" && c == "00:1A:2B:3C:4D:5E"
    ensures |c| == 17 && forall i :: 0 <= i < 17 ==> c[i] == if i % 3 == 2 then ':' else UpperChar(s[i])
  {
  }

  lemma DashedExamplePairs(s: string)
    requires s == "00-1A-2B-3C-4D-5E"
    ensures DelimitedPairs(s, 6)
  {
    forall i | 0 <= i < 17 ensures if i % 3 == 2 then IsDelimiter(s[i]) else IsHexDigit(s[i]) {
    }
  }

  /** Twelve digits without delimiters: every group takes two digits. */
  lemma BareExample(s: string, c: string)
    requires s == "1a2b3c4d5e6f" && c == "1A:2B:3C:4D:5E:6F"
    ensures NormalizeMacAddress(s) == Some(c)
  {
    assert AllHex(s[..12]) by {
      assert s[..12] == s;
    }
    NormalizeBarePairs(s);
    BareExampleChars(s, c);
    SameChars(NormalizeMacAddress(s).value, c);
  }

  lemma BareExampleChars(s: string, c: string)
    requires s == "1a2b3c4d5e6f" && c == "1A:2B:3C:4D:5E:6F"
    ensures |c| == 17 && forall i :: 0 <= i < 17 ==>
      c[i] == if i % 3 == 2 then ':' else UpperChar(s[2 * (i / 3) + i % 3])
  {
  }

  /** Only ten digits: backtracking lets the fifth group give up its second
      digit so that a sixth group exists (for instance `00`, `00`, `00`, `00`,
      `0`, `0`), and the address returned has six octets, all zero. */
  lemma TenDigitsExample(s: string, c: string)
    requires s == "00:00:00:00:00" && c == "00:00:00:00:00:00"
    ensures NormalizeMacAddress(s) == Some(c)
  {
    TenDigitsNoCisco(s);
    var layout := TenDigitsLayout(s);
    GroupsComplete(s, layout);
    var g := MatchMacAddress(s).value;
    NormalizeDelimited(s, g);
    TenDigitsChars(s);
    ZeroGroups(s, g);
    CanonicalZero(c);
    CanonicalEqual(NormalizeMacAddress(s).value, c);
  }

  lemma TenDigitsNoCisco(s: string)
    requires s == "00:00:00:00:00"
    ensures MatchCisco(s).None?
  {
    assert forall i :: 0 <= i < |s| && i <= 4 ==> s[i] != '.';
    NoEarlyDotNoCisco(s);
  }

  lemma TenDigitsChars(s: string)
    requires s == "00:00:00:00:00"
    ensures forall i :: 0 <= i < |s| ==> s[i] == '0' || s[i] == ':'
  {
  }

  lemma TenDigitsLayout(s: string) returns (g: seq<string>)
    requires s == "00:00:00:00:00"
    ensures |g| == 6 && DelimitedLayout(s, g)
  {
    assert forall i :: 0 <= i < |s| ==> if i % 3 == 2 then IsDelimiter(s[i]) else IsHexDigit(s[i]);
    g := PairsThenTwoDigits(s, 4);
  }

  /** `k` delimited pairs followed by two more digits can be read as `k + 2`
      groups, the last two of one digit each. */
  lemma {:induction false} PairsThenTwoDigits(s: string, k: nat) returns (g: seq<string>)
    requires |s| == 3 * k + 2
    requires forall i :: 0 <= i < |s| ==> if i % 3 == 2 then IsDelimiter(s[i]) else IsHexDigit(s[i])
    ensures |g| == k + 2 && DelimitedLayout(s, g)
    decreases k
  {
    if k == 0 {
      assert IsGroup(s[..1]) && IsGroup(s[1..]) && s[1..][..1] == s[1..];
      LayoutStep(s, 1, 0, [s[1..]]);
      g := [s[..1], s[1..]];
    } else {
      var rest := s[3..];
      forall i | 0 <= i < |rest|
        ensures if i % 3 == 2 then IsDelimiter(rest[i]) else IsHexDigit(rest[i])
      {
        assert rest[i] == s[i + 3];
        assert (i + 3) % 3 == i % 3;
      }
      var h := PairsThenTwoDigits(rest, k - 1);
      assert IsGroup(s[..2]) by {
        assert s[..2][0] == s[0] && s[..2][1] == s[1];
      }
      assert IsDelimiter(s[2]);
      LayoutStep(s, 2, 1, h);
      g := [s[..2]] + h;
    }
  }

  /** A group of `w` digits, `dl` delimiters (none or one), then a layout of
      the remaining groups. */
  lemma LayoutStep(s: string, w: nat, dl: nat, h: seq<string>)
    requires w + dl <= |s| && IsGroup(s[..w]) && (dl == 0 || (dl == 1 && IsDelimiter(s[w])))
    requires DelimitedLayout(s[w + dl..], h)
    ensures DelimitedLayout(s, [s[..w]] + h)
  {
    var g := [s[..w]] + h;
    assert g[1..] == h;
    if dl == 1 {
      assert s[w..][1..] == s[w + 1..];
    }
  }

  /** Groups taken from an input of zeros and delimiters are zero. */
  lemma ZeroGroups(s: string, g: seq<string>)
    requires forall i :: 0 <= i < |s| ==> s[i] == '0' || s[i] == ':'
    requires |g| == 6 && DelimitedLayout(s, g)
    ensures seq(6, k requires 0 <= k < 6 => HexNumber(g[k])) == [0, 0, 0, 0, 0, 0]
  {
    forall k | 0 <= k < 6 ensures HexNumber(g[k]) == 0 {
      GroupsAreGroups(s, g, k);
      LayoutCharsFrom(s, g, k);
      assert g[k] == Zeros(|g[k]|);
      ZerosValue(|g[k]|);
    }
  }

  lemma CanonicalZero(c: string)
    requires c == "00:00:00:00:00:00"
    ensures IsCanonical(c) && OctetValues(c) == [0, 0, 0, 0, 0, 0]
  {
  }

  /** Non-hex characters match neither pattern. */
  lemma NotHexExample(s: string)
    requires s == "zz:zz:zz:zz:zz:zz" || s == "not-a-mac"
    ensures NormalizeMacAddress(s) == None
  {
    NormalizeRejectsBadStart(s);
  }

  /** The pattern is anchored only at the start: whatever follows six
      groups is ignored. */
  lemma TrailingTextExample(s: string, c: string)
    requires s == "00:11:22:33:44:55extra" && c == "00:11:22:33:44:55"
    ensures NormalizeMacAddress(s) == Some(c)
  {
    TrailingTextPairs(s);
    NormalizeDelimitedPairs(s);
    TrailingTextChars(s, c);
    SameChars(NormalizeMacAddress(s).value, c);
  }

  lemma TrailingTextChars(s: string, c: string)
    requires s == "00:11:22:33:44:55extra" && c == "00:11:22:33:44:55"
    ensures |c| == 17 && forall i :: 0 <= i < 17 ==> c[i] == if i % 3 == 2 then ':' else UpperChar(s[i])
  {
  }

  lemma SameChars(r: string, c: string)
    requires |r| == 17 && |c| == 17 && forall i :: 0 <= i < 17 ==> r[i] == c[i]
    ensures r == c
  {
  }

  lemma TrailingTextPairs(s: string)
    requires s == "00:11:22:33:44:55extra"
    ensures DelimitedPairs(s, 6)
  {
    forall i | 0 <= i < 17 ensures if i % 3 == 2 then IsDelimiter(s[i]) else IsHexDigit(s[i]) {
    }
  }

  /** Six dotted octets take the Cisco path: the first three become runs of
      two digits, zero-filled to four, and the rest of the input is ignored. */
  lemma DottedOctetsExample(s: string, c: string)
    requires s == "01.23.45.67.89.ab" && c == "00:01:00:23:00:45"
    ensures NormalizeMacAddress(s) == Some(c)
  {
    var g := ["01", "23", "45"];
    DottedOctetsMatch(s, g);
    NormalizeCisco(s, g);
    DottedOctetsRuns(g);
    CanonicalExample3(c);
    CanonicalEqual(NormalizeMacAddress(s).value, c);
  }

  lemma DottedOctetsMatch(s: string, g: seq<string>)
    requires s == "01.23.45.67.89.ab" && g == ["01", "23", "45"]
    ensures MatchCisco(s) == Some(g)
  {
    DottedOctetsLayout(s, g);
    CiscoMatchIff(s, g);
  }

  lemma DottedOctetsLayout(s: string, g: seq<string>)
    requires s == "01.23.45.67.89.ab" && g == ["01", "23", "45"]
    ensures CiscoLayout(s, g)
  {
    var t := s[3..];
    DottedOctetsTail(t, g[1..]);
    assert s[..2] == g[0] && s[2..][1..] == t && s[2] == '.';
  }

  lemma DottedOctetsTail(t: string, h: seq<string>)
    requires t == "23.45.67.89.ab" && h == ["23", "45"]
    ensures CiscoLayout(t, h)
  {
    var u := t[3..];
    assert u == "45.67.89.ab";
    assert CiscoLayout(u, h[1..]) by {
      assert u[..2] == h[1] && u[2..][0] == '.';
    }
    assert t[..2] == h[0] && t[2..][1..] == u && t[2] == '.';
  }

  lemma DottedOctetsRuns(g: seq<string>)
    requires g == ["01", "23", "45"]
    ensures RunOctets(g) == [0x00, 0x01, 0x00, 0x23, 0x00, 0x45]
  {
    HexNumberPair(g[0]);
    HexNumberPair(g[1]);
    HexNumberPair(g[2]);
  }

  lemma CanonicalExample3(c: string)
    requires c == "00:01:00:23:00:45"
    ensures IsCanonical(c) && OctetValues(c) == [0x00, 0x01, 0x00, 0x23, 0x00, 0x45]
  {
  }

  /** `random_mac_address()` without an argument gives a locally administered
      address: its first octet is `02`. */
  method DefaultRandomMacAddress(draw3: int, draw4: int, draw5: int) returns (r: string)
    requires 0x00 <= draw3 <= 0x7F
    requires 0x00 <= draw4 <= 0xFF && 0x00 <= draw5 <= 0xFF
    ensures IsCanonical(r) && IsLocallyAdministered(r)
    ensures r[..3] == "02:"
  {
    r := RandomMacAddress(draw3, draw4, draw5);
    FirstOctetText(r);
  }

  lemma FirstOctetText(r: string)
    requires IsCanonical(r) && OctetValues(r)[0] == 0x02
    ensures r[..3] == "02:"
  {
  }
}
