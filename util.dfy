/** spoofmac/util.py: the chunking helper `_chunk`, the generator
    `random_mac_address` and the parser `normalize_mac_address`, together with
    the canonical form `XX:XX:XX:XX:XX:XX` both of them produce. */
module Util {

  import opened Wrappers
  import opened Text
  import opened Patterns

  function Min(a: int, b: int): int {
    if a <= b then a else b
  }

  // ---------------------------------------------------------------------
  // _chunk

  /** The slices `l[i:i + n]`, `l[i + n:i + 2n]`, ... up to the end of `l`;
      Python's slice stops at the end of the sequence. */
  function ChunkFrom<T>(l: seq<T>, n: nat, i: nat): (r: seq<seq<T>>)
    requires n > 0
    ensures |r| == 0 <==> i >= |l|
    ensures forall k :: 0 <= k < |r| ==> 0 < |r[k]| <= n
    ensures forall k :: 0 <= k < |r| - 1 ==> |r[k]| == n
    decreases |l| - i
  {
    if i >= |l| then [] else [l[i..Min(i + n, |l|)]] + ChunkFrom(l, n, i + n)
  }

  /** `_chunk(l, n)`: one slice for each `i` in `range(0, len(l), n)`. */
  function Chunk<T>(l: seq<T>, n: nat): (r: seq<seq<T>>)
    requires n > 0
    ensures |r| == 0 <==> |l| == 0
    ensures forall k :: 0 <= k < |r| ==> 0 < |r[k]| <= n
    ensures forall k :: 0 <= k < |r| - 1 ==> |r[k]| == n
  {
    ChunkFrom(l, n, 0)
  }

  function Flatten<T>(parts: seq<seq<T>>): seq<T>
  {
    if parts == [] then [] else parts[0] + Flatten(parts[1..])
  }

  lemma {:induction false} ChunkFromFlatten<T>(l: seq<T>, n: nat, i: nat)
    requires n > 0
    ensures Flatten(ChunkFrom(l, n, i)) == l[Min(i, |l|)..]
    decreases |l| - i
  {
    if i < |l| {
      ChunkFromFlatten(l, n, i + n);
      var m := Min(i + n, |l|);
      assert l[i..m] + l[m..] == l[i..];
    }
  }

  /** Concatenating the chunks gives back the sequence. */
  lemma ChunkFlatten<T>(l: seq<T>, n: nat)
    requires n > 0
    ensures Flatten(Chunk(l, n)) == l
  {
    ChunkFromFlatten(l, n, 0);
  }

  lemma {:induction false} ChunkFromPairs<T>(l: seq<T>, i: nat)
    requires i <= |l| && (|l| - i) % 2 == 0
    ensures |ChunkFrom(l, 2, i)| == (|l| - i) / 2
    ensures forall k :: 0 <= k < (|l| - i) / 2 ==> ChunkFrom(l, 2, i)[k] == l[i + 2 * k..i + 2 * k + 2]
    decreases |l| - i
  {
    if i < |l| {
      ChunkFromPairs(l, i + 2);
    }
  }

  /** A sequence of even length splits into its consecutive pairs; in
      particular twelve digits give six two-digit chunks. */
  lemma ChunkPairs<T>(l: seq<T>)
    requires |l| % 2 == 0
    ensures |Chunk(l, 2)| == |l| / 2
    ensures forall k :: 0 <= k < |l| / 2 ==> Chunk(l, 2)[k] == l[2 * k..2 * k + 2]
  {
    ChunkFromPairs(l, 0);
  }

  // ---------------------------------------------------------------------
  // The canonical form XX:XX:XX:XX:XX:XX

  /** Six pairs of upper-case hex digits separated by colons. */
  predicate IsCanonical(s: string) {
    |s| == 17 &&
    forall i :: 0 <= i < |s| ==> if i % 3 == 2 then s[i] == ':' else IsUpperHexDigit(s[i])
  }

  /** The six octets a canonical address denotes. */
  function OctetValues(c: string): (octets: seq<int>)
    requires IsCanonical(c)
    ensures |octets| == 6 && forall k :: 0 <= k < 6 ==> 0 <= octets[k] < 256
  {
    seq(6, k requires 0 <= k < 6 => HexValue(c[3 * k]) * 16 + HexValue(c[3 * k + 1]))
  }

  /** `'{0:02X}'.format(o)` for an octet. */
  function FormatOctet(o: int): (r: string)
    requires 0 <= o < 256
    ensures |r| == 2 && IsUpperHexDigit(r[0]) && IsUpperHexDigit(r[1])
    ensures HexValue(r[0]) * 16 + HexValue(r[1]) == o
  {
    [HexDigit(o / 16), HexDigit(o % 16)]
  }

  /** `':'.join('{0:02X}'.format(o) for o in mac)`: the canonical text of six
      octets, which reads back as those octets. */
  function FormatMac(mac: seq<int>): (r: string)
    requires |mac| == 6 && forall k :: 0 <= k < 6 ==> 0 <= mac[k] < 256
    ensures IsCanonical(r) && OctetValues(r) == mac
  {
    var parts := seq(6, k requires 0 <= k < 6 => FormatOctet(mac[k]));
    JoinedOctets(parts);
    Join(":", parts)
  }

  /** Six formatted octets joined by colons are canonical and read back as
      the octets. */
  lemma JoinedOctets(parts: seq<string>)
    requires |parts| == 6
    requires forall k :: 0 <= k < 6 ==>
      |parts[k]| == 2 && IsUpperHexDigit(parts[k][0]) && IsUpperHexDigit(parts[k][1])
    ensures IsCanonical(Join(":", parts))
    ensures forall k :: 0 <= k < 6 ==>
      OctetValues(Join(":", parts))[k] == HexValue(parts[k][0]) * 16 + HexValue(parts[k][1])
  {
    JoinPairs(parts);
    var r := Join(":", parts);
    assert IsCanonical(r) by {
      forall i | 0 <= i < 17 && i % 3 != 2 ensures IsUpperHexDigit(r[i]) {
        assert r[i] == parts[i / 3][i % 3];
      }
    }
    forall k | 0 <= k < 6
      ensures OctetValues(r)[k] == HexValue(parts[k][0]) * 16 + HexValue(parts[k][1])
    {
      assert r[3 * k] == parts[k][0] by {
        assert (3 * k) % 3 == 0 && (3 * k) / 3 == k;
      }
      assert r[3 * k + 1] == parts[k][1] by {
        assert (3 * k + 1) % 3 == 1 && (3 * k + 1) / 3 == k;
      }
    }
  }

  /** A canonical address is determined by its octets. */
  lemma CanonicalEqual(a: string, b: string)
    requires IsCanonical(a) && IsCanonical(b) && OctetValues(a) == OctetValues(b)
    ensures a == b
  {
    forall i | 0 <= i < 17 ensures a[i] == b[i] {
      var k := i / 3;
      if i % 3 != 2 {
        assert OctetValues(a)[k] == OctetValues(b)[k];
        UpperHexDigitsEqual(a[3 * k], b[3 * k]);
        UpperHexDigitsEqual(a[3 * k + 1], b[3 * k + 1]);
      }
    }
  }

  /** Every canonical address is the formatting of its octets. */
  lemma FormatOctetValues(c: string)
    requires IsCanonical(c)
    ensures FormatMac(OctetValues(c)) == c
  {
    CanonicalEqual(FormatMac(OctetValues(c)), c);
  }

  // ---------------------------------------------------------------------
  // random_mac_address

  /** Bit 1 (value 2) of an octet: the universal/local bit when the octet
      is the first of an address. */
  function LocalBit(o: int): int {
    (o / 2) % 2
  }

  /** `o | 2` on an octet: bit 1 is set and every other bit is kept. */
  function SetLocalBit(o: int): (r: int)
    requires 0 <= o < 256
    ensures 0 <= r < 256 && LocalBit(r) == 1
    ensures r - 2 * LocalBit(r) == o - 2 * LocalBit(o)
  {
    if LocalBit(o) == 1 then o else o + 2
  }

  /** The universal/local bit of the first octet is set. */
  predicate IsLocallyAdministered(c: string)
    requires IsCanonical(c)
  {
    LocalBit(OctetValues(c)[0]) == 1
  }

  /** `random_mac_address(local_admin=True)`, with the values that
      `random.randint` draws for octets 3, 4 and 5 passed in. The address lies
      in the OUI 00:05:69, and the universal/local bit is set exactly when
      `localAdmin` is, which it is by default. */
  method RandomMacAddress(draw3: int, draw4: int, draw5: int, localAdmin: bool := true) returns (r: string)
    requires 0x00 <= draw3 <= 0x7F
    requires 0x00 <= draw4 <= 0xFF && 0x00 <= draw5 <= 0xFF
    ensures IsCanonical(r)
    ensures OctetValues(r) == [if localAdmin then 0x02 else 0x00, 0x05, 0x69, draw3, draw4, draw5]
    ensures IsLocallyAdministered(r) <==> localAdmin
    ensures NormalizeMacAddress(r) == Some(r)
  {
    var mac := [0x00, 0x05, 0x69, draw3, draw4, draw5];
    if localAdmin {
      mac := mac[0 := SetLocalBit(mac[0])];
    }
    assert mac == [if localAdmin then 0x02 else 0x00, 0x05, 0x69, draw3, draw4, draw5];
    r := FormatMac(mac);
    assert LocalBit(mac[0]) == if localAdmin then 1 else 0;
    NormalizeFixesCanonical(r);
  }

  // ---------------------------------------------------------------------
  // normalize_mac_address

  /** `[g.zfill(width) for g in groups]`. */
  function ZFillEach(groups: seq<string>, width: nat): (r: seq<string>)
    ensures |r| == |groups|
    ensures forall k :: 0 <= k < |groups| && AllHex(groups[k]) ==>
      |r[k]| == (if |groups[k]| < width then width else |groups[k]|) &&
      AllHex(r[k]) && HexNumber(r[k]) == HexNumber(groups[k])
  {
    seq(|groups|, k requires 0 <= k < |groups| => ZFill(groups[k], width))
  }

  /** `normalize_mac_address(mac)`: the Cisco pattern first, then the
      delimited one; `None` when neither matches at the start. Whatever it
      returns is in canonical form. */
  function NormalizeMacAddress(mac: string): (r: Option<string>)
    ensures r.Some? ==> IsCanonical(r.value)
  {
    match MatchCisco(mac)
    case Some(g) =>
      var newMac := Join("", ZFillEach(g, 4));
      PaddedRuns(g);
      ChunkedDigits(newMac);
      Some(Upper(Join(":", Chunk(newMac, 2))))
    case None =>
      match MatchMacAddress(mac)
      case Some(g) =>
        PaddedGroups(mac, g);
        UpperJoinedPairs(ZFillEach(g, 2));
        Some(Upper(Join(":", ZFillEach(g, 2))))
      case None => None
  }

  /** The six groups of a delimited match, zero-filled to two digits, are
      two-digit hex strings with the values of the groups. */
  lemma PaddedGroups(mac: string, g: seq<string>)
    requires |g| == 6 && DelimitedLayout(mac, g)
    ensures forall k :: 0 <= k < 6 ==>
      |ZFillEach(g, 2)[k]| == 2 && AllHex(ZFillEach(g, 2)[k]) && HexNumber(ZFillEach(g, 2)[k]) == HexNumber(g[k])
  {
    forall k | 0 <= k < 6 ensures IsGroup(g[k]) {
      GroupsAreGroups(mac, g, k);
    }
  }

  /** Six two-digit parts joined by colons and upper-cased are canonical, and
      octet `k` is the value of part `k`. */
  lemma UpperJoinedPairs(parts: seq<string>)
    requires |parts| == 6
    requires forall k :: 0 <= k < 6 ==> |parts[k]| == 2 && AllHex(parts[k])
    ensures IsCanonical(Upper(Join(":", parts)))
    ensures forall k :: 0 <= k < 6 ==>
      OctetValues(Upper(Join(":", parts)))[k] == HexNumber(parts[k])
  {
    UpperJoinChars(parts);
    var r := Upper(Join(":", parts));
    forall i | 0 <= i < 17 && i % 3 != 2 ensures IsUpperHexDigit(r[i]) {
      assert IsHexDigit(parts[i / 3][i % 3]);
    }
    PairOctets(r, parts);
  }

  lemma PairOctets(r: string, parts: seq<string>)
    requires IsCanonical(r) && |parts| == 6
    requires forall k :: 0 <= k < 6 ==> |parts[k]| == 2 && AllHex(parts[k])
    requires forall i :: 0 <= i < 17 ==> r[i] == if i % 3 == 2 then ':' else UpperChar(parts[i / 3][i % 3])
    ensures forall k :: 0 <= k < 6 ==> OctetValues(r)[k] == HexNumber(parts[k])
  {
    forall k | 0 <= k < 6 ensures OctetValues(r)[k] == HexNumber(parts[k]) {
      assert (3 * k) / 3 == k && (3 * k) % 3 == 0 && (3 * k + 1) / 3 == k && (3 * k + 1) % 3 == 1;
      assert IsHexDigit(parts[k][0]) && IsHexDigit(parts[k][1]);
      HexNumberPair(parts[k]);
    }
  }

  /** `''.join` of the three runs zero-filled to four digits: twelve hex
      digits, run `j` at positions `4j` to `4j + 3`. */
  lemma PaddedRuns(g: seq<string>)
    requires |g| == 3 && forall k :: 0 <= k < 3 ==> IsRun(g[k])
    ensures |Join("", ZFillEach(g, 4))| == 12 && AllHex(Join("", ZFillEach(g, 4)))
    ensures forall j :: 0 <= j < 3 ==>
      Join("", ZFillEach(g, 4))[4 * j..4 * j + 4] == ZFill(g[j], 4)
  {
    var padded := ZFillEach(g, 4);
    forall k | 0 <= k < 3 ensures padded[k] == ZFill(g[k], 4) && |padded[k]| == 4 && AllHex(padded[k]) {
      assert padded[k] == ZFill(g[k], 4) && IsRun(g[k]);
    }
    ThreeQuads(padded);
  }

  lemma ThreeQuads(p: seq<string>)
    requires |p| == 3 && forall k :: 0 <= k < 3 ==> |p[k]| == 4 && AllHex(p[k])
    ensures |Join("", p)| == 12 && AllHex(Join("", p))
    ensures forall j :: 0 <= j < 3 ==> Join("", p)[4 * j..4 * j + 4] == p[j]
  {
    var a, b, c := p[0], p[1], p[2];
    assert p == [a, b, c];
    JoinEmptySeparator3(a, b, c);
    var t := a + b + c;
    assert t[0..4] == a && t[4..8] == b && t[8..12] == c;
    assert AllHex(t) by {
      forall i | 0 <= i < 12 ensures IsHexDigit(t[i]) {
        if i < 4 { assert t[i] == a[i]; }
        else if i < 8 { assert t[i] == b[i - 4]; }
        else { assert t[i] == c[i - 8]; }
      }
    }
    forall j | 0 <= j < 3 ensures t[4 * j..4 * j + 4] == p[j] {
      if j == 0 {} else if j == 1 {} else {}
    }
  }

  /** Four hex digits cut into two octets keep their value. */
  lemma QuadOctets(p: string, hi: string, lo: string)
    requires |p| == 4 && AllHex(p) && hi == p[..2] && lo == p[2..]
    ensures HexNumber(hi) * 256 + HexNumber(lo) == HexNumber(p)
  {
    HexNumberQuad(p);
    HexNumberPair(hi);
    HexNumberPair(lo);
  }

  lemma DigitChunks(t: string)
    requires |t| == 12 && AllHex(t)
    ensures |Chunk(t, 2)| == 6
    ensures forall k :: 0 <= k < 6 ==>
      Chunk(t, 2)[k] == t[2 * k..2 * k + 2] && |Chunk(t, 2)[k]| == 2 && AllHex(Chunk(t, 2)[k])
  {
    ChunkPairs(t);
  }

  /** Twelve hex digits cut into two-digit chunks, joined by colons and
      upper-cased: canonical, each four-digit quarter giving two octets. */
  lemma ChunkedDigits(t: string)
    requires |t| == 12 && AllHex(t)
    ensures IsCanonical(Upper(Join(":", Chunk(t, 2))))
    ensures forall j :: 0 <= j < 3 ==>
      OctetValues(Upper(Join(":", Chunk(t, 2))))[2 * j] * 256 +
      OctetValues(Upper(Join(":", Chunk(t, 2))))[2 * j + 1] == HexNumber(t[4 * j..4 * j + 4])
  {
    DigitChunks(t);
    var chunks := Chunk(t, 2);
    UpperJoinedPairs(chunks);
    var r := Upper(Join(":", chunks));
    var v := OctetValues(r);
    forall j | 0 <= j < 3
      ensures v[2 * j] * 256 + v[2 * j + 1] == HexNumber(t[4 * j..4 * j + 4])
    {
      ChunkQuarter(t, chunks, j);
    }
  }

  lemma ChunkQuarter(t: string, chunks: seq<string>, j: nat)
    requires |t| == 12 && AllHex(t) && j < 3
    requires |chunks| == 6 && forall k :: 0 <= k < 6 ==> chunks[k] == t[2 * k..2 * k + 2]
    ensures HexNumber(chunks[2 * j]) * 256 + HexNumber(chunks[2 * j + 1]) == HexNumber(t[4 * j..4 * j + 4])
  {
    var p := t[4 * j..4 * j + 4];
    assert chunks[2 * j] == p[..2] && chunks[2 * j + 1] == p[2..];
    QuadOctets(p, chunks[2 * j], chunks[2 * j + 1]);
  }

  /** The octets three Cisco runs stand for: each run is a 16-bit value,
      high octet first. */
  function RunOctets(g: seq<string>): seq<int>
    requires |g| == 3
  {
    [HexNumber(g[0]) / 256, HexNumber(g[0]) % 256,
     HexNumber(g[1]) / 256, HexNumber(g[1]) % 256,
     HexNumber(g[2]) / 256, HexNumber(g[2]) % 256]
  }

  /** On the Cisco path the result is canonical, and each pair of octets
      holds the value of one run, the run zero-filled to four digits. */
  lemma NormalizeCisco(mac: string, g: seq<string>)
    requires MatchCisco(mac) == Some(g)
    ensures NormalizeMacAddress(mac).Some?
    ensures IsCanonical(NormalizeMacAddress(mac).value)
    ensures OctetValues(NormalizeMacAddress(mac).value) == RunOctets(g)
  {
    var t := Join("", ZFillEach(g, 4));
    var r := Upper(Join(":", Chunk(t, 2)));
    assert NormalizeMacAddress(mac) == Some(r);
    PaddedRuns(g);
    ChunkedDigits(t);
    PairsAreRunOctets(OctetValues(r), g);
  }

  lemma PairsAreRunOctets(v: seq<int>, g: seq<string>)
    requires |v| == 6 && |g| == 3
    requires forall k :: 0 <= k < 6 ==> 0 <= v[k] < 256
    requires forall j :: 0 <= j < 3 ==> v[2 * j] * 256 + v[2 * j + 1] == HexNumber(g[j])
    ensures v == RunOctets(g)
  {
    forall j | 0 <= j < 3
      ensures v[2 * j] == HexNumber(g[j]) / 256 && v[2 * j + 1] == HexNumber(g[j]) % 256
    {
      OctetPair(v[2 * j], v[2 * j + 1], HexNumber(g[j]));
    }
    assert v[0] == HexNumber(g[0]) / 256 && v[1] == HexNumber(g[0]) % 256;
    assert v[2] == HexNumber(g[1]) / 256 && v[3] == HexNumber(g[1]) % 256;
    assert v[4] == HexNumber(g[2]) / 256 && v[5] == HexNumber(g[2]) % 256;
  }

  lemma OctetPair(hi: int, lo: int, n: int)
    requires 0 <= hi < 256 && 0 <= lo < 256 && hi * 256 + lo == n
    ensures hi == n / 256 && lo == n % 256
  {
  }

  /** On the delimited path the result is canonical, and octet `k` holds the
      value of group `k`. */
  lemma NormalizeDelimited(mac: string, g: seq<string>)
    requires MatchCisco(mac).None? && MatchMacAddress(mac) == Some(g)
    ensures NormalizeMacAddress(mac).Some?
    ensures IsCanonical(NormalizeMacAddress(mac).value)
    ensures OctetValues(NormalizeMacAddress(mac).value) == seq(6, k requires 0 <= k < 6 => HexNumber(g[k]))
  {
    var padded := ZFillEach(g, 2);
    var r := Upper(Join(":", padded));
    assert NormalizeMacAddress(mac) == Some(r);
    PaddedGroups(mac, g);
    UpperJoinedPairs(padded);
  }

  lemma {:induction false} GroupsAreGroups(s: string, g: seq<string>, k: nat)
    requires DelimitedLayout(s, g) && k < |g|
    ensures IsGroup(g[k])
    decreases k
  {
    if k > 0 {
      var rest := s[|g[0]|..];
      if DelimitedLayout(rest, g[1..]) {
        GroupsAreGroups(rest, g[1..], k - 1);
      } else {
        GroupsAreGroups(rest[1..], g[1..], k - 1);
      }
    }
  }

  /** `None` is returned exactly when the input begins with neither a Cisco
      layout nor a delimited layout. */
  lemma NormalizeNoneIff(mac: string)
    ensures NormalizeMacAddress(mac).None? <==>
      (forall g :: |g| == 3 ==> !CiscoLayout(mac, g)) &&
      (forall g :: |g| == 6 ==> !DelimitedLayout(mac, g))
  {
    CiscoNoMatchIff(mac);
    MacAddressMatchesIff(mac);
  }

  /** Six two-digit groups separated by `:` or `-` (whatever follows them)
      come back with colons as delimiters and every letter upper-cased. */
  lemma NormalizeDelimitedPairs(s: string)
    requires DelimitedPairs(s, 6)
    ensures NormalizeMacAddress(s).Some?
    ensures |NormalizeMacAddress(s).value| == 17
    ensures forall i :: 0 <= i < 17 ==>
      NormalizeMacAddress(s).value[i] == if i % 3 == 2 then ':' else UpperChar(s[i])
  {
    var g := PairsAt(s, 6);
    DelimitedPairsMatch(s);
    PairsResult(s, g);
    PairsAtChars(s, g);
  }

  lemma PairsAtChars(s: string, g: seq<string>)
    requires |s| >= 17 && g == PairsAt(s, 6)
    ensures forall i :: 0 <= i < 17 && i % 3 != 2 ==> g[i / 3][i % 3] == s[i]
  {
    forall i | 0 <= i < 17 && i % 3 != 2 ensures g[i / 3][i % 3] == s[i] {
      assert 3 * (i / 3) + i % 3 == i;
    }
  }

  /** When the delimited pattern gives six two-digit groups, they come back
      joined by colons and upper-cased. */
  lemma PairsResult(s: string, g: seq<string>)
    requires MatchCisco(s).None? && MatchMacAddress(s) == Some(g)
    requires |g| == 6 && forall k :: 0 <= k < 6 ==> |g[k]| == 2
    ensures NormalizeMacAddress(s) == Some(Upper(Join(":", g)))
    ensures |Upper(Join(":", g))| == 17
    ensures forall i :: 0 <= i < 17 ==>
      Upper(Join(":", g))[i] == if i % 3 == 2 then ':' else UpperChar(g[i / 3][i % 3])
  {
    SameWidthPairs(g);
    UpperJoinChars(g);
  }

  lemma UpperJoinChars(g: seq<string>)
    requires |g| == 6 && forall k :: 0 <= k < 6 ==> |g[k]| == 2
    ensures |Upper(Join(":", g))| == 17
    ensures forall i :: 0 <= i < 17 ==>
      Upper(Join(":", g))[i] == if i % 3 == 2 then ':' else UpperChar(g[i / 3][i % 3])
  {
    JoinPairs(g);
  }

  lemma DelimitedPairsMatch(s: string)
    requires DelimitedPairs(s, 6)
    ensures MatchCisco(s).None? && MatchMacAddress(s) == Some(PairsAt(s, 6))
  {
    assert forall i :: 0 <= i < |s| && i <= 4 ==> s[i] != '.';
    NoEarlyDotNoCisco(s);
    MatchDelimitedPairs(s, 6);
  }

  /** Twelve hex digits without delimiters (whatever follows them) come back
      cut into pairs, joined by colons and upper-cased. */
  lemma NormalizeBarePairs(s: string)
    requires |s| >= 12 && AllHex(s[..12])
    ensures NormalizeMacAddress(s).Some?
    ensures |NormalizeMacAddress(s).value| == 17
    ensures forall i :: 0 <= i < 17 ==>
      NormalizeMacAddress(s).value[i] == if i % 3 == 2 then ':' else UpperChar(s[2 * (i / 3) + i % 3])
  {
    var g := BarePairs(s, 6);
    BarePairsMatch(s);
    PairsResult(s, g);
    BarePairsChars(s, g);
  }

  lemma BarePairsChars(s: string, g: seq<string>)
    requires |s| >= 12 && g == BarePairs(s, 6)
    ensures forall i :: 0 <= i < 17 && i % 3 != 2 ==> g[i / 3][i % 3] == s[2 * (i / 3) + i % 3]
  {
    forall i | 0 <= i < 17 && i % 3 != 2 ensures g[i / 3][i % 3] == s[2 * (i / 3) + i % 3] {
    }
  }

  lemma BarePairsMatch(s: string)
    requires |s| >= 12 && AllHex(s[..12])
    ensures MatchCisco(s).None? && MatchMacAddress(s) == Some(BarePairs(s, 6))
  {
    forall i | 0 <= i < |s| && i <= 4 ensures s[i] != '.' {
      assert s[i] == s[..12][i];
    }
    NoEarlyDotNoCisco(s);
    MatchBarePairs(s, 6);
  }

  /** `zfill(2)` leaves two-character groups as they are. */
  lemma SameWidthPairs(g: seq<string>)
    requires forall k :: 0 <= k < |g| ==> |g[k]| == 2
    ensures ZFillEach(g, 2) == g
  {
  }

  /** An input that starts with neither a hex digit nor a dot, the empty
      input included, is rejected. */
  lemma NormalizeRejectsBadStart(mac: string)
    requires mac == [] || (!IsHexDigit(mac[0]) && mac[0] != '.')
    ensures NormalizeMacAddress(mac) == None
  {
    NoLeadingRunNoCisco(mac);
    NoLeadingGroupNoMatch(mac);
  }

  /** A canonical address normalises to itself. */
  lemma NormalizeFixesCanonical(c: string)
    requires IsCanonical(c)
    ensures NormalizeMacAddress(c) == Some(c)
  {
    assert DelimitedPairs(c, 6);
    NormalizeDelimitedPairs(c);
    var r := NormalizeMacAddress(c).value;
    forall i | 0 <= i < 17 ensures r[i] == c[i] {
      if i % 3 != 2 {
        assert IsUpperHexDigit(c[i]);
      }
    }
    assert r == c;
  }

  /** Normalising twice is normalising once. */
  lemma NormalizeIdempotent(mac: string)
    ensures NormalizeMacAddress(mac).Some? ==>
      NormalizeMacAddress(NormalizeMacAddress(mac).value) == NormalizeMacAddress(mac)
  {
    if NormalizeMacAddress(mac).Some? {
      NormalizeFixesCanonical(NormalizeMacAddress(mac).value);
    }
  }

}
