/** The two regular expressions of spoofmac/util.py, written out as the
    matchers Python's backtracking `re.match` runs for them: anchored at the
    start of the input only, greedy repeats tried from the longest down, an
    optional character tried before it is skipped, and the first success
    wins. Each matcher returns the captured groups (`m.groups()`), or `None`
    when the pattern does not match at position 0.

    Beside each matcher stands a declarative description of the input it
    accepts (`DelimitedLayout`, `CiscoLayout`), and lemmas tie the two. */
module Patterns {

  import opened Wrappers
  import opened Text

  /** Prepends a capture to the captures of the rest of a match. */
  function Prepend(x: string, rest: Option<seq<string>>): Option<seq<string>>
  {
    match rest
    case Some(g) => Some([x] + g)
    case None => None
  }

  /** Backtracking: the first alternative that matches wins. */
  function OrElse(first: Option<seq<string>>, second: Option<seq<string>>): Option<seq<string>>
  {
    if first.Some? then first else second
  }

  // ---------------------------------------------------------------------
  // MAC_ADDRESS_R:  ([0-9A-F]{1,2})[:-]?  five times, then ([0-9A-F]{1,2})

  predicate IsDelimiter(c: char) {
    c == ':' || c == '-'
  }

  /** A capture of `[0-9A-F]{1,2}`. */
  predicate IsGroup(x: string) {
    1 <= |x| <= 2 && AllHex(x)
  }

  /** `s` begins with the groups `g`, each but the last followed by at most
      one delimiter. */
  ghost predicate DelimitedLayout(s: string, g: seq<string>)
    decreases |g|
  {
    |g| >= 1 && IsGroup(g[0]) && |g[0]| <= |s| && s[..|g[0]|] == g[0] &&
    (|g| == 1 ||
      (var rest := s[|g[0]|..];
       DelimitedLayout(rest, g[1..]) ||
       (|rest| > 0 && IsDelimiter(rest[0]) && DelimitedLayout(rest[1..], g[1..]))))
  }

  /** The last `n` groups of the pattern, tried on `s`: two digits first,
      then one. */
  function MatchGroupsFrom(s: string, n: nat): (r: Option<seq<string>>)
    requires n >= 1
    ensures r.Some? ==> |r.value| == n && DelimitedLayout(s, r.value)
    decreases n, 2
  {
    OrElse(MatchGroup(s, 2, n), MatchGroup(s, 1, n))
  }

  /** The group `[0-9A-F]{1,2}` taken with exactly `w` digits. */
  function MatchGroup(s: string, w: nat, n: nat): (r: Option<seq<string>>)
    requires 1 <= w <= 2 && n >= 1
    ensures r.Some? ==> |r.value| == n && |r.value[0]| == w && DelimitedLayout(s, r.value)
    decreases n, 1
  {
    if w <= |s| && AllHex(s[..w]) then Prepend(s[..w], AfterGroup(s[w..], n)) else None
  }

  /** What follows a group: nothing more after the sixth; otherwise `[:-]?`,
      the delimiter consumed first and skipped on backtracking. */
  function AfterGroup(rest: string, n: nat): (r: Option<seq<string>>)
    requires n >= 1
    ensures r.Some? ==> |r.value| == n - 1
    ensures r.Some? && n > 1 ==>
      DelimitedLayout(rest, r.value) ||
      (|rest| > 0 && IsDelimiter(rest[0]) && DelimitedLayout(rest[1..], r.value))
    decreases n, 0
  {
    if n == 1 then Some([])
    else
      OrElse(if |rest| > 0 && IsDelimiter(rest[0]) then MatchGroupsFrom(rest[1..], n - 1) else None,
             MatchGroupsFrom(rest, n - 1))
  }

  /** `MAC_ADDRESS_R.match(s)`: the captures are a six-group layout of the
      input, the first one in the search order of backtracking. */
  function MatchMacAddress(s: string): (r: Option<seq<string>>)
    ensures r.Some? ==> |r.value| == 6 && DelimitedLayout(s, r.value)
    ensures r.Some? ==> forall h :: |h| == 6 && DelimitedLayout(s, h) ==> LexLe(Widths(h), Widths(r.value))
  {
    SixGroupsGreedy(s);
    MatchGroupsFrom(s, 6)
  }

  lemma SixGroupsGreedy(s: string)
    ensures MatchGroupsFrom(s, 6).Some? ==>
      forall h :: |h| == 6 && DelimitedLayout(s, h) ==> LexLe(Widths(h), Widths(MatchGroupsFrom(s, 6).value))
  {
    if MatchGroupsFrom(s, 6).Some? {
      forall h | |h| == 6 && DelimitedLayout(s, h)
        ensures LexLe(Widths(h), Widths(MatchGroupsFrom(s, 6).value))
      {
        GroupsGreedy(s, h);
      }
    }
  }

  /** Backtracking finds a match whenever the input has the layout. */
  lemma {:induction false} GroupsComplete(s: string, g: seq<string>)
    requires DelimitedLayout(s, g)
    ensures MatchGroup(s, |g[0]|, |g|).Some? && MatchGroupsFrom(s, |g|).Some?
    decreases |g|
  {
    var w := |g[0]|;
    var rest := s[w..];
    if |g| > 1 {
      if DelimitedLayout(rest, g[1..]) {
        GroupsComplete(rest, g[1..]);
      } else {
        GroupsComplete(rest[1..], g[1..]);
      }
    }
    assert AfterGroup(rest, |g|).Some?;
    assert s[..w] == g[0];
    assert MatchGroup(s, w, |g|).Some?;
  }

  /** A layout starts with a hex digit, so a delimiter is never skipped:
      after a group the next character decides whether it is consumed. */
  lemma LayoutStartsWithDigit(s: string, g: seq<string>)
    requires DelimitedLayout(s, g)
    ensures |s| > 0 && IsHexDigit(s[0])
  {
    assert s[0] == s[..|g[0]|][0] == g[0][0];
  }

  /** The widths of the captured groups. */
  function Widths(g: seq<string>): (w: seq<int>)
    ensures |w| == |g| && forall k :: 0 <= k < |g| ==> w[k] == |g[k]|
  {
    seq(|g|, k requires 0 <= k < |g| => |g[k]|)
  }

  /** `a` comes no later than `b` in lexicographic order; backtracking tries
      the group widths in decreasing lexicographic order. */
  predicate LexLe(a: seq<int>, b: seq<int>)
    decreases |a|
  {
    |a| == 0 || |b| == 0 || a[0] < b[0] || (a[0] == b[0] && LexLe(a[1..], b[1..]))
  }

  lemma {:induction false} LexLeAntisymmetric(a: seq<int>, b: seq<int>)
    requires |a| == |b| && LexLe(a, b) && LexLe(b, a)
    ensures a == b
    decreases |a|
  {
    if |a| > 0 {
      LexLeAntisymmetric(a[1..], b[1..]);
      assert a == [a[0]] + a[1..] && b == [b[0]] + b[1..];
    }
  }

  /** Backtracking returns the first layout in its search order: every
      layout of the same number of groups has widths no greater, in
      lexicographic order, than the widths the matcher returns. */
  lemma {:induction false} GroupsGreedy(s: string, h: seq<string>)
    requires DelimitedLayout(s, h)
    ensures MatchGroupsFrom(s, |h|).Some?
    ensures LexLe(Widths(h), Widths(MatchGroupsFrom(s, |h|).value))
    decreases |h|
  {
    var n := |h|;
    GroupsComplete(s, h);
    var m := MatchGroupsFrom(s, n).value;
    var w := |h[0]|;
    if w == 2 || MatchGroup(s, 2, n).None? {
      assert m == MatchGroup(s, w, n).value;
      assert m[0] == s[..w] == h[0];
      if n > 1 {
        var rest := s[w..];
        assert m[1..] == AfterGroup(rest, n).value;
        if |rest| > 0 && IsDelimiter(rest[0]) {
          if DelimitedLayout(rest, h[1..]) {
            LayoutStartsWithDigit(rest, h[1..]);
          }
          GroupsGreedy(rest[1..], h[1..]);
          assert m[1..] == MatchGroupsFrom(rest[1..], n - 1).value;
        } else {
          GroupsGreedy(rest, h[1..]);
        }
        assert Widths(h)[1..] == Widths(h[1..]) && Widths(m)[1..] == Widths(m[1..]);
      }
    } else {
      assert m == MatchGroup(s, 2, n).value;
    }
  }

  /** A layout is fixed by its group widths. */
  lemma {:induction false} LayoutByWidths(s: string, g: seq<string>, h: seq<string>)
    requires DelimitedLayout(s, g) && DelimitedLayout(s, h) && Widths(g) == Widths(h)
    ensures g == h
    decreases |g|
  {
    var w := |g[0]|;
    assert Widths(g)[0] == Widths(h)[0];
    assert g[0] == s[..w] == h[0];
    if |g| > 1 {
      var rest := s[w..];
      assert Widths(g[1..]) == Widths(g)[1..] == Widths(h)[1..] == Widths(h[1..]);
      if |rest| > 0 && IsDelimiter(rest[0]) {
        if DelimitedLayout(rest, g[1..]) {
          LayoutStartsWithDigit(rest, g[1..]);
        }
        if DelimitedLayout(rest, h[1..]) {
          LayoutStartsWithDigit(rest, h[1..]);
        }
        LayoutByWidths(rest[1..], g[1..], h[1..]);
      } else {
        LayoutByWidths(rest, g[1..], h[1..]);
      }
      assert g == [g[0]] + g[1..] && h == [h[0]] + h[1..];
    }
  }

  /** Every character of a group is a character of the input. */
  lemma {:induction false} LayoutCharsFrom(s: string, g: seq<string>, k: nat)
    requires DelimitedLayout(s, g) && k < |g|
    ensures forall i :: 0 <= i < |g[k]| ==> g[k][i] in s
    decreases k
  {
    var rest := s[|g[0]|..];
    if k == 0 {
      forall i | 0 <= i < |g[0]| ensures g[0][i] in s {
        assert g[0][i] == s[i];
      }
    } else if DelimitedLayout(rest, g[1..]) {
      LayoutCharsFrom(rest, g[1..], k - 1);
      forall i | 0 <= i < |g[k]| ensures g[k][i] in s {
        assert g[k] == g[1..][k - 1];
        var j :| 0 <= j < |rest| && rest[j] == g[k][i];
        assert s[|g[0]| + j] == rest[j];
      }
    } else {
      LayoutCharsFrom(rest[1..], g[1..], k - 1);
      forall i | 0 <= i < |g[k]| ensures g[k][i] in s {
        assert g[k] == g[1..][k - 1];
        var j :| 0 <= j < |rest[1..]| && rest[1..][j] == g[k][i];
        assert s[|g[0]| + 1 + j] == rest[1..][j];
      }
    }
  }

  /** The delimited pattern matches exactly when the input begins with six
      groups of one or two hex digits, each but the last followed by at most
      one `:` or `-`. */
  lemma MacAddressMatchesIff(s: string)
    ensures MatchMacAddress(s).Some? <==> exists g :: |g| == 6 && DelimitedLayout(s, g)
  {
    if g :| |g| == 6 && DelimitedLayout(s, g) {
      GroupsComplete(s, g);
    }
  }

  /** The delimited pattern captures `g` exactly when `g` is a six-group
      layout of the input and no other six-group layout comes before it in
      the search order: two digits before one, the earlier group first. */
  lemma MacAddressCapturesIff(s: string, g: seq<string>)
    ensures MatchMacAddress(s) == Some(g) <==>
      |g| == 6 && DelimitedLayout(s, g) &&
      forall h :: |h| == 6 && DelimitedLayout(s, h) ==> LexLe(Widths(h), Widths(g))
  {
    if |g| == 6 && DelimitedLayout(s, g) &&
       forall h :: |h| == 6 && DelimitedLayout(s, h) ==> LexLe(Widths(h), Widths(g))
    {
      GroupsComplete(s, g);
      var m := MatchMacAddress(s).value;
      assert LexLe(Widths(m), Widths(g));
      LexLeAntisymmetric(Widths(g), Widths(m));
      LayoutByWidths(s, g, m);
    }
  }

  // ---------------------------------------------------------------------
  // CISCO_MAC_ADDRESS_R:  ([0-9A-F]{,4})\.([0-9A-F]{,4})\.([0-9A-F]{,4})

  /** A capture of `[0-9A-F]{,4}` (possibly empty). */
  predicate IsRun(x: string) {
    |x| <= 4 && AllHex(x)
  }

  /** `s` begins with the runs `g` separated by single dots, and the last run
      is as long as the greedy repeat makes it: four digits, or up to a
      character that is not a hex digit, or up to the end. */
  ghost predicate CiscoLayout(s: string, g: seq<string>)
    decreases |g|
  {
    |g| >= 1 && IsRun(g[0]) && |g[0]| <= |s| && s[..|g[0]|] == g[0] &&
    (var rest := s[|g[0]|..];
     if |g| == 1 then |g[0]| == 4 || rest == [] || !IsHexDigit(rest[0])
     else rest != [] && rest[0] == '.' && CiscoLayout(rest[1..], g[1..]))
  }

  /** The last `n` runs of the pattern, with the first run tried at `w`
      digits and then, on backtracking, at fewer. */
  function MatchRun(s: string, w: nat, n: nat): (r: Option<seq<string>>)
    requires w <= 4 && n >= 1
    ensures r.Some? ==> |r.value| == n && |r.value[0]| <= w
    ensures r.Some? ==> forall k :: 0 <= k < n ==> IsRun(r.value[k])
    decreases n, 2, w
  {
    var attempt := RunAttempt(s, w, n);
    if attempt.Some? || w == 0 then attempt else MatchRun(s, w - 1, n)
  }

  /** The first run taken with exactly `w` digits. */
  function RunAttempt(s: string, w: nat, n: nat): (r: Option<seq<string>>)
    requires w <= 4 && n >= 1
    ensures r.Some? ==> |r.value| == n && w <= |s| && r.value[0] == s[..w] && IsRun(r.value[0])
    ensures r.Some? ==> forall k :: 0 <= k < n ==> IsRun(r.value[k])
    decreases n, 1, 0
  {
    if w <= |s| && AllHex(s[..w]) then Prepend(s[..w], AfterRun(s[w..], n)) else None
  }

  /** What follows a run: nothing more after the third, a `.` otherwise. */
  function AfterRun(rest: string, n: nat): (r: Option<seq<string>>)
    requires n >= 1
    ensures r.Some? ==> |r.value| == n - 1 && forall k :: 0 <= k < n - 1 ==> IsRun(r.value[k])
    decreases n, 0, 0
  {
    if n == 1 then Some([])
    else if |rest| > 0 && rest[0] == '.' then MatchRun(rest[1..], 4, n - 1)
    else None
  }

  /** `CISCO_MAC_ADDRESS_R.match(s)`. */
  function MatchCisco(s: string): (r: Option<seq<string>>)
    ensures r.Some? ==> |r.value| == 3 && forall k :: 0 <= k < 3 ==> IsRun(r.value[k])
  {
    MatchRun(s, 4, 3)
  }

  /** What backtracking returns has the layout, provided every wider first
      run was already tried and failed. */
  lemma {:induction false} RunSound(s: string, w: nat, n: nat)
    requires w <= 4 && n >= 1
    requires forall v :: w < v <= 4 ==> RunAttempt(s, v, n).None?
    ensures MatchRun(s, w, n).Some? ==> CiscoLayout(s, MatchRun(s, w, n).value)
    decreases n, w
  {
    var attempt := RunAttempt(s, w, n);
    if attempt.Some? {
      var rest := s[w..];
      var after := AfterRun(rest, n);
      assert attempt == Prepend(s[..w], after);
      if n > 1 {
        assert rest != [] && rest[0] == '.';
        RunSound(rest[1..], 4, n - 1);
        assert after == MatchRun(rest[1..], 4, n - 1);
        assert attempt.value[1..] == after.value;
      } else if w < 4 && rest != [] {
        assert RunAttempt(s, w + 1, n).None?;
        assert AfterRun(s[w + 1..], n).Some?;
        assert !AllHex(s[..w + 1]);
        assert s[..w + 1] == s[..w] + [rest[0]];
      }
    } else if w > 0 {
      RunSound(s, w - 1, n);
    }
  }

  /** On an input with the layout, backtracking returns exactly its runs:
      every wider first run fails, because the character after the run is a
      dot or is not a hex digit. */
  lemma {:induction false} RunExact(s: string, w: nat, g: seq<string>)
    requires CiscoLayout(s, g) && |g[0]| <= w <= 4
    ensures MatchRun(s, w, |g|) == Some(g)
    decreases |g|, w
  {
    var n := |g|;
    var k := |g[0]|;
    if w > k {
      if w <= |s| {
        assert s[..w][k] == s[k];
      }
      assert RunAttempt(s, w, n).None?;
      RunExact(s, w - 1, g);
    } else {
      var rest := s[k..];
      if n > 1 {
        RunExact(rest[1..], 4, g[1..]);
      }
      assert AfterRun(rest, n) == Some(g[1..]);
      assert [g[0]] + g[1..] == g;
    }
  }

  /** The Cisco pattern matches with captures `g` exactly when the input has
      the Cisco layout with runs `g`: the match is deterministic, every run
      being the longest hex prefix of at most four digits. */
  lemma CiscoMatchIff(s: string, g: seq<string>)
    ensures MatchCisco(s) == Some(g) <==> |g| == 3 && CiscoLayout(s, g)
  {
    RunSound(s, 4, 3);
    if |g| == 3 && CiscoLayout(s, g) {
      RunExact(s, 4, g);
    }
  }

  /** The Cisco pattern fails exactly when no Cisco layout fits the input. */
  lemma CiscoNoMatchIff(s: string)
    ensures MatchCisco(s).None? <==> forall g :: |g| == 3 ==> !CiscoLayout(s, g)
  {
    if MatchCisco(s).Some? {
      CiscoMatchIff(s, MatchCisco(s).value);
    }
    forall g | |g| == 3 && CiscoLayout(s, g) ensures MatchCisco(s).Some? {
      CiscoMatchIff(s, g);
    }
  }

  // ---------------------------------------------------------------------
  // What the matchers return on particular shapes of input

  /** `s` begins with `n` pairs of hex digits, each but the last followed by
      a `:` or `-`. */
  predicate DelimitedPairs(s: string, n: nat) {
    |s| >= 3 * n - 1 &&
    forall i :: 0 <= i < 3 * n - 1 ==> if i % 3 == 2 then IsDelimiter(s[i]) else IsHexDigit(s[i])
  }

  /** The two-digit groups at positions 0, 3, 6, ... */
  function PairsAt(s: string, n: nat): (r: seq<string>)
    requires |s| >= 3 * n - 1
    ensures |r| == n && forall k :: 0 <= k < n ==> |r[k]| == 2
  {
    seq(n, k requires 0 <= k < n => s[3 * k..3 * k + 2])
  }

  /** On delimited pairs the first, greedy path of the matcher succeeds:
      every group takes two digits and its delimiter. */
  lemma {:induction false} MatchDelimitedPairs(s: string, n: nat)
    requires n >= 1 && DelimitedPairs(s, n)
    ensures MatchGroupsFrom(s, n) == Some(PairsAt(s, n))
  {
    assert AllHex(s[..2]);
    if n == 1 {
      assert AfterGroup(s[2..], 1) == Some([]);
      assert PairsAt(s, 1) == [s[..2]] + [];
    } else {
      var rest := s[3..];
      forall i | 0 <= i < 3 * (n - 1) - 1
        ensures if i % 3 == 2 then IsDelimiter(rest[i]) else IsHexDigit(rest[i])
      {
        assert rest[i] == s[i + 3];
        assert (i + 3) % 3 == i % 3;
      }
      MatchDelimitedPairs(rest, n - 1);
      assert s[2..][1..] == rest;
      assert AfterGroup(s[2..], n) == Some(PairsAt(rest, n - 1));
      forall k | 1 <= k < n ensures PairsAt(s, n)[k] == PairsAt(rest, n - 1)[k - 1] {
        assert rest[3 * (k - 1)..3 * (k - 1) + 2] == s[3 * k..3 * k + 2];
      }
      assert PairsAt(s, n) == [s[..2]] + PairsAt(rest, n - 1);
    }
    assert MatchGroup(s, 2, n) == Some(PairsAt(s, n));
  }

  /** The two-digit groups of a run of digits without delimiters. */
  function BarePairs(s: string, n: nat): (r: seq<string>)
    requires |s| >= 2 * n
    ensures |r| == n && forall k :: 0 <= k < n ==> |r[k]| == 2
  {
    seq(n, k requires 0 <= k < n => s[2 * k..2 * k + 2])
  }

  /** On `2n` hex digits without delimiters every group takes two digits. */
  lemma {:induction false} MatchBarePairs(s: string, n: nat)
    requires n >= 1 && |s| >= 2 * n && AllHex(s[..2 * n])
    ensures MatchGroupsFrom(s, n) == Some(BarePairs(s, n))
  {
    assert s[..2] == s[..2 * n][..2];
    if n == 1 {
      assert AfterGroup(s[2..], 1) == Some([]);
      assert BarePairs(s, 1) == [s[..2]] + [];
    } else {
      var rest := s[2..];
      assert rest[..2 * (n - 1)] == s[..2 * n][2..];
      MatchBarePairs(rest, n - 1);
      assert !IsDelimiter(rest[0]) by { assert rest[0] == s[..2 * n][2]; }
      assert AfterGroup(rest, n) == Some(BarePairs(rest, n - 1));
      forall k | 1 <= k < n ensures BarePairs(s, n)[k] == BarePairs(rest, n - 1)[k - 1] {
        assert rest[2 * (k - 1)..2 * (k - 1) + 2] == s[2 * k..2 * k + 2];
      }
      assert BarePairs(s, n) == [s[..2]] + BarePairs(rest, n - 1);
    }
    assert MatchGroup(s, 2, n) == Some(BarePairs(s, n));
  }

  /** A first run has at most four digits and must be followed by a dot, so
      an input without a dot among its first five characters never matches
      the Cisco pattern. */
  lemma NoEarlyDotNoCisco(s: string)
    requires forall i :: 0 <= i < |s| && i <= 4 ==> s[i] != '.'
    ensures MatchCisco(s).None?
  {
    forall w | 0 <= w <= 4 ensures RunAttempt(s, w, 3).None? {
      if w <= |s| && AllHex(s[..w]) {
        assert AfterRun(s[w..], 3).None?;
      }
    }
    assert MatchRun(s, 0, 3).None?;
    assert MatchRun(s, 1, 3).None?;
    assert MatchRun(s, 2, 3).None?;
    assert MatchRun(s, 3, 3).None?;
  }


  /** Without a dot or a hex digit at the start no first run can be
      followed by a dot, so the Cisco pattern fails. */
  lemma NoLeadingRunNoCisco(s: string)
    requires s == [] || (!IsHexDigit(s[0]) && s[0] != '.')
    ensures MatchCisco(s).None?
  {
    forall w | 0 <= w <= 4 ensures RunAttempt(s, w, 3).None? {
      if 0 < w <= |s| {
        assert s[..w][0] == s[0];
      } else if w == 0 {
        assert s[w..] == s;
        assert AfterRun(s[w..], 3).None?;
      }
    }
    assert MatchRun(s, 0, 3).None?;
    assert MatchRun(s, 1, 3).None?;
    assert MatchRun(s, 2, 3).None?;
    assert MatchRun(s, 3, 3).None?;
  }

  /** Without a hex digit at the start there is no first group. */
  lemma NoLeadingGroupNoMatch(s: string)
    requires s == [] || !IsHexDigit(s[0])
    ensures MatchMacAddress(s).None?
  {
    if |s| >= 1 {
      assert s[..1][0] == s[0];
    }
    if |s| >= 2 {
      assert s[..2][0] == s[0];
    }
    assert MatchGroup(s, 1, 6).None?;
    assert MatchGroup(s, 2, 6).None?;
  }
}
