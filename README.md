# SpoofMAC `util.py` in Dafny

This project models the MAC-address helpers of SpoofMAC (`spoofmac/util.py`) and proves properties about them:

- **The two regular expressions.**
  - `MAC_ADDRESS_R` has six groups `[0-9A-F]{1,2}`, each but the last followed by an optional `:` or `-`.
  - `CISCO_MAC_ADDRESS_R` has three runs `[0-9A-F]{,4}` separated by dots.
  - Both are compiled case-insensitively and used with `re.match`.
  - Each one is written out as the backtracking search Python's `re` engine performs:
    - matching is anchored at the start only;
    - greedy repeats are tried from the longest down;
    - the optional delimiter is consumed first and skipped on backtracking;
    - the first success wins.

  Beside each matcher stands a declarative description of the inputs it accepts (`DelimitedLayout`, `CiscoLayout`). Lemmas prove that matcher and description agree in both directions.
- **`_chunk(l, n)`**: the slices `l[i:i+n]` for `i` in `range(0, len(l), n)`.
- **`random_mac_address(local_admin)`**:
  - It is modelled as a method that builds the six octets, sets the universal/local bit with `mac[0] |= 2`, and formats them as `XX:XX:XX:XX:XX:XX`.
  - The three `random.randint` draws are parameters, restricted to the ranges `randint` returns.
- **`normalize_mac_address(mac)`**:
  - The Cisco pattern is tried first. Its runs are zero-filled to four digits, concatenated, cut into pairs, joined by colons and upper-cased.
  - Otherwise the delimited pattern is tried. Its groups are zero-filled to two digits, joined by colons and upper-cased.
  - Otherwise the result is `None`.

The modules:

- `Wrappers` holds `Option`.
- `Text` holds the Python string built-ins used: hex digits, `str.upper`, `str.zfill`, `str.join`.
- `Patterns` holds the two matchers.
- `Util` holds `_chunk`, the canonical form, `random_mac_address` and `normalize_mac_address`.
- `UtilExamples` works out the result on concrete inputs.

The central guarantees:

- **Canonical output.** Every string `normalize_mac_address` returns, and every string `random_mac_address` returns, has the canonical form: six pairs of upper-case hex digits separated by colons.
- **Formatting round trip.** `FormatMac` and `OctetValues` invert each other on the canonical form.
- **Normalisation is a projection.**
  - Canonical strings are fixed points.
  - Normalising twice gives the same result as normalising once.
  - Whatever `random_mac_address` generates normalises to itself.
- **Values on each path.**
  - On the Cisco path, octets `2j` and `2j+1` hold the value of run `j`.
  - On the delimited path, octet `k` holds the value of group `k`.
- **Which groups are captured.** The delimited pattern captures the first six-group layout in backtracking order: the one whose group widths are greatest in lexicographic order.
- **Exactly when the result is `None`.** `None` is returned exactly when neither layout fits the start of the input.

Some behaviour of the code as written deserves mention. The model follows the code in both cases:

- **Ten digits are accepted.**
  - `00:00:00:00:00` has only five two-digit groups, yet it is accepted. Backtracking lets the fifth group give up its second digit, so a sixth group exists.
  - The result is `00:00:00:00:00:00`. This is proved in `UtilExamples.TenDigitsExample`.
- **Six dot-separated octets take the Cisco path.**
  - The docstring lists `00.00.00.00.00.00` among the accepted formats. Such input matches the Cisco pattern on its first three runs, and each run is zero-filled to four digits.
  - `01.23.45.67.89.ab` therefore becomes `00:01:00:23:00:45`. This is proved in `UtilExamples.DottedOctetsExample`.
  - The all-zero example of the docstring happens to come out right.

## Model

| member | source | states |
|---|---|---|
| Patterns.MatchGroupsFrom | spoofmac/util.py:8-17 | whatever the backtracking delimited matcher returns for its last `n` groups is `n` captures laid out in the input as groups of one or two hex digits, each but the last followed by at most one `:`/`-`; which of several such layouts it returns is stated by `Patterns.GroupsGreedy` |
| Patterns.MatchGroup | spoofmac/util.py:9-14 | one group taken with exactly `w` digits: on success the first capture is `w` digits long and the captures have the delimited layout |
| Patterns.AfterGroup | spoofmac/util.py:9-14 | `[:-]?` after a group: what follows has the delimited layout either right after the group or after one consumed `:`/`-` |
| Patterns.MatchMacAddress | spoofmac/util.py:8-17 | `MAC_ADDRESS_R.match`: a match has exactly six captures with the delimited layout at the start of the input, and no other six-group layout has greater widths in lexicographic order (two digits tried before one, earlier groups first) |
| Patterns.GroupsComplete | spoofmac/util.py:8-17 | completeness of backtracking: whenever the input starts with groups in the delimited layout, the matcher finds a match |
| Patterns.MacAddressMatchesIff | spoofmac/util.py:8-17 | the delimited pattern matches if and only if the input starts with six groups in the delimited layout |
| Patterns.GroupsGreedy | spoofmac/util.py:8-17 | backtracking returns the first layout in its search order: for every layout `h` of the input, the widths of `h` are lexicographically no greater than those of the captures the matcher returns |
| Patterns.LayoutByWidths | spoofmac/util.py:8-17 | a delimited layout is fixed by its group widths, since a delimiter after a group can never be skipped |
| Patterns.MacAddressCapturesIff | spoofmac/util.py:8-17 | exact characterisation: the pattern captures `g` if and only if `g` is a six-group layout of the input and every six-group layout has lexicographically no greater widths |
| Patterns.LayoutCharsFrom | spoofmac/util.py:8-17 | every character of a captured group is a character of the input |
| Patterns.MatchDelimitedPairs | spoofmac/util.py:9-14 | on six two-digit groups separated by `:` or `-`, the greedy path wins and the captures are exactly those pairs |
| Patterns.MatchBarePairs | spoofmac/util.py:6-14 | on twelve hex digits without delimiters, every group takes two digits and the captures are the consecutive pairs |
| Patterns.NoLeadingGroupNoMatch | spoofmac/util.py:9 | an input that is empty or does not start with a hex digit never matches the delimited pattern |
| Patterns.MatchRun | spoofmac/util.py:20-23 | each capture of the Cisco matcher is a run of at most four hex digits, and there is one per remaining run |
| Patterns.RunAttempt | spoofmac/util.py:21 | the first run taken with exactly `w` digits: on success it is the input's first `w` characters, all hex, and every capture is a run |
| Patterns.AfterRun | spoofmac/util.py:21 | what follows a run: one capture fewer, every capture a run of at most four hex digits |
| Patterns.MatchCisco | spoofmac/util.py:20-23 | `CISCO_MAC_ADDRESS_R.match`: a match has exactly three captures, each a run of at most four hex digits |
| Patterns.RunSound | spoofmac/util.py:20-23 | soundness of backtracking: what the Cisco matcher returns is laid out in the input as runs separated by single dots, the last run maximal |
| Patterns.RunExact | spoofmac/util.py:20-23 | on an input with the Cisco layout, backtracking returns exactly its runs: every wider first run fails |
| Patterns.CiscoMatchIff | spoofmac/util.py:20-23 | the Cisco pattern returns captures `g` if and only if the input starts with the three runs `g` in the Cisco layout |
| Patterns.CiscoNoMatchIff | spoofmac/util.py:20-23 | the Cisco pattern fails if and only if no three runs fit the Cisco layout at the start of the input |
| Patterns.NoEarlyDotNoCisco | spoofmac/util.py:21 | without a dot among the first five characters, the Cisco pattern cannot match, since a run has at most four digits |
| Patterns.NoLeadingRunNoCisco | spoofmac/util.py:21 | an input that is empty, or starts with neither a hex digit nor a dot, never matches the Cisco pattern |
| Text.Join | spoofmac/util.py:72-77 | `sep.join(parts)`: empty for no parts; otherwise its length is the parts' total length plus one separator between each two, and it begins with the first part (`Text.JoinPairs` gives the colon-joined pairs exactly) |
| Text.Upper | spoofmac/util.py:73-77 | `str.upper`: same length, each character upper-cased, and a hex string becomes an upper-case hex string |
| Text.HexDigit | spoofmac/util.py:57 | the `X` format of a value below 16 is an upper-case hex digit with that value |
| Text.ZFill | spoofmac/util.py:72 | `str.zfill`: the length is at least the width; without a sign the input is kept after the added zeros; a hex string keeps its value |
| Text.LeadingZeros | spoofmac/util.py:72 | zeros added on the left keep a hex string's digits and value |
| Text.JoinPairs | spoofmac/util.py:77 | `':'.join` of two-character parts has length `3n-1`, holds the colon at every third position, and otherwise holds part `i/3`'s character `i%3` |
| Util.ChunkFrom | spoofmac/util.py:26-27 | the slices from position `i` are non-empty and at most `n` long, all but the last exactly `n` long; there are none once `i` reaches the end |
| Util.Chunk | spoofmac/util.py:26-27 | `_chunk(l, n)` is empty exactly when `l` is; every chunk is non-empty and at most `n` long, and all but the last are exactly `n` long |
| Util.ChunkFlatten | spoofmac/util.py:26-27 | concatenating the chunks gives back the sequence |
| Util.ChunkPairs | spoofmac/util.py:26-27 | a sequence of even length is cut into its consecutive pairs, `l[2k:2k+2]` being chunk `k` |
| Util.FormatOctet | spoofmac/util.py:57 | `'{0:02X}'.format(o)` for an octet is two upper-case hex digits whose value is `o` |
| Util.FormatMac | spoofmac/util.py:57 | six octets formatted and joined by colons give a canonical address that reads back as the same octets |
| Util.FormatOctetValues | spoofmac/util.py:57 | the other half of the round trip: every canonical address is the formatting of its octets |
| Util.CanonicalEqual | spoofmac/util.py:57 | a canonical address is determined by its octets |
| Util.SetLocalBit | spoofmac/util.py:55 | `o \| 2` on an octet stays an octet, has the universal/local bit set, and leaves every other bit as it was |
| Util.RandomMacAddress | spoofmac/util.py:30-57 | the result is canonical; its octets are `00` or `02` (by `local_admin`, which defaults to true), `05`, `69` and the three draws; it is locally administered exactly when `local_admin` is set; and it normalises to itself |
| Util.ZFillEach | spoofmac/util.py:72-77 | `[g.zfill(width) for g in groups]`: one result per group, and a hex group keeps its value and is padded to at least `width` digits |
| Util.NormalizeMacAddress | spoofmac/util.py:60-79 | `normalize_mac_address`: every string it returns is canonical; its values are stated by `Util.NormalizeCisco` and `Util.NormalizeDelimited`, its `None` case by `Util.NormalizeNoneIff` |
| Util.UpperJoinedPairs | spoofmac/util.py:77 | six two-digit hex parts joined by colons and upper-cased give a canonical address whose octet `k` is the value of part `k` |
| Util.PaddedRuns | spoofmac/util.py:72 | the three runs zero-filled to four digits and concatenated are twelve hex digits, run `j` filling positions `4j` to `4j+3` |
| Util.ChunkedDigits | spoofmac/util.py:73 | twelve hex digits cut into pairs, joined by colons and upper-cased give a canonical address; octets `2j` and `2j+1` hold the value of the digits `4j` to `4j+3` |
| Util.NormalizeCisco | spoofmac/util.py:70-73 | on the Cisco path the result is canonical, and octets `2j` and `2j+1` are the high and low byte of run `j`'s value |
| Util.NormalizeDelimited | spoofmac/util.py:75-77 | on the delimited path the result is canonical, and octet `k` is the value of group `k` |
| Util.NormalizeDelimitedPairs | spoofmac/util.py:75-77 | six two-digit groups separated by `:` or `-` come back with colons in the delimiter positions and every digit upper-cased; trailing text is ignored |
| Util.NormalizeBarePairs | spoofmac/util.py:75-77 | twelve hex digits without delimiters come back cut into pairs, joined by colons and upper-cased; trailing text is ignored |
| Util.NormalizeNoneIff | spoofmac/util.py:70-79 | `None` is returned if and only if neither a Cisco layout nor a delimited layout fits the start of the input |
| Util.NormalizeRejectsBadStart | spoofmac/util.py:70-79 | an input that is empty, or starts with neither a hex digit nor a dot, gives `None` |
| Util.NormalizeFixesCanonical | spoofmac/util.py:60-79 | a canonical address normalises to itself |
| Util.NormalizeIdempotent | spoofmac/util.py:60-79 | normalising a returned address gives it back unchanged |
| UtilExamples.CiscoExample | spoofmac/util.py:18-19 | `0123.4567.89ab` normalises to `01:23:45:67:89:AB` |
| UtilExamples.DashedExample | spoofmac/util.py:6-7 | `00-1A-2B-3C-4D-5E` normalises to `00:1A:2B:3C:4D:5E` |
| UtilExamples.BareExample | spoofmac/util.py:6-7 | `1a2b3c4d5e6f` normalises to `1A:2B:3C:4D:5E:6F` |
| UtilExamples.TenDigitsExample | spoofmac/util.py:8-17 | the five-group input `00:00:00:00:00` is accepted and normalises to `00:00:00:00:00:00` |
| UtilExamples.NotHexExample | spoofmac/util.py:75-79 | `zz:zz:zz:zz:zz:zz` and `not-a-mac` give `None` |
| UtilExamples.TrailingTextExample | spoofmac/util.py:75-77 | `00:11:22:33:44:55extra` normalises to `00:11:22:33:44:55`, since `re.match` is anchored at the start only |
| UtilExamples.DefaultRandomMacAddress | spoofmac/util.py:30-55 | `random_mac_address()` with the default argument gives a locally administered address whose text starts `02:` |
| UtilExamples.DottedOctetsExample | spoofmac/util.py:60-73 | `01.23.45.67.89.ab` takes the Cisco path on its first three runs and normalises to `00:01:00:23:00:45` |

## Left out

- `random` is not modelled. The three `random.randint` draws are parameters of `Util.RandomMacAddress`, and its preconditions state the ranges `randint` returns.
- Python's general `re` engine is not modelled. Only the two fixed patterns are, written out as the searches the engine performs for them.
- The `re.VERBOSE` flag only lets the pattern be spread over lines, so it has no counterpart in the model.
- `__all__` and the module imports are not modelled, because they carry no behaviour.
- `Text.UpperChar` models `str.upper` for ASCII letters only. Only hex digits and `:` reach it in these functions.
- `Util.SetLocalBit` models `mac[0] |= 2` arithmetically on octets rather than on Python's unbounded bitwise integers. The first octet is always `0x00` when it is applied.
- `Util.Chunk` requires `n > 0`; Python raises `ValueError` from `range` for `n == 0`, which the only caller (chunks of 2) never passes.
- `Util.FormatOctet` is defined only for values 0 to 255. `random_mac_address` never formats anything else.
- The model takes strings as sequences of characters. Python would raise `TypeError` for a non-string argument, and that error is not modelled.
