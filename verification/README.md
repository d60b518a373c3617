# Rule-processing core of the packet-classification toolkit, in Dafny

This project models the rule-processing core of `io/io.cpp`. That core reads ClassBench-style 5-tuple rule files and turns them into the forms the classifiers use.

- `StrSplit` tokenises a rule line. `Count1` counts set bits. `GetIp` and `GetIpStr` convert between dotted-quad text and a `uint32_t` address.
- `ReadRules` and `ReadRuletree` normalise each line's address and protocol fields into prefix-aligned ranges. They give priorities in decreasing file order and select rules by label.
- `GetPortMask` splits a port interval into aligned power-of-two blocks, using the table `port_bit_mask`. `RulesPortPrefix` replaces every rule by the cross product of its source-port and destination-port blocks.
- `UniqueRules` and `UniqueRulesIgnoreProtocol` keep the first rule of every key. The key is the rule with its priority zeroed, and for the second function also its protocol.
- The synthesis loop of `MegaFlowRules` builds one candidate rule per trace from four longest-prefix lookups and deduplicates the candidates. `CheckMegaFlowRules` then reports every pair of candidates whose prefix blocks overlap.
- `GenerateTraces` builds one probe packet per rule. `SameTrace` compares two packets.
- The byte-order helpers `htons`, `htonl`, `ntohs` and `ntohl` swap bytes.

Modules, one per file:

- `Bits` (bits.dfy): the `uint32_t` operators `&`, `|`, `>>` and `<<`, defined on naturals, with the arithmetic facts the rest relies on.
- `Results` (results.dfy): `Option` and `Result`.
- `RuleModel` (rule.dfy): `Field`, `Rule` and `Trace`, and what it means for a trace to match a rule. A rule's `range[d][0..1]` and `prefix_len[d]` become `Dim(d)`. The `label` field is called `tag`, because `label` is a Dafny keyword.
- `StrSplit`, `PopCount`, `IpAddr`, `ByteOrder`: the small helpers.
- `RuleParser` (parser.dfy): one line of a rule file, from already-converted numbers to a `Rule`, and the two readers.
- `PortMask` and `PortPrefix`: `GetPortMask` and `RulesPortPrefix`.
- `Dedup`: both deduplication functions. They share one reference definition, `KeepFirst`, and differ only in the key.
- `MegaFlow`: the synthesis loop and the containment check.
- `Traces`: `GenerateTraces` and `SameTrace`.

Decisions a reader should know:

- **Labels.** `ReadRules` returns the rules whose label is not 0. Rules with label 0 go into a local `rule_tree` list that the function never returns (io/io.cpp:101-106, 118). `ReadRuletree` returns the rules with label 1 (io/io.cpp:165-169, 182). `RuleParser.ReadersAgree` proves that the two readers return the same list when every label is 0 or 1.
- **Shift by 32.** When a looked-up prefix length is 0, the source shifts a `uint32_t` by 32 (io/io.cpp:349-350, 400-406). That is undefined behaviour in C++. Here `Shr` is the mathematical shift, so the masked field becomes 0 and the containment test of that dimension always passes. This is what a prefix length of 0 means.
- **Port conversion.** `RulesPortPrefix` passes the `uint32_t` port bounds to `GetPortMask(int, int)`. `PortPrefix.AsInt` models that conversion: values from `2^31` on become negative. `PortMask.PortAnd` models `&` on `int` for masks below `2^16`.
- **Lookups.** The tries behind the lookups are abstract. The lookup is the parameter `lpm(d, key)`, which returns a length in `0..32`. Ports are inserted with their prefix length plus 16, so a synthesised port field stores the matched length minus 16. The model also admits port lookups below 16, which the source does not rule out. They give negative port prefix lengths, exactly as the code would.

## Model

| member | source | states |
|---|---|---|
| Bits.BitAnd | io/io.cpp:83-84 | `&` on unsigned values, bit by bit from the least significant end; its result is at most either operand, and `BitAndLowMask` and `BitAndClears` give its meaning |
| Bits.BitOr | io/io.cpp:33 | `|` on unsigned values, bit by bit; its result lies between the larger operand and the sum, and `BitOrDisjoint` and `BitOrBound` give its meaning |
| Bits.Shr | io/io.cpp:38 | `>>` on an unsigned value: division by `2^s`, so a shift by the full width of a smaller value is 0 |
| Bits.Shl32 | io/io.cpp:33 | `<<` on a `uint32_t`: multiplication by `2^s` modulo `2^32` |
| StrSplit.Split | io/io.cpp:5-19 | the reference definition of the tokens: skip a delimiter, or take the longest delimiter-free prefix; `SplitString` proves the loop returns it |
| StrSplit.FindFirstOf | io/io.cpp:9-14 | `find_first_of`: the first index at or after `from` holding a delimiter, or none when no later character is one |
| StrSplit.SplitAtFirstDelimiter | io/io.cpp:10-14 | a delimiter at `i` with none before it ends a token `s[..i]` (none if `i == 0`), and splitting continues after it |
| StrSplit.SplitNoDelimiter | io/io.cpp:16-17 | a string without delimiters is one token, or none when it is empty |
| StrSplit.SplitString | io/io.cpp:5-19 | an empty pattern gives no tokens; otherwise the loop returns the tokens of `Split` |
| StrSplit.SplitTokensProper | io/io.cpp:11-17 | every token is non-empty and contains no delimiter character |
| StrSplit.SplitKeepsNonDelimiters | io/io.cpp:9-17 | the tokens concatenated are the input with every delimiter character removed |
| StrSplit.SplitJoin | io/io.cpp:5-19 | tokens joined by a delimiter character split back into the same tokens |
| PopCount.Count1 | io/io.cpp:21-28 | the number of set bits, by adding the low bit and halving; `Count1Bound`, `Count1AllOnes` and `Count1Complement` give its meaning |
| PopCount.Count1Bound | io/io.cpp:21-28 | a value below `2^k` has at most `k` set bits |
| PopCount.Count1AllOnes | io/io.cpp:21-28 | `2^k - 1` has exactly `k` set bits |
| PopCount.Count1Complement | io/io.cpp:21-28 | a `k`-bit value and its `k`-bit complement have `k` set bits between them |
| IpAddr.GetIp | io/io.cpp:30-34 | the shifts and ors on the four numbers `sscanf` read, in `uint32_t`; `GetIpValue` gives its meaning |
| IpAddr.GetIpStr | io/io.cpp:36-40 | `%d.%d.%d.%d` of the four octets; `GetIpStrIsJoin`, `SplitGetIpStr` and `DottedQuadOfGetIpStr` give its meaning |
| IpAddr.GetIpValue | io/io.cpp:30-34 | with octets below 256 the packed address is `a*2^24 + b*2^16 + c*2^8 + d` |
| IpAddr.LowByte | io/io.cpp:38 | `x & 255` is `x mod 256` |
| IpAddr.OctetsOfGetIp | io/io.cpp:30-40 | the four numbers printed for a packed address are the four octets it was packed from |
| IpAddr.OctetsDecompose | io/io.cpp:36-40 | every printed octet is below 256 and the address is their base-256 number |
| IpAddr.GetIpOfOctets | io/io.cpp:30-40 | packing the printed octets gives the address back |
| IpAddr.Dec | io/io.cpp:38 | `%d` of a number is a non-empty string of decimal digits |
| IpAddr.ParseDecOfDec | io/io.cpp:32-38 | reading back the printed decimal digits gives the number |
| IpAddr.GetIpStrIsJoin | io/io.cpp:36-40 | helper step, `GetIpStr` unfolded: the dotted quad is the four decimal fields joined with dots |
| IpAddr.SplitGetIpStr | io/io.cpp:36-40 | splitting the dotted quad on dots gives the four decimal fields |
| IpAddr.ParseDottedQuad | io/io.cpp:30-34 | reads four dot-separated decimal fields, each taken modulo `2^32` as `%u` stores it, and packs them with `GetIp`; its meaning is given by `IpAddr.DottedQuadOfGetIpStr` |
| IpAddr.DottedQuadOfGetIpStr | io/io.cpp:30-40 | reading the printed dotted quad back, as `%u.%u.%u.%u` does, gives the same address |
| RuleParser.IpMask | io/io.cpp:82 | the host mask of a prefix length; `IpMaskIsHostBits` gives its value |
| RuleParser.IpMaskIsHostBits | io/io.cpp:82 | `(1LL << (32 - len)) - 1` stored in 32 bits is `2^h - 1`, where `h` is `32 - len` for a positive length and 32 otherwise |
| RuleParser.MaskRange | io/io.cpp:83-84 | `low = x - (x & mask)` has no mask bit set and differs from `x` only in mask bits, so it is `x` with the mask bits cleared; `low <= x <= high = low + mask`, and an already clear `x` is kept |
| RuleParser.NormalizeIp | io/io.cpp:79-85 | the normalised address range keeps its prefix length and contains the given address |
| RuleParser.NormalizeIpAligned | io/io.cpp:79-85 | the range starts at a multiple of `2^h`, spans exactly `2^h` addresses, and an aligned address is unchanged |
| RuleParser.NormalizeIpBlock | io/io.cpp:79-85 | an address lies in the range exactly when it agrees with the given address above the `h` host bits |
| RuleParser.NormalizeProtocol | io/io.cpp:92-96 | protocol prefix length is `Count1` of the care mask; the lower end is the value with its don't-care bits cleared, and the range contains the value and spans the don't-care bits |
| RuleParser.ProtocolPartialMask | io/io.cpp:92-96 | value `0x15` with care mask `0x0F` gives the range `5..245` with prefix length 4 |
| RuleParser.CareMaskRoundTrip | io/io.cpp:93-96 | `255 - (255 - care)` in `uint32_t` gives the care mask back, so `prefix_len[4]` counts its bits |
| RuleParser.ProtocolBitsShareOut | io/io.cpp:93-96 | for an 8-bit care mask, the fixed bits and the free bits of the range add up to 8 |
| RuleParser.ProtocolExact | io/io.cpp:92-96 | care mask `0xFF` gives the single protocol value with prefix length 8 |
| RuleParser.ProtocolWildcard | io/io.cpp:92-96 | care mask 0 gives the full range `0..255` with prefix length 0 |
| RuleParser.FullByteMask | io/io.cpp:94-95 | masking a byte with 255 clears it and spans `0..255` |
| RuleParser.RuleOfLine | io/io.cpp:72-100 | each address range is the aligned block of `2^h` addresses holding the given address, with the given prefix length; the ports are the line's four numbers with prefix length 0; the protocol is `NormalizeProtocol` of the value and care mask, whose prefix length is `Count1` of the mask; the rule has the given priority and the last field as label |
| RuleParser.ParseRuleLine | io/io.cpp:74-96 | a line is read exactly when it has at least ten fields and shiftable prefix lengths; otherwise it names which check failed |
| RuleParser.FirstUnreadable | io/io.cpp:72-112 | the first line from `i` on that cannot be read, or none when all can |
| RuleParser.ParseLines | io/io.cpp:67-100 | all lines readable ⟺ success; line `k` of `n` then becomes the rule of that line with priority `n - k`; otherwise the first bad line is reported |
| RuleParser.ParsedPriorities | io/io.cpp:67-98 | priorities run from the line count down by one per line, so they strictly decrease |
| RuleParser.SelectByLabel | io/io.cpp:101-107 | the selection is never longer than the file; `SelectMembers`, `SelectMultiplicity`, `SelectConcat` and `SelectOne` give its meaning |
| RuleParser.SelectMembers | io/io.cpp:101-107 | a rule is in the selection exactly when it is in the file and its label passes |
| RuleParser.SelectMultiplicity | io/io.cpp:101-107 | every rule occurs in the selection as often as in the file when its label passes, and not at all otherwise |
| RuleParser.SelectKeepsPriorityOrder | io/io.cpp:98-107 | a file whose priorities decrease gives a selection whose priorities decrease |
| RuleParser.SelectCons | io/io.cpp:101-107 | helper step, one unfolding of the filter: the first rule is kept in front of the selection of the rest exactly when its label passes |
| RuleParser.SelectConcat | io/io.cpp:101-107 | the selection of two consecutive parts is the selection of the first followed by the selection of the second, so selected rules keep their relative order |
| RuleParser.SelectOne | io/io.cpp:101-107 | a single rule is selected exactly when its label passes |
| RuleParser.ReadRules | io/io.cpp:57-119 | fails exactly as line parsing does; otherwise returns exactly the parsed rules with label not 0, priorities decreasing |
| RuleParser.ReadRuletree | io/io.cpp:121-183 | fails exactly as line parsing does; otherwise returns exactly the parsed rules with label 1, priorities decreasing |
| RuleParser.SelectAgree | io/io.cpp:101-106 | two label filters that agree on every rule select the same list |
| RuleParser.ReadersAgree | io/io.cpp:101-169 | when every label is 0 or 1 the two readers return the same list |
| PortMask.PortBitMask | io/io.cpp:185-191 | the table `port_bit_mask`, written out row by row; `PortBitMaskLow` and `PortBitMaskHigh` give its meaning |
| PortMask.PortBitMaskLow | io/io.cpp:185-191 | row `i` of the table starts with `2^i - 1` |
| PortMask.PortBitMaskHigh | io/io.cpp:185-191 | row `i` of the table ends with the 16-bit mask of the bits above `i` |
| PortMask.BlockExponent | io/io.cpp:198-203 | the inner loop settles on a row in `i-1..16`, and a row it moved past keeps the block inside `end` |
| PortMask.BlockExponentStops | io/io.cpp:198-203 | the row chosen passes the test and the next row fails it |
| PortMask.FirstBlock | io/io.cpp:198-206 | the chosen block starts at `pos`, ends within `end`, and holds `2^(16 - prefix_len)` ports |
| PortMask.PortAnd | io/io.cpp:200 | `&` on a non-negative `int` and a 16-bit mask; `PortAndHigh` gives its meaning |
| PortMask.Fits | io/io.cpp:199-200 | the test of the inner loop; `FitsUnfold` and `FitsAligned` give its meaning |
| PortMask.FitsUnfold | io/io.cpp:199-200 | the test of row `i` is: the block ends within `end` and its two ends agree above bit `i` |
| PortMask.PortAndHigh | io/io.cpp:200 | masking a port with row `i`'s second column rounds it down to a multiple of `2^i` |
| PortMask.SameHighBits | io/io.cpp:200 | the two ends of a block of `2^i` agree above bit `i` exactly when it starts at a multiple of `2^i` |
| PortMask.FitsAligned | io/io.cpp:199-200 | in the port space, row `i` passes exactly when the block of `2^i` at `pos` is aligned and ends within `end` |
| PortMask.GetPortMask | io/io.cpp:193-211 | no blocks exactly for `start > end`; the first block starts at `start`, the last ends at `end`, each starts after the previous one, prefix lengths `0..16` |
| PortMask.GetPortMaskTiles | io/io.cpp:193-211 | the blocks tile `[start, end]` left to right |
| PortMask.TilesOrdered | io/io.cpp:204-208 | an earlier block lies wholly before a later one |
| PortMask.TilesCover | io/io.cpp:196-209 | a tiling covers exactly the ports of its interval |
| PortMask.CoverExact | io/io.cpp:193-211 | a port lies in some block exactly when it lies in `[start, end]` |
| PortMask.BlocksDisjoint | io/io.cpp:193-211 | no port lies in two blocks |
| PortMask.AlignedFitMonotone | io/io.cpp:198-202 | a block aligned to `2^b` inside `end` stays aligned and inside when it shrinks to `2^a` |
| PortMask.FirstBlockAligned | io/io.cpp:198-206 | the chosen block is aligned to its size, and the block twice its size would be misaligned or run past `end` |
| PortMask.LargestAlignedUnique | io/io.cpp:198-206 | at most one size is aligned and fitting while its double is not |
| PortMask.FirstBlockExact | io/io.cpp:198-206 | the chosen block is the largest aligned block of `2^e` that fits |
| PortMask.GetPortMaskUnfold | io/io.cpp:196-209 | helper step, one unfolding of the outer loop: the blocks are the first block followed by the blocks of the rest |
| PortMask.BlockIsFirst | io/io.cpp:196-209 | every block is the one the inner loop chooses at its own start |
| PortMask.BlockShape | io/io.cpp:204-206 | every block holds `2^(16 - prefix_len)` ports |
| PortMask.BlocksAlignedMaximal | io/io.cpp:193-211 | in the port space every block starts at a multiple of its size and could not have been doubled |
| PortMask.FullRangeSingleBlock | io/io.cpp:185-211 | `0..65535` is the single block of prefix length 0 |
| PortMask.BlockOfFour | io/io.cpp:193-211 | `0..3` is one block of prefix length 14 |
| PortMask.SinglePort | io/io.cpp:193-211 | `5..5` is one block of prefix length 16 |
| PortMask.BlockOfTwo | io/io.cpp:193-211 | `4..5` is one block of prefix length 15 |
| PortMask.FourThenTwo | io/io.cpp:193-211 | `0..5` is the blocks `0..3` and `4..5` |
| PortPrefix.AsInt | io/io.cpp:217-218 | a `uint32_t` port bound passed as `int`: values from `2^31` on become negative; `SmallRangeBlocks` covers the bounds below `2^31` |
| PortPrefix.Cross | io/io.cpp:221-234 | the rules of the two nested loops for one rule; `CrossShape`, `CrossCount` and `CrossCovers` give its meaning |
| PortPrefix.ExpandRule | io/io.cpp:216-235 | one input rule's expansion; `ExpandRuleCovers` and `ExpandRuleKeepsOtherFields` give its meaning |
| PortPrefix.ExpandAll | io/io.cpp:213-240 | the expansions of all rules in input order; `ExpandAllCovers` gives its meaning |
| PortPrefix.Row | io/io.cpp:222-234 | the inner loop emits one rule per destination block, each the rule with the two ports replaced |
| PortPrefix.ExpandOne | io/io.cpp:217-235 | the two nested loops emit the cross product of the blocks, source blocks outermost |
| PortPrefix.RulesPortPrefix | io/io.cpp:213-240 | the output is every input rule's cross product, in input order |
| PortPrefix.CrossLength | io/io.cpp:219-235 | one rule's cross product has `Times(|src blocks|, |dst blocks|)` rules, the repeated sum of the inner loop's counts |
| PortPrefix.TimesIsMul | io/io.cpp:219-221 | that repeated sum is the product |
| PortPrefix.CrossCount | io/io.cpp:219-235 | one rule's cross product has `|src blocks| × |dst blocks|` rules |
| PortPrefix.CrossIndex | io/io.cpp:221-232 | position `j·|dst| + k` holds the rule with source block `j` and destination block `k` |
| PortPrefix.CrossPosition | io/io.cpp:221-232 | every position is `j·|dst| + k` for one source block `j` and destination block `k` |
| PortPrefix.CrossShape | io/io.cpp:219-235 | length and per-position content of the cross product together |
| PortPrefix.CrossKeepsOtherFields | io/io.cpp:223-232 | every emitted rule equals its input except in the two port dimensions |
| PortPrefix.ExpandRuleKeepsOtherFields | io/io.cpp:216-235 | IP, protocol, priority and label of every emitted rule are the input's |
| PortPrefix.ToFieldSmall | io/io.cpp:226-232 | a block below `2^31` is stored unchanged |
| PortPrefix.MatchesWithPorts | io/io.cpp:226-232 | a trace matches an emitted rule exactly when it matches the input outside the ports and lies in both blocks |
| PortPrefix.CrossCoversIf | io/io.cpp:221-235 | a trace matching the input outside the ports and lying in some block of each port matches an emitted rule |
| PortPrefix.CrossCoversOnlyIf | io/io.cpp:221-235 | a trace matching an emitted rule matches the input outside the ports and lies in some block of each port |
| PortPrefix.CrossCovers | io/io.cpp:221-235 | both directions together |
| PortPrefix.SmallRangeBlocks | io/io.cpp:217-218 | for ports below `2^31` the conversion to `int` is the identity and every block stays below `2^31` |
| PortPrefix.ExpandRuleCovers | io/io.cpp:216-235 | a trace matches one of the rules emitted for `r` exactly when it matches `r` |
| PortPrefix.ExpandAllCovers | io/io.cpp:213-240 | a trace matches some output rule exactly when it matches some input rule |
| PortPrefix.SingleBlockUnchanged | io/io.cpp:216-235 | a rule whose port ranges are single blocks comes out as itself |
| PortPrefix.FullPortsUnchanged | io/io.cpp:216-235 | a rule with wildcard ports `0..65535` comes out as itself |
| Dedup.Key | io/io.cpp:248-249 | the rule with priority 0, the key of `UniqueRules`; `PriorityVariantsCollapse` gives its meaning |
| Dedup.KeyIgnoreProtocol | io/io.cpp:266-270 | the rule with priority 0 and protocol field `0..0` of length 0; `KeyIgnoreProtocolCoarser` and `ProtocolVariantsCollapse` give its meaning |
| Dedup.KeepFirst | io/io.cpp:242-279 | the first rule of every key, in input order; the `KeepFirst…` lemmas give its meaning |
| Dedup.UniqueBy | io/io.cpp:247-254 | the loop with a set of seen keys returns the first rule of every key, in input order |
| Dedup.UniqueRules | io/io.cpp:242-258 | the first rule of every priority-free key is kept, in input order |
| Dedup.UniqueRulesIgnoreProtocol | io/io.cpp:260-279 | the first rule of every key without priority and protocol is kept, in input order |
| Dedup.KeepFirstSnoc | io/io.cpp:250-253 | helper step, one unfolding of `KeepFirst`: the last rule is appended exactly when its key is new |
| Dedup.KeepFirstKeys | io/io.cpp:247-254 | the kept rules have exactly the keys of the input: every input key is represented |
| Dedup.KeepFirstDistinct | io/io.cpp:250-253 | no two kept rules share a key |
| Dedup.KeepFirstSubsequence | io/io.cpp:247-254 | the output is a subsequence of the input |
| Dedup.KeepFirstKeepsFirsts | io/io.cpp:250-253 | the first rule of every key is kept |
| Dedup.KeepFirstOnlyFirsts | io/io.cpp:250-253 | every kept rule is the first rule of its key |
| Dedup.KeepFirstOfDistinct | io/io.cpp:247-254 | a list whose keys are already distinct is returned whole |
| Dedup.KeepFirstIdempotent | io/io.cpp:242-258 | deduplicating the output again changes nothing |
| Dedup.KeepFirstCoarser | io/io.cpp:266-270 | a key that merges more rules never keeps more of them |
| Dedup.KeyIgnoreProtocolCoarser | io/io.cpp:266-270 | rules that agree without priority also agree without priority and protocol |
| Dedup.IgnoreProtocolKeepsFewer | io/io.cpp:242-279 | `UniqueRulesIgnoreProtocol` never returns more rules than `UniqueRules` on the same input |
| Dedup.PriorityVariantsCollapse | io/io.cpp:248-253 | two rules differing only in priority collapse to the first |
| Dedup.ProtocolVariantsCollapse | io/io.cpp:260-279 | two rules differing in protocol and priority collapse to the first when protocol is ignored, and stay two otherwise |
| MegaFlow.MegaFlowRules | io/io.cpp:384-414 | the loop returns each trace's candidate the first time it appears, in trace order |
| MegaFlow.Mask | io/io.cpp:400-406 | `(x >> (32 - len)) << (32 - len)` in `uint32_t`; `MaskBlock`, `MaskUnique` and `MaskSameTop` give its meaning |
| MegaFlow.Synthesize | io/io.cpp:399-407 | one trace's candidate rule; `SynthesizeShape` and `SameCandidate` give its meaning |
| MegaFlow.MaskBlock | io/io.cpp:400-406 | the masked value is a multiple of `2^(32 - len)` and the key lies in the block it starts |
| MegaFlow.MaskUnique | io/io.cpp:400-406 | that block condition determines the masked value |
| MegaFlow.MaskSameTop | io/io.cpp:400-406 | two keys mask to the same value exactly when they agree in the top `len` bits |
| MegaFlow.SynthesizeShape | io/io.cpp:399-407 | a candidate stores the matched lengths (minus 16 for ports), is aligned, holds its trace in every block, and leaves upper ends, protocol, priority and label at the default |
| MegaFlow.SameCandidate | io/io.cpp:399-410 | two traces give the same candidate exactly when all four lookups agree and the keys agree above the matched lengths |
| MegaFlow.CandidateKept | io/io.cpp:409-413 | every trace's candidate is emitted |
| MegaFlow.MegaFlowRulesProperties | io/io.cpp:384-414 | the emitted rules are pairwise different, include every trace's candidate, and each is the candidate of the first trace producing it |
| MegaFlow.MegaFlowRulesAligned | io/io.cpp:399-414 | every emitted rule has lengths in range and blocks aligned to their sizes |
| MegaFlow.MegaFlowRulesCover | io/io.cpp:384-414 | every trace lies in the blocks of its own candidate, which is emitted |
| MegaFlow.SameTop | io/io.cpp:346-350 | one dimension of the test, comparing the low ends shifted by `32` minus the shorter length; `SameTopIffMeet` gives its meaning |
| MegaFlow.Contain | io/io.cpp:344-352 | the test over all four dimensions; `ContainIffBlocksMeet` gives its meaning |
| MegaFlow.ContainFlag | io/io.cpp:344-352 | the loop over the four dimensions leaves `contain` true exactly when every dimension agrees above the shorter length |
| MegaFlow.CheckMegaFlowRules | io/io.cpp:340-357 | reports exactly the pairs `i < j` that pass the test, in printing order |
| MegaFlow.AlignedOrder | io/io.cpp:349-350 | two multiples of `q` less than `q` apart in that order are ordered |
| MegaFlow.SameTopIffMeetOrdered | io/io.cpp:346-350 | for aligned blocks, agreeing above the larger block's size is the same as the blocks meeting |
| MegaFlow.SameTopIffMeet | io/io.cpp:346-350 | the same for either order of the two sizes |
| MegaFlow.ContainIffBlocksMeet | io/io.cpp:343-353 | for aligned rules, the test passes exactly when the prefix blocks meet in all four dimensions |
| MegaFlow.ContainReflexive | io/io.cpp:344-351 | a rule passes the test against itself |
| MegaFlow.ContainSymmetric | io/io.cpp:344-351 | the test does not depend on the order of the pair |
| MegaFlow.MegaFlowRulesChecked | io/io.cpp:384-414 | synthesis followed by the check reports exactly the pairs of emitted rules whose blocks meet in all four dimensions |
| Traces.LowCorner | io/io.cpp:498-502 | the trace of one rule; `LowCornerKeys` gives its meaning |
| Traces.LowCornerKeys | io/io.cpp:498-502 | the generated trace's key `d` is the rule's `range[d][0]`, and it matches a rule whose ranges are non-empty |
| Traces.GenerateTraces | io/io.cpp:495-505 | one trace per rule, key `d` of trace `i` is `range[d][0]` of rule `i` |
| Traces.GeneratedTracesMatch | io/io.cpp:495-505 | on rules with non-empty ranges every generated trace matches its rule |
| Traces.KeysDetermineTrace | io/io.cpp:515-520 | two traces with the same five keys are the same trace |
| Traces.SameTrace | io/io.cpp:515-520 | the answer is true exactly when the two traces are equal |
| ByteOrder.Htons | io/io.cpp:663-665 | `htons`; `Swap16Bytes` and `NtohsHtons` give its meaning |
| ByteOrder.Htonl | io/io.cpp:667-669 | `htonl`, built on `htons`; `HtonlBytes` and `NtohlHtonl` give its meaning |
| ByteOrder.Ntohs | io/io.cpp:671-673 | `ntohs`; `Swap16Bytes` and `NtohsHtons` give its meaning |
| ByteOrder.Ntohl | io/io.cpp:675-677 | `ntohl`, built on `ntohs`; `NtohlBytes` and `NtohlHtonl` give its meaning |
| ByteOrder.Swap16Bytes | io/io.cpp:663-673 | `htons` and `ntohs` exchange the two bytes |
| ByteOrder.HtonlBytes | io/io.cpp:667-669 | `htonl` reverses the four bytes |
| ByteOrder.NtohlBytes | io/io.cpp:675-677 | `ntohl` reverses the four bytes |
| ByteOrder.NtohsHtons | io/io.cpp:663-673 | `ntohs(htons(x)) == x` |
| ByteOrder.NtohlHtonl | io/io.cpp:663-677 | `ntohl(htonl(x)) == x` |
| ByteOrder.Swap16Involution | io/io.cpp:663-673 | each 16-bit swap undoes itself, and `ntohs` is `htons` |
| ByteOrder.HtonlInvolution | io/io.cpp:663-669 | `htonl` undoes itself |
| ByteOrder.NtohlInvolution | io/io.cpp:671-677 | `ntohl` undoes itself |
| ByteOrder.NtohlIsHtonl | io/io.cpp:663-677 | `ntohl` and `htonl` are the same function |

## Left out

- File handling in `ReadRules`, `ReadRuletree` and `ReadTraces`: `fopen`, `fgets`, the skipped first character of each line, and the text-to-number conversions of `sscanf`, `atoi`, `strtoul` and `stoi`. A line enters the model as the numbers those calls return. A file that cannot be opened is I/O and is not modelled.
- The `rules_shuffle` parameter of both readers is dropped. Only the result of `ReadRules` is permuted, by `random_shuffle`, when `rules_shuffle > 0` (io/io.cpp:113-115); the model gives the unshuffled file order. `ReadRuletree` shuffles only its local `rules` list, which it discards (io/io.cpp:177-178, 182), so its result does not depend on `rules_shuffle`.
- `ReadTraces`: file reading only.
- The `Trie` class: it is not part of this model. Its lookup is the parameter `lpm`, and building the tries from the rules is left out.
- `GenerateAns` and `GenerateOneMatchRules`: they call the lookup engine `MultilayerTuple`, which is not part of this model.
- `PrintIp`, `PrintRule`, `PrintRules`, `PrintRulesPrefix`, `PrintRulesMegaFlow`, `PrintAns`, `PrintMegaFlowPacket` and `GenerateTSEMegaflowRules`: output formatting and file dumps. The `printf` of `CheckMegaFlowRules` is modelled as the returned list of pairs.
- `CalculatePrefixLength` and `CalculatePrefixLength2`: floating-point histograms written to files.
- `FreeRules`, `FreeTraces` and the `free_rules` flag of `RulesPortPrefix`: memory management, which values make moot.
- The layout of `Rule`, `Trace` and `PrefixRange` (field names, `uint32_t` ranges, `int` prefix lengths) comes from the repository's header `io/io.h`, which is not part of this model; the layout is assumed from how io/io.cpp uses the fields.
- The `Rule` ordering used by `map<Rule, int>`: it is not part of this model. Keys are compared by whole-record equality.
- RuleParser.ParseRuleLine: a line with fewer than ten fields, or with an address prefix length outside `-30..32`, is reported as an error. The source reads past the end of the field vector, or shifts by an undefined amount, in those cases.
- PortPrefix.ExpandRuleCovers: the match-preservation property is stated for port bounds below `2^31` only. Larger `uint32_t` bounds turn negative when converted to `int`, so the blocks no longer describe the original range.
- PortPrefix.ExpandAllCovers: the same restriction to port bounds below `2^31`.
- PortMask.GetPortMask: arithmetic on `int` is unbounded here. The 32-bit overflow of `pos + port_bit_mask[i][0]` for an `end` near `2^31 - 1` is not modelled.
- MegaFlow.Mask: the shift by 32 for a prefix length of 0 is modelled as the mathematical shift, giving 0. In C++ the result is undefined.
- MegaFlow.CheckMegaFlowRules: requires every looked-up length, with 16 added for ports, to lie in `0..32`. Other shift amounts are undefined in C++. `MegaFlowRulesAligned` proves that synthesised rules meet this requirement.
