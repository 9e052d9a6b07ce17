# UnrealIRCd modules: nick collation and server statistics configuration

A Dafny model of three third-party UnrealIRCd 6 modules:

- **nickcollator** refuses a `/NICK` change when the new nick is equivalent to
  a nick already in use. Equivalence is decided in two stages. First a
  substitution pass rewrites both nicks in their UTF-16 buffers: for every
  configured mapping group, every member is replaced by every other member,
  pair by pair. Then the two folded nicks are compared, exactly when
  `collator_strength` is `off` and with an ICU collator otherwise. The
  configuration block `nickcollator { collator_strength ...; mapping { "a, b"; }; }`
  is checked by one hook and loaded by another.
- **socketstats** and **wwwstats** publish server statistics. What is modelled
  is the code the two modules share line for line: the parser of the `nicks`
  list, the three configuration hooks of the block that holds `socket-path`
  and `nicks`, and the per-message counters. socketstats also has the rule
  that picks the host's public IPv4 and IPv6 address from the interface list.

The model is imperative where the C code is:

- The two nicks being compared live in `array<UChar>` buffers of their C
  capacity, 100 units, and the substitution pass rewrites those buffers.
  A group member is converted into a value (`FromUtf8`) that is checked against
  the 10-unit capacity of `u_from` / `u_to`. It becomes a sequence of code units,
  not an array.
- The substitution pass rewrites the buffer in place with the same
  `u_strstr` / `u_memmove` / `u_memcpy` loop.
- The module's global configuration is a class whose methods are the hooks.
- `parse_nick_list` allocates and fills an array of slots.

Each method is proved against a specification function over values: `Replace`,
`Canon`, `Compare`, `Decide`, `LoadItems` and `BlockErrors` for nickcollator;
`Slots`, `TestErrors` and `LastValue` for the stats modules; `FirstAccepted`
for the address rule. The lemmas prove what the modules promise about those
functions.

Files:

- `wrappers.dfy`: an `Option` type.
- `ustring.dfy`: NUL-terminated UTF-16 buffers, the ICU string routines the
  collator calls, and the reference definition of left-to-right replacement.
- `configfile.dfy`: configuration entries, `strcasecmp`, and `strtok` with the
  token list it produces.
- `nickcollator.dfy`: the nickcollator module.
- `stats.dfy`: the code shared by socketstats and wwwstats, as one class
  `StatsConfig` whose block name is a constructor argument.
- `socketstats.dfy` and `wwwstats.dfy`: each module's own state and constants,
  plus socketstats' address selection.

Two points about failed conversions:

- **Conversion failure.** If a nick cannot be converted to UTF-16,
  `compare_nicks` returns 0, the value that means "equivalent"
  (nickcollator/nickcollator.c:161-163). It does not report the pair as
  different. So a nick that fails conversion is equivalent to every nick, and
  because the first comparison is against the caller's own nick, `override_nick`
  passes such a change on (`CompareConversionFailure`, `DecideSelfRename`).
- **Shared status.** The ICU status in `apply_collator_mapping` is set once per
  call and never cleared. The first member that fails to convert therefore ends
  the whole pass for that call, not just its own pair.

Behaviour of the code that the proofs make visible:

- **IPv6 link-local test.** It is a text-prefix test. A text of the form
  `fe` plus two characters is excluded exactly when those two are `80`. So of
  the link-local spellings `fe80`…`febf` only `fe80` is excluded, and
  `fe81::1` or `febf::1` are accepted (`LinkLocalExcludedOnlyFe80`).
- **IPv6 loopback test.** The `::1` test excludes every text that starts
  with `::1`, such as `::1f` or `::1:2`, not just the loopback address
  (`LoopbackPrefixExcluded`).
- **IPv4 test.** For dotted quads the IPv4 prefix test is exactly the
  private-range test of RFC 1918, section 3 (`PrivateQuadIsRfc1918`).
- **Nick slots.** `parse_nick_list` never cuts the list short. The nicks always
  fit in `num_nicks` slots, and slots stay NULL exactly when the list has an
  empty field (`NickListShape`).
- **Empty groups.** A mapping entry made only of separators yields a group with
  no members, and a single word yields a one-member group. Both are loaded
  without error, and the substitution pass goes straight on to the next group
  (`SmallGroupNoop`).
  `AddMapping` and `LoadMappings` use the token list, which may be empty.
- **Overlapping groups.** Groups are applied one after the other and never
  merged. With groups `{a, b}` and `{b, c}`, a `c` folds to `b` while a `b`
  folds to `a`. So the whole pass is not idempotent once groups share a
  member, and `c` and `a` are not equivalent even though both are linked to `b`
  (`OverlappingGroupsChain`). Idempotence is proved only for one group of
  distinct single-unit members (`SingleGroupPass`, `CollapseIdempotent`).

## Model

| member | source | states |
|---|---|---|
| UString.Find | nickcollator/nickcollator.c:133 | a found position is an occurrence of the member at or after the start |
| UString.FindIsFirst | nickcollator/nickcollator.c:133 | the position found is the first occurrence from the start on, so no earlier position holds one, and None means there is no occurrence from the start on |
| UString.StrStr | nickcollator/nickcollator.c:142 | the `u_strstr` scan of the terminated buffer from a start position finds exactly the first occurrence `Find` defines, or reports none |
| UString.MatchAt | nickcollator/nickcollator.c:133 | comparing the member against the buffer at one position, stopping at the terminator, answers whether the member occurs there |
| UString.StrLen | nickcollator/nickcollator.c:136 | `u_strlen` from an offset is the number of code units from the offset to the terminator |
| UString.MemMove | nickcollator/nickcollator.c:136 | `u_memmove` with overlap: the target range holds the old source range, and every other cell is unchanged |
| UString.MemCpy | nickcollator/nickcollator.c:139 | `u_memcpy`: the target range holds the replacement, and every other cell is unchanged |
| UString.StrEquals | nickcollator/nickcollator.c:171 | `u_strcmp(...) == 0` holds exactly when the two terminated strings are equal |
| UString.ReplaceNoOccurrence | nickcollator/nickcollator.c:133-134 | when `u_strstr` finds nothing, the rest of the string is left as it is |
| UString.ReplaceAtFirstOccurrence | nickcollator/nickcollator.c:133-143 | replacing from a position equals keeping the text up to the first occurrence, writing the target over it, and carrying on after the source member |
| UString.ReplaceGrows | nickcollator/nickcollator.c:136 | a target at least as long as the source never shortens the string, which is why growth can overrun the buffer |
| UString.ReplaceUnit | nickcollator/nickcollator.c:133-143 | replacing one code unit by another keeps the length, turns every source unit into the target and leaves every other unit in place |
| UString.NoSourceLeft | nickcollator/nickcollator.c:133-143 | after replacing a unit by a different unit, no occurrence of the source unit remains |
| ConfigFile.StrTok | nickcollator/nickcollator.c:303-313 | one `strtok` call with its saved position: it skips the delimiters, then returns the text up to the next delimiter and the position just past that delimiter, or NULL when only delimiters are left; `strtok_r` at socketstats/socketstats.c:90-94 is the same call |
| ConfigFile.EqualsIgnoreCase | nickcollator/nickcollator.c:263-275 | `strcasecmp(a, b) == 0`: equal lengths, and equal characters after ASCII lower-casing |
| ConfigFile.StrTokNext | nickcollator/nickcollator.c:303-313 | each `strtok` call returns the next token of the remaining text and advances its position strictly; when it returns NULL no token is left |
| ConfigFile.TokensAreWords | nickcollator/nickcollator.c:303-313 | every token is non-empty and contains no delimiter |
| ConfigFile.TokensOfJoin | nickcollator/nickcollator.c:302-313 | tokenising non-empty, delimiter-free words joined by a delimiter gives the words back, in order |
| ConfigFile.FieldsOfJoin | socketstats/socketstats.c:90-94 | splitting a join of delimiter-free parts at the delimiter gives the parts back, empty parts included |
| ConfigFile.FieldsCount | socketstats/socketstats.c:80-85 | a string has one more field than it has separators |
| ConfigFile.TokensCount | socketstats/socketstats.c:87-95 | there are at most one more tokens than separators, and strictly fewer exactly when some field is empty |
| NickCollator.FromUtf8 | nickcollator/nickcollator.c:125-126 | `u_strFromUTF8` into a buffer of a given capacity: a failure for ill-formed input or output longer than the buffer, the code units terminated when they are shorter than the buffer, and unterminated when they fill it exactly; the calls at 158-159 are the same |
| NickCollator.StrFromUtf8 | nickcollator/nickcollator.c:125-126 | `u_strFromUTF8` with a shared status: if the status had already failed it writes nothing and stays failed; otherwise it fails on ill-formed input or overflow; otherwise it writes the code units to the front of the buffer, followed by a terminator when they are shorter than the buffer |
| NickCollator.Splice | nickcollator/nickcollator.c:136-139 | the memmove/memcpy pair leaves the buffer holding the text before the match, then the target, then the text after the source member, terminated |
| NickCollator.ReplaceStep | nickcollator/nickcollator.c:136-142 | one splice followed by resuming at `pos + to_len` keeps "done prefix + replacement of the rest" equal to the full left-to-right replacement |
| NickCollator.ReplaceAt | nickcollator/nickcollator.c:136-142 | one pass of the loop body splices the target over the match in place (text before the match, then the target, then the text after the source member) and resumes at `pos + to_len`; the work left shrinks strictly, and "done prefix + replacement of the rest" is kept |
| NickCollator.ReplaceOccurrences | nickcollator/nickcollator.c:133-143 | the `while (pos)` loop terminates, even when the target contains the source, and leaves the buffer holding exactly `Replace(s, from, to)` |
| NickCollator.PairStep | nickcollator/nickcollator.c:117-142 | one directed pair (j, k): skipped once the shared status has failed; a failure of either conversion fails the status and leaves the text; otherwise every occurrence of member j is replaced by member k; undefined (None) for an unterminated or empty `u_from` or a result that outgrows the buffer |
| NickCollator.Run | nickcollator/nickcollator.c:113-146 | the three nested loops from group i, member j, member k on: groups in order, j outer, k inner, the pair j = k skipped, and PairStep applied to each other pair in that order |
| NickCollator.Canon | nickcollator/nickcollator.c:109-147 | a whole `apply_collator_mapping` call: Run from the first group with a clean status |
| NickCollator.SmallGroupNoop | nickcollator/nickcollator.c:115-117 | a group with no member or one member has no pair with j != k, so the pass goes on to the next group with the state unchanged |
| NickCollator.FailedStatusSkipsRest | nickcollator/nickcollator.c:128-130 | once the status has failed, the rest of the pass leaves the string unchanged and the status failed |
| NickCollator.MemberFailureEndsPass | nickcollator/nickcollator.c:120-130 | a member that fails to convert fails the status, and every later pair of the call is skipped with the string unchanged |
| NickCollator.GroupRun | nickcollator/nickcollator.c:115-144 | over a group of distinct single-unit members, the pair loops act on each code unit on its own, keep the length, never fail the status, and then the pass carries on at the next group |
| NickCollator.UnitRunCollapses | nickcollator/nickcollator.c:115-144 | with the j-outer/k-inner order, a code unit that is a member of the group ends up as the group's first member, and any other unit is untouched |
| NickCollator.PointwiseCollapses | nickcollator/nickcollator.c:115-144 | the pass over one single-unit group maps every member in the string to the first member and leaves the rest alone |
| NickCollator.RunCollapses | nickcollator/nickcollator.c:113-146 | for groups of distinct single-unit members, the pass from a group on maps each group's members to its first member, group after group |
| NickCollator.CanonOfSingleUnitGroups | nickcollator/nickcollator.c:109-147 | for such groups the whole pass succeeds and its result is that group-by-group collapse |
| NickCollator.SingleGroupPass | nickcollator/nickcollator.c:115-144 | for one group of distinct single-unit members: length is kept, no member other than the first occurs afterwards, and running the group again gives the same string |
| NickCollator.CollapseEqual | nickcollator/nickcollator.c:115-144 | two strings fold to the same string exactly when they agree everywhere except at positions where both hold some member of the group |
| NickCollator.CollapseIdempotent | nickcollator/nickcollator.c:115-144 | folding an already folded string changes nothing |
| NickCollator.OverlappingGroupsChain | nickcollator/nickcollator.c:113-146 | with groups {a, b} and {b, c} the groups are applied in turn: `c` folds to `b` and `b` folds to `a`, so the pass is not idempotent across groups that share a member |
| NickCollator.Compare | nickcollator/nickcollator.c:151-176 | `compare_nicks`: 0 when either nick fails to convert into its 100-unit buffer; otherwise both are folded, then compared exactly (0 or 1) when the strength is off and with the collator otherwise; undefined (None) for an unterminated buffer or a fold without a defined outcome |
| NickCollator.CompareConversionFailure | nickcollator/nickcollator.c:158-163 | if either nick fails to convert into its 100-unit buffer, the result is 0, "equivalent" |
| NickCollator.CompareOffIsEquivalence | nickcollator/nickcollator.c:166-171 | with strength off the result is 0 or 1, the same with the nicks swapped, and 0 for a nick compared with itself, for any mapping table |
| NickCollator.CompareWithoutMappings | nickcollator/nickcollator.c:158-175 | with no mapping groups, strength off means exact equality of the converted nicks, and any other strength is the collator applied to them |
| NickCollator.CompareOffSingleGroup | nickcollator/nickcollator.c:158-171 | with strength off and one single-unit group, two nicks compare 0 exactly when they differ only by exchanging members of the group, and 1 otherwise |
| NickCollator.ScanClients | nickcollator/nickcollator.c:192-201 | the client-list loop: the first client whose nick compares 0 gives ERR_NICKNAMEINUSE with the new nick; if none does, the command is passed on |
| NickCollator.Decide | nickcollator/nickcollator.c:179-202 | `override_nick`: a nick that compares 0 with the caller's own is passed on at once; otherwise the client scan decides |
| NickCollator.DecideSelfRename | nickcollator/nickcollator.c:183-187 | a nick equivalent to the caller's own is passed on whatever the client list holds |
| NickCollator.ScanFinds | nickcollator/nickcollator.c:192-201 | the client scan answers nick-in-use for the new nick exactly when some client's nick compares 0, and passes on otherwise |
| NickCollator.DecideCollision | nickcollator/nickcollator.c:183-201 | when the new nick is not equivalent to the caller's own, it is refused with a single nick-in-use reply carrying the new nick exactly when some client's nick is equivalent, and passed on otherwise |
| NickCollator.StrengthOf | nickcollator/nickcollator.c:263-279 | the `strcasecmp` chain: off gives -1; primary, secondary, tertiary, quaternary and identical give their `UCOL_*` values; any other keyword gives none (the test hook's check at 219-226 asks the same chain whether a keyword is known) |
| NickCollator.StrengthOfProperties | nickcollator/nickcollator.c:263-279 | keywords are matched case-insensitively, and a recognised keyword selects off (-1) or a `UCOL_*` strength; a keyword is rejected exactly when it matches none of the six keywords without regard to case |
| NickCollator.MappingErrors | nickcollator/nickcollator.c:232-240 | one error per mapping entry with no name or an empty one |
| NickCollator.ItemErrors | nickcollator/nickcollator.c:218-241 | a `collator_strength` item has one error if its keyword is unknown; a `mapping` item has its entries' errors; any other item has none |
| NickCollator.BlockErrors | nickcollator/nickcollator.c:217-244 | the error count the test hook reports: its items' errors summed in file order |
| NickCollator.LoadMappings | nickcollator/nickcollator.c:283-316 | mapping entries in file order: each appends one group of its `strtok` tokens, and a blank entry stops the run with failure, keeping the groups appended so far |
| NickCollator.LoadItem | nickcollator/nickcollator.c:262-317 | one item of the run hook: an unknown strength keyword fails; a known one sets the strength; a mapping item loads its entries; any other item changes nothing |
| NickCollator.LoadItems | nickcollator/nickcollator.c:261-319 | the run hook's loop: items in file order, returning at the first failure with the state reached so far |
| NickCollator.BlockGroups | nickcollator/nickcollator.c:283-316 | the groups a block declares: each mapping entry's tokens, in file order |
| NickCollator.LastStrength | nickcollator/nickcollator.c:262-279 | the strength after a block: that of the last `collator_strength` item with a known keyword, or the earlier one if there is none |
| NickCollator.LoadMappingsAgrees | nickcollator/nickcollator.c:283-316 | loading the mapping entries succeeds exactly when none is blank, and then appends one group per entry, in order, holding that entry's tokens of ", " |
| NickCollator.LoadItemAgrees | nickcollator/nickcollator.c:262-317 | loading one item succeeds exactly when the test hook counts no error for it, and then sets the strength it names or appends the groups it declares |
| NickCollator.ConfigRunAgreesWithTest | nickcollator/nickcollator.c:207-320 | the run hook returns 1 exactly when the test hook counts no errors, and then holds the old groups followed by the block's groups in file order, with the last strength keyword's value |
| NickCollator.CollatorConfig.constructor | nickcollator/nickcollator.c:323-324 | the configuration starts zeroed, as MOD_TEST's memset leaves it: no groups, no mapping seen, strength 0 |
| NickCollator.CollatorConfig.SetCfg | nickcollator/nickcollator.c:75-80 | `setcfg` empties the groups, clears `got_mapping` and sets the strength to off (-1) |
| NickCollator.CollatorConfig.ApplyCollatorMapping | nickcollator/nickcollator.c:109-147 | the three nested loops with a shared status leave the buffer holding the folded string `Canon` defines, terminated |
| NickCollator.CollatorConfig.CompareNicks | nickcollator/nickcollator.c:151-176 | `compare_nicks` converts both nicks into 100-unit buffers with one shared status, folds both and returns what `Compare` specifies |
| NickCollator.CollatorConfig.OverrideNick | nickcollator/nickcollator.c:179-202 | the override checks the caller's own nick first, then scans the client list and stops at the first equivalent nick, with the reply `Decide` specifies |
| NickCollator.CollatorConfig.ConfigTest | nickcollator/nickcollator.c:207-248 | 0 for a foreign block; otherwise one error per unknown strength keyword and per blank mapping entry, -1 exactly when there is an error and 1 otherwise, and `got_mapping` set when a mapping item is present and kept otherwise |
| NickCollator.CollatorConfig.AddMapping | nickcollator/nickcollator.c:289-315 | appending a mapping entry adds exactly one group, the entry's `strtok` tokens of ", " in order, and leaves the earlier groups as they were |
| NickCollator.CollatorConfig.ConfigRun | nickcollator/nickcollator.c:251-320 | 0 and nothing changed for a foreign block; otherwise the state and the 1/-1 result are those of `LoadItems`, so loading stops at the first error |
| StatsCommon.SlotCount | socketstats/socketstats.c:80-85 | `num_nicks`: one more than the number of commas in the list |
| StatsCommon.NickList | socketstats/socketstats.c:89-95 | the stored nicks: the comma tokens of the list in order, each without its leading blanks |
| StatsCommon.Slots | socketstats/socketstats.c:87-95 | `selected_nicks` after parsing: the nicks in order, then NULL in the remaining slots of the zeroed array |
| StatsCommon.StripLeading | socketstats/socketstats.c:92 | the stored nick is the token with its leading blanks removed and everything else kept |
| StatsCommon.StripLeadingSuffix | socketstats/socketstats.c:92 | the stored nick is a suffix of the token, and what was skipped before it is all blanks |
| StatsCommon.SkipBlanks | socketstats/socketstats.c:92 | the blank-skipping loop stops at the first non-blank of the token |
| StatsCommon.CountSlots | socketstats/socketstats.c:80-85 | `num_nicks` is one more than the number of commas in the list; wwwstats/wwwstats.c:78-83 is the same loop |
| StatsCommon.FillSlots | socketstats/socketstats.c:89-95 | the `strtok_r` loop fills the slots, in order, with the non-empty comma-separated tokens stripped of leading blanks, and leaves the remaining slots NULL; wwwstats/wwwstats.c:87-93 is the same loop |
| StatsCommon.PutSlot | socketstats/socketstats.c:92-93 | one pass of the `strtok_r` loop stores the token without its leading blanks in the next slot and leaves the other slots as they were; wwwstats/wwwstats.c:90-91 is the same code |
| StatsCommon.NickListShape | socketstats/socketstats.c:87-95 | the nicks never outnumber the slots, fewer slots are filled exactly when the list has an empty field, and no nick holds a comma or starts with a blank |
| StatsCommon.NickListOfJoin | socketstats/socketstats.c:76-98 | for a list of non-empty comma-free nicks, there is one slot per nick and each slot holds its nick with leading blanks stripped |
| StatsCommon.ItemErrors | socketstats/socketstats.c:214-235 | one error for an item without a name, and one for a socket-path or nicks item without a value; none otherwise |
| StatsCommon.ItemWarnings | socketstats/socketstats.c:214-241 | a named item other than socket-path or nicks gives one unknown-item warning; no other item warns |
| StatsCommon.TestErrors | socketstats/socketstats.c:213-245 | the error count of the test hook: its items' errors summed in file order |
| StatsCommon.TestWarnings | socketstats/socketstats.c:213-242 | the test hook's warnings, in file order |
| StatsCommon.LastValue | socketstats/socketstats.c:269-277 | the value of the last item of the name that carries one: what the run hook leaves in `socket_path`, and the list the test hook's last `parse_nick_list` call parses |
| StatsCommon.LastValueFound | socketstats/socketstats.c:270-277 | a valued item of the name exists exactly when `LastValue` finds one, and then its value is the one of the last such item |
| StatsCommon.Channel.constructor | socketstats/socketstats.c:51 | `CHANNEL_MESSAGE_COUNT`, the per-channel message count in module data, starts at 0 |
| StatsCommon.StatsConfig.constructor | socketstats/socketstats.c:71-74 | no socket path, no `socket_hpath`, no nick slots and a zero message counter; wwwstats/wwwstats.c:69-72 declares the same globals |
| StatsCommon.StatsConfig.ParseNickList | socketstats/socketstats.c:76-98 | a fresh zeroed slot array of `num_nicks` slots filled as `Slots` specifies; wwwstats/wwwstats.c:74-96 is the same function |
| StatsCommon.StatsConfig.ConfigTest | socketstats/socketstats.c:201-246 | 0 and no change for a foreign block; otherwise one error per blank item name and per valueless socket-path or nicks item, a warning per unknown item, -1 exactly when there are errors, `socket_hpath` set exactly when a valued socket-path is present, and the nick slots parsed from the last valued nicks item; wwwstats/wwwstats.c:98-143 is the same hook |
| StatsCommon.StatsConfig.TestItem | socketstats/socketstats.c:214-242 | one item of the test loop: an error for a blank name or a valueless socket-path or nicks item, a warning for an unknown name, `socket_hpath` set by a valued socket-path, and the slots re-parsed from a valued nicks item; wwwstats/wwwstats.c:111-139 is the same loop body |
| StatsCommon.StatsConfig.ConfigPostTest | socketstats/socketstats.c:248-256 | always 1; it warns about a missing socket path exactly when `socket_hpath` is clear and about missing nicks exactly when there are no slots; wwwstats/wwwstats.c:145-153 is the same hook |
| StatsCommon.StatsConfig.ConfigRun | socketstats/socketstats.c:258-280 | 0 and no change for a foreign block; otherwise 1, with the socket path set to the last valued socket-path item and kept when there is none, and nicks ignored; wwwstats/wwwstats.c:155-177 is the same hook |
| StatsCommon.StatsConfig.Msg | socketstats/socketstats.c:357-361 | the global counter and the channel's message count each grow by exactly one, and the hook returns HOOK_CONTINUE; wwwstats/wwwstats.c:254-258 is the same hook |
| SocketStats.NewConfig | socketstats/socketstats.c:69-74 | the socketstats block's state, named "socketstats", starts empty: no socket path, `socket_hpath` clear, no nick slots, `num_nicks` 0 and the counter 0 |
| WwwStats.NewConfig | wwwstats/wwwstats.c:69-72 | the wwwstats block's state, named "wwwstats", starts empty: no socket path, `socket_hpath` clear, no nick slots, `num_nicks` 0 and the counter 0 |
| SocketStats.Atoi | socketstats/socketstats.c:187 | `atoi(ipstr + 4)`: the value of the decimal digits the text starts with, 0 when it starts with none |
| SocketStats.PrivateIpv4Text | socketstats/socketstats.c:186-187 | the text starts with "192.168." or "10.", or it starts with "172." and `atoi` of the rest is 16 to 31 |
| SocketStats.ExcludedIpv6Text | socketstats/socketstats.c:192 | the text starts with "fe80" or "::1" |
| SocketStats.Accepted | socketstats/socketstats.c:176-192 | an interface is taken for a family when it has an address of that family, is up and not loopback, and its text passes that family's test |
| SocketStats.FirstAccepted | socketstats/socketstats.c:175-198 | the text of the first interface in list order accepted for the family, or "" when there is none |
| SocketStats.GetIpAddresses | socketstats/socketstats.c:172-199 | the result is the text of the first interface, in list order, that has an address, is up, is not loopback, and passes its family's prefix test, for IPv4 and for IPv6 ("" where there is none); each fits its caller buffer |
| SocketStats.PrivateQuadIsRfc1918 | socketstats/socketstats.c:186-187 | for a dotted quad, the `192.168.` / `10.` / `172.` plus `atoi` test rejects exactly the private ranges of RFC 1918, section 3 |
| SocketStats.AtoiOfDotted | socketstats/socketstats.c:187 | `atoi` of a number followed by a dot reads exactly that number |
| SocketStats.DottedPrefix | socketstats/socketstats.c:186 | a dotted text starts with "p." exactly when its first number is p |
| SocketStats.LoopbackPrefixExcluded | socketstats/socketstats.c:192 | every text that starts with "::1" is excluded, loopback or not |
| SocketStats.LinkLocalExcludedOnlyFe80 | socketstats/socketstats.c:192 | a text "fe" plus two characters is excluded exactly when those are "80", so link-local spellings fe81 to febf are kept |

## Left out

- Socket and JSON reporting (`*_socket_evt`, JSON building, HTTP headers): I/O on host state.
- CPU, RAM and disk figures (`get_cpu_info`, `get_ram_info`, `get_disk_info`): these are system calls and floating point.
- `getifaddrs` and `inet_ntop`: the interface list and each address's text are inputs to `GetIpAddresses`.
- ICU internals: `u_strFromUTF8` is a `Decoder` giving the code units of a UTF-8 string, or None for ill-formed input. `ucol_strcoll` on a collator of a given strength is a `StrColl` function.
- `ucol_open` and `ucol_setStrength` (`collator_init`) are not modelled.
- Module lifecycle: `MOD_TEST`, `MOD_INIT`, `MOD_LOAD`, `MOD_UNLOAD`, `freecfg` and `ucol_close` are not modelled. The host decides the hook order. `MOD_INIT` runs `setcfg` and then `collator_init` before the run hook has read `collator_strength`; the model takes the collator as an input and does not capture that order.
- Memory bookkeeping in nickcollator (`realloc`, `strdup`, `free`): not modelled, so the `return -1` after a failed allocation is not modelled either.
- Memory bookkeeping in the stats modules (`safe_alloc`, `strdup`, `free`): the earlier `selected_nicks` array and the earlier `socket_path` string are dropped without being freed.
- NickCollator.CollatorConfig.ApplyCollatorMapping: requires defined behaviour, i.e. `Canon(...)` is `Some`. The C code has undefined behaviour in three cases, and the model returns None for them instead of modelling them:
  - a result that outgrows the buffer (`u_memmove` is not bounds-checked);
  - a source member of exactly 10 code units, which leaves `u_from` unterminated;
  - an empty source member, for which `u_strstr` matches at every position.
- NickCollator.CollatorConfig.CompareNicks: requires `Compare(...)` to be `Some`, which excludes the same cases. It also excludes a nick of exactly 100 code units, which leaves its buffer unterminated.
- NickCollator.CollatorConfig.OverrideNick: requires `Decide(...)` to be `Some`, for the same reason.
- NickCollator.CollatorConfig.OverrideNick: the client list is a sequence of nick names, and sending ERR_NICKNAMEINUSE is the `NickNameInUse` reply value.
- NickCollator.CollatorConfig.OverrideNick: `CALL_NEXT_COMMAND_OVERRIDE` is the `PassOn` reply value.
- NickCollator.CollatorConfig.ConfigTest: requires every item of its own block to have a name, and every `collator_strength` item to have a value. The C code passes both to `strcmp` / `strcasecmp` without a NULL check.
- NickCollator.CollatorConfig.ConfigRun: has the same requirement, for the same reason.
- StatsCommon.StatsConfig.ConfigRun: requires every valued item to have a name. The C code compares the name of a valued item without a NULL check.
- StatsCommon.StatsConfig.Msg: requires both counters to be below INT_MAX. Incrementing a C `int` past it is undefined behaviour, so wrap-around is not modelled.
- StatsCommon.StatsConfig.constructor: `selected_nicks` starts as NULL with `num_nicks` 0; the model uses an empty array.
- `config_error` and `config_warn` message texts: errors are counted, and warnings are the `Warning` values.
- SocketStats.GetIpAddresses: `atoi`'s handling of blanks and signs is not modelled. `Atoi` reads only the leading digits, and `inet_ntop` text has no blanks or signs.
- SocketStats.GetIpAddresses: requires each address text to be non-empty and to fit its caller buffer, as `inet_ntop` output does. `strncpy` is the assignment of that text.
- UTF-16 well-formedness: the `Decoder` may produce any code units, including lone surrogates that real UTF-8 decoding never yields. ICU's `u_strstr` rule against matching inside a surrogate pair is not modelled; `Find` matches at any code-unit position.
- `awayecho/awayecho.c`: a single hook that only calls host functions.
