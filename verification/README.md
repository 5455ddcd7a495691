# coredns-blocker decision engines

coredns-blocker is a CoreDNS plugin that answers queries for listed domains
with a block response. A resolver fetches a blocklist payload (the text of a
hosts file or of an Adblock Plus filter list) and publishes it. A
*block-domains decider* consumes each payload into its block-set of domain
names and answers `IsDomainBlocked` for each query. This project models the
two deciders and the parts of Go's standard library and of the DNS library
that they rely on.

- `Hosts` (`BlockDomainsDeciderHosts`) scans the payload line by line. It
  trims white space, skips blank and `#` lines, and splits the rest on a
  single space. The second field, made fully qualified, joins the
  block-set. A lookup is exact membership.
- `Abp` (`BlockDomainsDeciderABP`) keeps only the lines of the form
  `||domain^`. Nothing is trimmed first. The fully-qualified domain joins
  the block-set. A lookup splits the query on dots. It tests every
  right-aligned run of two or more labels, so a listed domain blocks all of
  its subdomains.

Both engines start empty and only ever add keys. A payload is applied
cumulatively, and `UpdateBlocklist` always returns a nil error.

Modules:

- `Wrappers`: `Option`.
- `Strings`:
  - `strings.TrimSpace`, `HasPrefix`, `HasSuffix`, `TrimPrefix`,
    `TrimSuffix`;
  - `Split` and `Join` for a one-character separator, with their
    round-trip lemmas;
  - Go's `unicode.IsSpace` set.
- `Dns`: `dns.Fqdn` and the "ends with a dot" predicate.
- `Scanner`: the tokens of `bufio.Scanner` with `ScanLines`. Lines end at
  `\n`, one trailing `\r` is dropped, and there is no empty token after a
  final newline. Related to `Split`.
- `Blocklist`:
  - the state both engines share (`Decider`, a set of names) and its
    empty start (`New`);
  - the update both engines run (`UpdateBlocklist`, with its set-level
    meaning `Update`), given the engine's line parser as a function;
  - the consumer loop over a sequence of payloads (`Replay`).
- `Hosts` and `Abp`: the per-line parsers, the lookups and their
  properties. Each engine's `Update` is the shared one with its own parser.

Strings are sequences of Unicode code points. The mutex-protected Go map
`map[string]bool` is modelled as an immutable set. Each update returns the
new state.

## Model

| member | source | states |
|---|---|---|
| Blocklist.Collect | block_domains_decider_hosts.go:64-83 | the keys an insert loop adds are exactly the keys some line parsed to |
| Blocklist.CollectCons | block_domains_decider_hosts.go:64-83 | the keys of a payload are the first line's key, if any, plus the keys of the lines after it |
| Blocklist.Apply | block_domains_decider_abp.go:79-89 | one update removes nothing; afterwards a name is present iff it was present before or some line produced it; qualified keys keep the state qualified |
| Blocklist.ApplyIdempotent | block_domains_decider_abp.go:88 | applying a payload a second time changes nothing |
| Blocklist.ApplyCommutes | block_domains_decider_abp.go:88 | two payloads give the same state in either order |
| Blocklist.New | block_domains_decider_hosts.go:23-29 | a new engine blocks no name, and so its block-set is qualified |
| Blocklist.Found | block_domains_decider_hosts.go:63-83 | one parse result per scanned line, in order; a parser with qualified keys gives only qualified keys |
| Blocklist.Update | block_domains_decider_abp.go:70-98 | an update keeps every old key; afterwards a name is present iff it was before or some scanned line parses to it; a qualified parser keeps the state qualified |
| Blocklist.UpdateBlocklist | block_domains_decider_hosts.go:53-93 | the scan-and-insert loop computes exactly `Update` with the engine's parser and returns a nil error (both engines; also block_domains_decider_abp.go:70-98) |
| Blocklist.UpdateEmpty | block_domains_decider_hosts.go:63-64 | an empty payload scans to no lines and changes nothing |
| Blocklist.UpdateFirstLine | block_domains_decider_hosts.go:64-83 | a payload's first line adds its key, if any, and the rest is applied unaffected, so a line the parser rejects never stops the update |
| Blocklist.UpdateIdempotent | block_domains_decider_hosts.go:82 | applying the same payload twice equals applying it once |
| Blocklist.UpdateCommutes | block_domains_decider_abp.go:88 | two payloads give the same state in either order |
| Blocklist.Replay | block_domains_decider_hosts.go:34-39 | the consumer loop: payloads applied in the order published; no contract of its own, `Blocklist.ReplayMembership` and `Blocklist.ReplayValid` state what it yields |
| Blocklist.ReplayMembership | block_domains_decider_hosts.go:34-39 | after the consumer loop has applied any sequence of payloads, a name is present iff it was present at the start or some scanned line of some payload parses to it |
| Blocklist.ReplayValid | block_domains_decider_hosts.go:34-39 | with a qualified parser, every state the consumer loop reaches from a qualified state is qualified |
| Dns.Fqdn | block_domains_decider_hosts.go:82 | the canonical key ends with a dot, extends its input by at most that one dot, and leaves an already-qualified name unchanged |
| Dns.FqdnIdempotent | block_domains_decider_abp.go:88 | canonicalising twice equals canonicalising once |
| Strings.TrimPrefix | block_domains_decider_abp.go:86 | removes the prefix exactly once when present, otherwise changes nothing |
| Strings.TrimSuffix | block_domains_decider_abp.go:87 | removes the suffix exactly once when present, otherwise changes nothing |
| Strings.TrimSpace | block_domains_decider_hosts.go:67 | Go's TrimSpace over the `unicode.IsSpace` set; it has no contract of its own, and `Strings.TrimSpaceSpec` pins its result down |
| Strings.TrimLeftSpaceSpec | block_domains_decider_hosts.go:67 | left trimming keeps a suffix, drops only spaces, and leaves no leading space |
| Strings.TrimRightSpaceSpec | block_domains_decider_hosts.go:67 | right trimming keeps a prefix, drops only spaces, and leaves no trailing space |
| Strings.TrimSpaceSpec | block_domains_decider_hosts.go:67 | the trimmed line is a slice of the input between two all-space runs, with no space at either end; it is empty iff the line is all space |
| Strings.TrimSpaceKeeps | block_domains_decider_hosts.go:67 | trimming introduces no character that was absent |
| Strings.TrimSpaceNoop | block_domains_decider_hosts.go:67 | a line whose ends are not spaces is left as it is |
| Strings.IndexOf | block_domains_decider_hosts.go:64 | returns the position of the first occurrence of the character |
| Strings.Split | block_domains_decider_hosts.go:74 | a split always has at least one piece |
| Strings.SplitPiecesLackSep | block_domains_decider_abp.go:51 | no piece of a split contains the separator |
| Strings.SplitCount | block_domains_decider_hosts.go:74-75 | a string with n separators splits into n + 1 pieces |
| Strings.JoinSplit | block_domains_decider_abp.go:51-57 | joining the pieces of a split gives back the string |
| Strings.SplitJoin | block_domains_decider_abp.go:51-57 | splitting a join of separator-free pieces gives back the pieces |
| Strings.Join | block_domains_decider_abp.go:54-57 | Go's Join with a one-character separator; no contract of its own, its meaning is given by `Strings.JoinSplit`, `Strings.SplitJoin` and `Strings.JoinAppend` |
| Strings.SplitNoSep | block_domains_decider_hosts.go:74-75 | a string without the separator splits into itself alone |
| Strings.SplitConcat | block_domains_decider_abp.go:51 | splitting `x + sep + t` gives the pieces of `x` followed by those of `t` |
| Strings.SecondPiece | block_domains_decider_hosts.go:74-81 | the second piece is the text between the first separator and the next separator or the end |
| Strings.JoinAppend | block_domains_decider_abp.go:54-57 | joining two non-empty lists puts one separator between their joins |
| Strings.SplitHasTwo | block_domains_decider_abp.go:51 | a string containing the separator splits into at least two pieces |
| Strings.JoinHasSep | block_domains_decider_abp.go:54-57 | a join of two or more pieces contains the separator |
| Scanner.DropCR | block_domains_decider_hosts.go:63-65 | the scanner drops exactly one trailing carriage return from a line and otherwise yields the line as it is |
| Scanner.DropCRs | block_domains_decider_hosts.go:63-65 | dropping carriage returns keeps the number of lines |
| Scanner.DropCRsNoCR | block_domains_decider_hosts.go:63-65 | lines without a trailing carriage return are unchanged |
| Scanner.ScanLines | block_domains_decider_hosts.go:63-65 | no scanned line contains a newline; there are no more lines than characters |
| Scanner.ScanLinesIsSplit | block_domains_decider_abp.go:78-80 | the scanner's lines are the pieces of a split on newline, without the empty piece a final newline leaves, each minus one trailing carriage return |
| Scanner.ScanLinesStep | block_domains_decider_abp.go:78-80 | the first line splits off the same way in the scanner and in the split-based reading |
| Scanner.SplitTerminated | block_domains_decider_abp.go:78-80 | newline-terminated lines split back into those lines once the final empty piece is dropped |
| Scanner.ScanJoinedLines | block_domains_decider_abp.go:78-80 | newline-terminated lines with no carriage return at the end scan back into exactly those lines |
| Scanner.ScanFirstLine | block_domains_decider_hosts.go:63-65 | a payload that starts with a complete line scans as that line, then the lines of the rest |
| Hosts.ParseLine | block_domains_decider_hosts.go:65-82 | a line yields at most one key, and any key is fully qualified |
| Hosts.Update | block_domains_decider_hosts.go:53-93 | the hosts engine's update: the shared `Blocklist.Update` with the hosts line parser; no contract of its own |
| Hosts.QualifiedKeys | block_domains_decider_hosts.go:82 | every key the hosts parser yields ends with a dot |
| Hosts.ReachableValid | block_domains_decider_hosts.go:23-39 | every state the hosts engine reaches from construction through any sequence of payloads is qualified |
| Hosts.CommentLineSkipped | block_domains_decider_hosts.go:69-72 | a blank line, or one whose trimmed text starts with `#`, contributes nothing |
| Hosts.HashLineSkipped | block_domains_decider_hosts.go:69-72 | a line that starts with `#` contributes nothing, whatever follows |
| Hosts.SingleFieldLineSkipped | block_domains_decider_hosts.go:74-79 | a trimmed line with no single space has fewer than two fields and contributes nothing |
| Hosts.SecondFieldInserted | block_domains_decider_hosts.go:74-82 | a data line contributes its second space-separated field, made fully qualified |
| Hosts.DataLineInserted | block_domains_decider_hosts.go:67-82 | the line `<address> <domain>` contributes the qualified domain |
| Hosts.TabSeparatedLineSkipped | block_domains_decider_hosts.go:74-79 | an address and a domain separated by a tab form a single field, so the line is skipped |
| Hosts.DoubleSpaceInsertsRoot | block_domains_decider_hosts.go:74-82 | two spaces in a row leave an empty second field, so the root name `.` is inserted |
| Hosts.IsDomainBlocked | block_domains_decider_hosts.go:45-50 | exact membership of the query, with no normalisation; no contract of its own, `Hosts.UnqualifiedQueryNeverBlocked`, `Hosts.UnqualifiedQueryNeverBlockedAfter` and `Hosts.HostsFileExample` state its consequences |
| Hosts.UnqualifiedQueryNeverBlocked | block_domains_decider_hosts.go:45-50 | a query without a trailing dot is never in the qualified block-set |
| Hosts.UnqualifiedQueryNeverBlockedAfter | block_domains_decider_hosts.go:45-50 | no state the hosts engine reaches from construction blocks a query without a trailing dot |
| Hosts.HostsFileExample | block_domains_decider_hosts.go:53-93 | a data line, a comment and another data line, starting from the empty engine, block exactly the two qualified domains |
| Abp.ParseLine | block_domains_decider_abp.go:80-88 | a line yields at most one key, and any key is fully qualified |
| Abp.Update | block_domains_decider_abp.go:70-98 | the filter-list engine's update: the shared `Blocklist.Update` with the filter-list line parser; no contract of its own |
| Abp.QualifiedKeys | block_domains_decider_abp.go:88 | every key the filter-list parser yields ends with a dot |
| Abp.ReachableValid | block_domains_decider_abp.go:23-38 | every state the filter-list engine reaches from construction through any sequence of payloads is qualified |
| Abp.RuleLineInserted | block_domains_decider_abp.go:81-88 | a rule line (two bars, a domain, a caret) contributes the qualified domain |
| Abp.ParsedLineIsRule | block_domains_decider_abp.go:81-88 | a line yields a key only if it is two bars, some text and a caret, and the key is that text made qualified |
| Abp.UntrimmedLineSkipped | block_domains_decider_abp.go:80-84 | a line that does not begin with a bar, such as one with leading white space, contributes nothing |
| Abp.Blocked | block_domains_decider_abp.go:51-66 | the names the lookup tests, read declaratively: the query is blocked iff some right-aligned run of two or more of its labels, joined by dots, is stored |
| Abp.OneLinePayload | block_domains_decider_abp.go:78-89 | a payload of one newline-terminated line stores exactly that line's key, if any |
| Abp.SingleRulePayload | block_domains_decider_abp.go:78-89 | a payload of one rule line and a newline stores exactly the rule's qualified domain |
| Abp.IsDomainBlocked | block_domains_decider_abp.go:44-67 | the lookup answers true iff some right-aligned run of two or more of the query's labels, joined by dots, is stored |
| Abp.AnyTailListed | block_domains_decider_abp.go:51-66 | the loop that prepends labels one at a time finds a hit iff some tested tail is stored; the last label alone is never tested |
| Abp.BlockedIffLabelSuffix | block_domains_decider_abp.go:48-66 | a query is blocked iff the block-set holds a name containing a dot that is the query itself or the query's tail after one of its dots |
| Abp.TestedNameIsLabelSuffix | block_domains_decider_abp.go:51-63 | every name the loop tests contains a dot and is a label-aligned tail of the query |
| Abp.LabelSuffixIsTested | block_domains_decider_abp.go:51-63 | every label-aligned tail containing a dot is among the names the loop tests |
| Abp.StaysBlocked | block_domains_decider_abp.go:79-89 | a blocked query stays blocked after any update |
| Abp.NoDotNeverBlocked | block_domains_decider_abp.go:51-53 | a query without a dot has one label, the loop tests nothing, and it is never blocked |
| Abp.UnqualifiedQueryNeverBlocked | block_domains_decider_abp.go:44-67 | with qualified keys, a query without a trailing dot is never blocked |
| Abp.UnqualifiedQueryNeverBlockedAfter | block_domains_decider_abp.go:44-67 | no state the filter-list engine reaches from construction blocks a query without a trailing dot |
| Abp.KeyIsBlocked | block_domains_decider_abp.go:48-50 | every stored key is blocked when queried as it is |
| Abp.SubdomainBlocked | block_domains_decider_abp.go:48-50 | every subdomain of a stored key is blocked |
| Abp.UnalignedSuffixNotBlocked | block_domains_decider_abp.go:48-50 | a key does not block a name that merely ends with it, unless a dot comes right before it |
| Abp.AppendedLabelNotBlocked | block_domains_decider_abp.go:48-50 | `ads.example.com.` does not block `ads.example.com.evil.` |
| Abp.FilterListExample | block_domains_decider_abp.go:44-89 | after a one-rule list, the rule's qualified domain and every subdomain of it are blocked |

## Left out

- The resolver (`blocklist_resolver.go`): fetching, refreshing and publishing
  payloads. That is I/O and timers. A payload is a parameter of `Update`
  here, and a sequence of payloads is a parameter of `Replay`.
- The goroutine and channel that feed payloads to `UpdateBlocklist`, and the
  read/write mutex. The model is sequential: each update is atomic, which is
  what the lock provides.
- `lastUpdated` timestamps, log lines and the block-set size gauge
  (`metrics.go`). They have no effect on any decision.
- `PrepareBlocklist` (`block_domains_decider.go`). It parses the refresh
  interval, builds the resolver, picks an engine by its type tag, forces one
  update and starts the periodic refresh. An unknown tag builds no engine:
  it returns a nil decider with a nil error. All of this is configuration
  and I/O around the engines.
- The scanner's 64 KiB token limit. On a longer line Go's `Scan` returns
  false and records `bufio.ErrTooLong`, which neither engine checks. The
  lines after an overlong line are then dropped, and `UpdateBlocklist`
  still returns nil. The model assumes every line is within the limit.
- Dns.Fqdn: only the plain rule (append a dot unless the name ends with
  one) is modelled. The DNS library's treatment of a final dot preceded by
  an odd number of backslashes, an escaped dot, is left out.
- Strings: the Go code works on UTF-8 bytes. The model works on code points
  and so cannot express invalid UTF-8. The space set is `unicode.IsSpace`
  on code points.

Two consequences of the code are worth stating:

- Hosts-file data lines are split on one space character, not on white
  space. So a tab-separated line is skipped, and a double space inserts the
  root name `.`.
- Neither engine canonicalises the query, and every stored key ends with a
  dot. So `ads.example.com` without a trailing dot is never blocked, even
  when `ads.example.com.` is blocked.
