# IPTrap in Dafny

IPTrap is a pair of Python scripts. `iptrap.py` listens on a set of TCP
ports. For every connection it normalises the peer's address: an
IPv4-mapped IPv6 address (`::ffff:a.b.c.d`) is unwrapped to `a.b.c.d`. It
skips loopback peers. Any other peer gets a line in the log file, and is
then banned through firewalld under the family `ipv4` or `ipv6`. When a signal
ends its idle wait, every trap is stopped in the order it was started, and
the firewall rules are persisted once.

`iptrap-analyze.py` reads that log back. It takes three command-line flags
(`--logdir=`, `--dbdir=`, `-i`/`--interactive`) and extracts date, address,
family and port from each line with one regular expression. It collects
them as four parallel columns, builds a table, drops duplicate
(date, address) rows keeping the first, and counts rows per date.

This project models that core and proves what the scripts promise about it.

| file | models |
|---|---|
| `wrappers.dfy` | `Option` and `Result` |
| `decimal.dfy` | decimal numerals: `str(n)` and the digits of a canonical numeral |
| `text.dfy` | `str.split(sep)` / `sep.join`, `str.strip()` over a white-space set (`str.isspace()`'s, or the smaller one `int()` skips), `str.split()[0]`, scanning up to a character |
| `address.dfy` | `isLoopback`, `isIpv4MappedIpv6`, `extractIpv4FromIpv6`; `inet_pton` for IPv4 and IPv6 text; `inet_ntop` for IPv4; the peer normalisation and the family tag |
| `trap.dfy` | the log line of `writeLog`; the per-connection step of `Trap.run` and its accept loop as a call trace; `int()`; `main`'s port filter and its start/stop/persist order |
| `frame.dfy` | `drop_duplicates(subset=["date", "ip"])` and `groupby("date").size()` on rows |
| `analyze.dfy` | the analyzer's regex, date extraction, parse loop and flag loop; its module-level state as class `Analysis` |
| `roundtrip.dfy` | what the analyzer recovers from the lines the trap writes |

Two properties of `main` are worth stating outright.
- `main` keeps every positive integer argument that `int()` reads, duplicates included, with no upper bound (`Trap.NoUpperBound`). Only `int()`'s own limit of 4300 digits rejects a number.
- When the idle wait ends, `main` stops the traps in creation order and then persists the firewall rules once (`Trap.RunTraps`). This is what happens when exactly one signal arrives after every trap has started.

One behaviour of the pair follows from the proofs. The trap does not unwrap a peer in the IPv4-compatible spelling `::` + A, such as `::1.2.3.4`. It logs and bans that peer as `ipv6` under its own text (`Trap.CompatiblePeerLogged`). The analyzer's address group accepts digits and dots, or hex digits and colons, but never both. So the analyzer drops that line (`RoundTrip.CompatiblePeerDropped`).

## Model

| member | source | states |
|---|---|---|
| Decimal.DigitChar | iptrap.py:35 | the character written for a digit is a digit and reads back as that digit |
| Decimal.NatToString | iptrap.py:35 | `str(n)` is a canonical numeral: digits only, no leading zero except for 0 itself |
| Decimal.NatToStringValue | iptrap.py:35 | the digits of `str(n)` read back as `n` |
| Decimal.CanonicalValue | iptrap.py:30 | a canonical numeral is `str` of its value; one of two or more digits is at least 10 |
| Decimal.NatToStringInjective | iptrap.py:35 | distinct numbers are written differently |
| Text.Split | iptrap.py:18 | splitting on a separator gives at least one part, no part holds the separator, and joining the parts gives back the text |
| Text.SplitJoin | iptrap.py:18 | splitting the join of separator-free parts gives back the parts |
| Text.SplitNoSeparator | iptrap.py:18 | text without the separator splits into itself alone |
| Text.SplitAt | iptrap.py:18 | a separator-free head and a separator split off as the first part |
| Text.IntWhitespaceIsSpaceLessSeparators | iptrap.py:105 | the white space `int()` skips is `str.isspace()`'s set without the separators U+001C..U+001F |
| Text.StripLeft | iptrap.py:105 | `lstrip()` over a given white-space set leaves no leading white space and never lengthens the text |
| Text.StripLeftRemoved | iptrap.py:105 | `lstrip()` keeps a suffix of the text, and every character it removes is white space |
| Text.StripRight | iptrap.py:105 | `rstrip()` leaves no trailing white space and never lengthens the text |
| Text.StripRightRemoved | iptrap.py:105 | `rstrip()` keeps a prefix of the text, and every character it removes is white space |
| Text.StripTrimmed | iptrap.py:105 | `strip()` keeps one contiguous piece of the text; everything it removes on either side is white space, and the piece neither begins nor ends with white space |
| Text.StripUnpadded | iptrap.py:105 | text that neither starts nor ends with white space is unchanged by `strip()` |
| Text.StripPadded | iptrap.py:105 | one white-space character on each side of such text is exactly what `strip()` removes |
| Text.TakeWord | iptrap-analyze.py:69 | the leading word is a prefix of the text without white space, stopped by white space or the end |
| Text.FirstWord | iptrap-analyze.py:69 | `split()[0]` is the leading word of the text once its leading white space is removed; it is non-empty and holds no white space; it is missing exactly when nothing is left after that removal |
| Text.FirstWordBlank | iptrap-analyze.py:69 | `split()[0]` fails with IndexError exactly when the text is all white space |
| Text.FirstWordOfPhrase | iptrap-analyze.py:69 | in a word followed by white space and anything, the word is `split()[0]` |
| Text.TakeWordOf | iptrap-analyze.py:69 | the leading word of a word followed by white space is that word |
| Text.TakeUntil | iptrap-analyze.py:31 | the scan of `[^\]]+` and of the address group never holds the stop character |
| Text.TakeUntilPrefix | iptrap-analyze.py:31 | the scan is a prefix of the text and stops at the first stop character or at the end |
| Text.TakeUntilOf | iptrap-analyze.py:31 | the scan of a stop-free text followed by the stop character gives that text |
| Address.IsLoopback | iptrap.py:12-13 | no contract of its own: exactly the two literals "127.0.0.1" and "::1"; `Trap.LoopbackPeersIgnored` and `Address.Ipv6LoopbackNotMapped` state what follows for peers |
| Address.ParseIpv4 | iptrap.py:28-30 | `inet_pton(AF_INET)` gives exactly four bytes when it succeeds |
| Address.FormatIpv4 | iptrap.py:30 | `inet_ntop(AF_INET)` writes only digits and dots |
| Address.DottedDigits | iptrap.py:30 | numerals joined with dots hold only digits and dots |
| Address.Ipv4RoundTrip | iptrap.py:28-30 | any four bytes written in dotted decimal parse back to the same bytes |
| Address.Ipv4Canonical | iptrap.py:28-30 | text `inet_pton` accepts as IPv4 is already in the form `inet_ntop` writes |
| Address.HexDigitValue | iptrap.py:18 | a hexadecimal digit, either case, is worth less than 16 |
| Address.HexValue | iptrap.py:18 | `k` hex digits are worth less than 16^k |
| Address.GroupBytes | iptrap.py:18 | a group of one to four hex digits becomes two bytes, high byte first, worth its value |
| Address.FindDoubleColon | iptrap.py:18 | the first "::" in the text, or none at all |
| Address.Zeros | iptrap.py:18 | the zero bytes a "::" stands for |
| Address.Inet6Pton | iptrap.py:18 | `inet_pton(AF_INET6)` gives sixteen bytes when it succeeds |
| Address.IsIpv4MappedIpv6 | iptrap.py:16-21 | no contract of its own: the text parses as IPv6 and its first twelve bytes are the mapped prefix, false when it does not parse; `Address.MappedRoundTrip`, `Address.NoColonNeverMapped`, `Address.Ipv6LoopbackNotMapped` and `Address.CompatibleNotMapped` decide it for each kind of address |
| Address.ExtractIpv4FromIpv6 | iptrap.py:24-30 | fails with ValueError exactly when the address is not IPv4-mapped; otherwise gives dotted decimal that parses to the last four of the sixteen bytes |
| Address.Normalise | iptrap.py:88 | a mapped peer becomes colon-free dotted decimal of its last four bytes; any other peer is kept as it is |
| Address.Family | iptrap.py:91 | the family is "ipv4" or "ipv6", and "ipv4" exactly when the address has no ':' |
| Address.LoopbackText | iptrap.py:12-13 | the bytes 127.0.0.1 are written as the loopback literal `isLoopback` tests |
| Address.FfffGroup | iptrap.py:19 | the group "ffff" is the two bytes ff ff of the mapped prefix |
| Address.MappedTail | iptrap.py:18 | after the "::", the text "ffff:" + A reads as ff ff then A's four bytes |
| Address.MappedRoundTrip | iptrap.py:16-30 | for every four bytes A, "::ffff:" + A parses as the mapped prefix then A, is recognised as mapped, and unwraps to A |
| Address.MappedLoopbackSpelling | iptrap.py:13 | the mapped form of 127.0.0.1 is spelled ::ffff:127.0.0.1 |
| Address.MappedTextRoundTrip | iptrap.py:24-30 | for every canonical dotted-decimal A, unwrapping "::ffff:" + A gives back A |
| Address.NoColonNeverMapped | iptrap.py:16-21 | colon-free text is not IPv6, so it is not mapped and normalisation keeps it |
| Address.Ipv6LoopbackNotMapped | iptrap.py:16-21 | ::1 is the bytes 0…01, which is not mapped, so ::1 is kept as it is |
| Address.FormatIpv4Shape | iptrap.py:30 | dotted decimal is non-empty, holds a dot and never a colon |
| Address.CompatibleNotMapped | iptrap.py:16-21 | for every four bytes A, "::" + A parses as twelve zero bytes then A, is not mapped, and is kept as it is |
| Trap.LogEntry | iptrap.py:35 | no contract of its own: the entry text; `RoundTrip.RecordMatches` states that the analyzer's pattern reads its four parts back |
| Trap.LogRecord | iptrap.py:38-40 | no contract of its own: the entry and a newline, as appended to the file; partner `RoundTrip.RecordMatches` |
| Trap.PeerCalls | iptrap.py:89-93 | no calls exactly for a loopback address; otherwise writeLog and then banIp_firewalld, with the same address and family, the trap's port, and family "ipv4" exactly when the address has no ':' |
| Trap.HandleConnection | iptrap.py:88-93 | for a raw peer: skipped exactly when its normalised address is loopback, otherwise logged and banned under its normalised address and family |
| Trap.NormaliseAll | iptrap.py:88 | the normalised address of each accepted peer, in order |
| Trap.TrapCalls | iptrap.py:84-93 | the calls of a run of connections: an even number, at most two per connection; `Trap.TrapCallsPaired` and `Trap.TrapCallsBans` characterise them |
| Trap.RunTrap | iptrap.py:84-93 | the accept loop over accepted peers makes, in order, the calls of each connection |
| Trap.TrapCallsPaired | iptrap.py:89-93 | over any run of connections the calls come in pairs: a log write, then the ban of the same non-loopback address under the same family |
| Trap.TrapCallsBans | iptrap.py:89-93 | an address is banned exactly when it is not loopback and some connection had it |
| Trap.PeersBanned | iptrap.py:84-93 | an address is banned exactly when it is not loopback and some accepted peer normalises to it |
| Trap.UnderscoredDigitsShape | iptrap.py:105 | what `int()` accepts after the sign starts and ends with a digit, holds only digits and underscores, and never two underscores in a row |
| Trap.UnderscoredDigitsOfShape | iptrap.py:105 | conversely, every text of that shape is accepted after the sign |
| Trap.DigitsAreUnderscoredDigits | iptrap.py:105 | any non-empty digit string is accepted by `int()` |
| Trap.LiteralValueOfDigits | iptrap.py:105 | without underscores, the literal's value is its decimal value |
| Trap.DigitCount | iptrap.py:105 | the digits `int()` counts against its limit, underscores not counted, never more than the text's length |
| Trap.DigitCountOfDigits | iptrap.py:105 | in a plain run of digits every character counts |
| Trap.ParseInt | iptrap.py:105 | no contract of its own: strip `int()`'s white space, an optional sign, then digits with single underscores, at most 4300 digits; `Trap.ParseIntNumeral`, `Trap.ParseIntNegative`, `Trap.ParseIntPadded`, `Trap.SeparatorNotSkipped`, `Trap.UnderscoredDigitsShape` and `Trap.UnderscoredDigitsOfShape` characterise it |
| Trap.ParseIntNumeral | iptrap.py:105 | `int(str(n)) == n` when `str(n)` has at most 4300 digits; longer numerals raise ValueError |
| Trap.MinusNumeralStripped | iptrap.py:105 | "-" + `str(n)` has no white space to strip |
| Trap.ParseIntPadded | iptrap.py:105 | `int()` reads `str(n)` with one of its white-space characters on each side as it reads `str(n)` alone |
| Trap.SeparatorNotSkipped | iptrap.py:105 | a U+001C..U+001F separator is white space to `str.isspace()`, yet `int()` raises ValueError on any text that begins with one |
| Trap.SeparatorPortDropped | iptrap.py:103-110 | `main` skips an argument that begins with such a separator |
| Trap.ParseIntMinusDigits | iptrap.py:105 | a minus sign then at most 4300 digits reads as the negated digit value; more digits raise ValueError |
| Trap.ParseIntNegative | iptrap.py:105-107 | `int("-" + str(n)) == -n` within the digit limit, which main then rejects as not positive |
| Trap.Accepted | iptrap.py:106-108 | one `int()` outcome keeps at most one port: its value, exactly when it parsed and is positive |
| Trap.KeptPorts | iptrap.py:106-108 | from `int()` outcomes, main keeps at most one port per argument and only positive ones |
| Trap.ParseAll | iptrap.py:103-105 | `int()` of each argument, in order |
| Trap.ValidPorts | iptrap.py:103-110 | the kept ports are positive and no more than the arguments |
| Trap.KeptPortsAppend | iptrap.py:103-110 | filtering two runs of outcomes keeps each run's ports, in turn |
| Trap.ValidPortsAppend | iptrap.py:103-110 | accepted ports keep argument order: the ports of a + b are those of a, then those of b |
| Trap.KeptPortsMembers | iptrap.py:106-108 | a port is kept exactly when it is positive and some outcome is that number |
| Trap.ValidPortsMembers | iptrap.py:103-110 | a port is kept exactly when it is positive and `int()` reads some argument as it; non-integer and non-positive arguments are skipped |
| Trap.NoUpperBound | iptrap.py:105-108 | every positive number of at most 4300 digits is kept, 65536 and above included; a longer one is skipped |
| Trap.FilterPorts | iptrap.py:103-110 | the argument loop appends exactly the ports the filter keeps |
| Trap.RunTraps | iptrap.py:122-134 | one start per port in order, then one stop per trap in creation order, then exactly one persist, last; this is the run in which one signal ends the idle wait after every trap has started |
| Trap.RunMain | iptrap.py:99-134 | with no valid port, exit status 1 and no trap started; otherwise the starts, stops and single persist of RunTraps over the kept ports |
| Trap.MappedLoopbackIgnored | iptrap.py:88-90 | any spelling of the mapped loopback ::ffff:127.0.0.1 is neither logged nor banned |
| Trap.LoopbackPeersIgnored | iptrap.py:88-90 | peers 127.0.0.1, ::1 and ::ffff:127.0.0.1 cause no call |
| Trap.MappedLoopbackText | iptrap.py:88-90 | the peer text ::ffff:127.0.0.1 causes no call |
| Trap.MappedPeerLogged | iptrap.py:88-93 | any other IPv4 peer seen as ::ffff:A is logged and then banned as "ipv4" under A |
| Trap.CompatiblePeerLogged | iptrap.py:88-93 | a peer spelled "::" + A is logged and then banned as "ipv6" under its own text |
| Frame.KeySet | iptrap-analyze.py:91 | no contract of its own: the (date, ip) keys of the rows; `Frame.KeySetMembers` characterises it |
| Frame.KeySetMembers | iptrap-analyze.py:91 | a (date, ip) key is among the rows' keys exactly when some row has it |
| Frame.Dedup | iptrap-analyze.py:91 | deduplication never adds rows |
| Frame.DedupKeys | iptrap-analyze.py:91 | every (date, ip) key of the input is in the output, and no other |
| Frame.DedupDistinct | iptrap-analyze.py:91 | no two kept rows share a (date, ip) key |
| Frame.KeptIndices | iptrap-analyze.py:91 | the input positions of the kept rows, no more than the rows |
| Frame.KeptIndicesAscending | iptrap-analyze.py:91 | the kept positions are valid and strictly ascending |
| Frame.DedupAtIndices | iptrap-analyze.py:91 | the kept rows are the input rows at ascending positions: relative input order is kept |
| Frame.KeptAreFirst | iptrap-analyze.py:91 | each kept row is the first input row with its key |
| Frame.FirstAreKept | iptrap-analyze.py:91 | each first row of a key is kept |
| Frame.DedupFirstOccurrences | iptrap-analyze.py:91 | the kept positions are exactly the first occurrences of each key |
| Frame.LexLessIrreflexive | iptrap-analyze.py:101 | no date sorts before itself |
| Frame.LexLessTotal | iptrap-analyze.py:101 | any two different dates are ordered one way |
| Frame.LexLessTransitive | iptrap-analyze.py:101 | the order of dates is transitive |
| Frame.Tally | iptrap-analyze.py:101 | counting one more row leaves a non-empty series whose first entry is the new date or the old first entry |
| Frame.TallyLookup | iptrap-analyze.py:101 | counting a row dated d raises d's count by one and leaves every other date's count alone |
| Frame.TallyTotal | iptrap-analyze.py:101 | counting a row raises the total by one |
| Frame.TallyAscending | iptrap-analyze.py:101 | counting a row keeps the series sorted by date with positive counts |
| Frame.AscendingBelow | iptrap-analyze.py:101 | a date below the first of a sorted series has no count |
| Frame.AscendingLookup | iptrap-analyze.py:101 | in a sorted series each entry's count is the count for its date |
| Frame.AscendingAbove | iptrap-analyze.py:101 | in a sorted series an earlier entry has a smaller date |
| Frame.LookupListed | iptrap-analyze.py:101 | a date with a count appears in the series |
| Frame.GroupSizes | iptrap-analyze.py:101 | no contract of its own: the rows tallied one by one; `Frame.GroupSizesAscending`, `Frame.GroupSizesEntries` and `Frame.GroupSizesTotal` characterise it |
| Frame.GroupSizesAscending | iptrap-analyze.py:101 | the per-date series is sorted by date, each date once, every count positive |
| Frame.GroupSizesCounts | iptrap-analyze.py:101 | the series gives each date the number of rows with that date |
| Frame.GroupSizesEntries | iptrap-analyze.py:101 | each entry counts its date's rows, and a date is listed exactly when some row has it |
| Frame.GroupSizesTotal | iptrap-analyze.py:101 | the counts sum to the number of rows |
| Frame.KeySetIps | iptrap-analyze.py:91 | (d, ip) is a key of the rows exactly when ip is seen on date d |
| Frame.DedupCountsIps | iptrap-analyze.py:91 | after deduplication, the rows dated d are as many as the distinct addresses seen on d |
| Frame.DedupSeries | iptrap-analyze.py:101 | after deduplication, each date's count is its number of distinct addresses, and the counts sum to the deduplicated rows |
| Analyze.TakeDigits | iptrap-analyze.py:31 | the greedy `\d+` takes only digits and never more than the text |
| Analyze.TakeDigitsPrefix | iptrap-analyze.py:31 | it takes a prefix and stops only at a non-digit or the end |
| Analyze.TakeDigitsOf | iptrap-analyze.py:31 | on digits followed by a non-digit or the end, it takes exactly those digits |
| Analyze.MatchDatetime | iptrap-analyze.py:31 | the datetime group is non-empty and holds no ']' |
| Analyze.MatchDatetimeSplit | iptrap-analyze.py:31 | a matched line is "[" + datetime + "]" + the rest |
| Analyze.MatchDatetimeOf | iptrap-analyze.py:31 | any non-empty ']'-free datetime in brackets is matched as such |
| Analyze.MatchTag | iptrap-analyze.py:31 | the family group is "ipv4" or "ipv6" |
| Analyze.MatchTagSplit | iptrap-analyze.py:31 | the text is " [" + family + "] Caught " + the rest |
| Analyze.MatchTagOf | iptrap-analyze.py:31 | either family tag is matched |
| Analyze.MatchIp | iptrap-analyze.py:31 | the address group is all digits and dots, or all lowercase hex digits and colons |
| Analyze.MatchIpSplit | iptrap-analyze.py:31 | the text is address + " on port " + the rest |
| Analyze.MatchIpOf | iptrap-analyze.py:31 | any such address followed by " on port " is matched |
| Analyze.MatchPort | iptrap-analyze.py:31 | the port group is a non-empty digit string |
| Analyze.MatchLine | iptrap-analyze.py:31 | the groups of a match have the shape each group's pattern allows |
| Analyze.MatchLineSound | iptrap-analyze.py:31 | a matched line starts with the pattern's text for its groups, and no digit follows the port |
| Analyze.MatchLineComplete | iptrap-analyze.py:31 | for any well-formed groups followed by a non-digit or nothing, the line matches with exactly those groups |
| Analyze.DateOf | iptrap-analyze.py:69 | `split()[0]` of the datetime: missing (IndexError) exactly when the datetime is all white space, otherwise non-empty and free of white space |
| Analyze.ClassifyLine | iptrap-analyze.py:66-72 | no row exactly when the pattern does not match; a parsed row has a date without white space, a family tag, an address token and a digit-only port |
| Analyze.RunOutcomes | iptrap-analyze.py:65-77 | the loop appends at most one row per line |
| Analyze.ClassifyAll | iptrap-analyze.py:65-72 | the outcome of each line, in order |
| Analyze.ParseLog | iptrap-analyze.py:65-77 | at most one row per line of the log |
| Analyze.RunOutcomesFails | iptrap-analyze.py:65-77 | the loop dies exactly when some line's datetime is blank |
| Analyze.ParseLogFails | iptrap-analyze.py:69 | the script dies of IndexError exactly when some matching line has a blank datetime |
| Analyze.RunOutcomesParsed | iptrap-analyze.py:65-77 | when every line yields a row, the rows are appended in order and the loop completes |
| Analyze.RunOutcomesStopped | iptrap-analyze.py:69 | once the loop has died, later lines change nothing |
| Analyze.RunOutcomesAppend | iptrap-analyze.py:65-77 | the rows of two runs of lines are those of each, in turn |
| Analyze.ParseLogAppend | iptrap-analyze.py:65-77 | parsing a + b appends the rows of b after those of a |
| Analyze.ClassifyAllAppend | iptrap-analyze.py:65-72 | each line is classified on its own |
| Analyze.RunOutcomesRows | iptrap-analyze.py:65-77 | every appended row is some line's parsed row |
| Analyze.ParseLogRowsFromLines | iptrap-analyze.py:65-77 | every row comes from a line of the log |
| Analyze.ApplyArg | iptrap-analyze.py:37-42 | no contract of its own: one pass of the flag loop; `Analyze.ApplyArgEffect` and `Analyze.OtherArgIgnored` characterise it |
| Analyze.ApplyArgs | iptrap-analyze.py:35-42 | no contract of its own: the flag loop over all arguments; `Analyze.LastLogDirWins`, `Analyze.LastDbDirWins` and `Analyze.InteractiveFlag` characterise it |
| Analyze.FlagsExclusive | iptrap-analyze.py:37-40 | no argument starts with both "--logdir=" and "--dbdir=" |
| Analyze.ApplyArgEffect | iptrap-analyze.py:36-42 | one argument sets logDir to what follows the 9-character prefix, dbDir to what follows the 8-character prefix, or the interactive flag, and touches nothing else |
| Analyze.LastLogDirWins | iptrap-analyze.py:36-38 | the log directory is the suffix of the last "--logdir=" argument, unchanged when there is none |
| Analyze.LastDbDirWins | iptrap-analyze.py:36-40 | the database directory is the suffix of the last "--dbdir=" argument, unchanged when there is none |
| Analyze.InteractiveFlag | iptrap-analyze.py:41-42 | the interactive flag is set exactly when it was or some argument is "-i" or "--interactive" |
| Analyze.OtherArgIgnored | iptrap-analyze.py:36-42 | any other argument changes nothing |
| Analyze.Classify | iptrap-analyze.py:66-72 | one pass of the loop body gives the line's outcome |
| Analyze.Zip | iptrap-analyze.py:89 | the table's row i holds element i of each column |
| Analyze.Analysis.constructor | iptrap-analyze.py:12-26 | the initial settings are "/var/log", "." and not interactive; the lists are empty, so the column lists agree in length |
| Analyze.Analysis.Rows | iptrap-analyze.py:74-77 | one row per entry of the columns |
| Analyze.Analysis.ParseArguments | iptrap-analyze.py:35-42 | the settings become those of the flag loop over the arguments; the lists are untouched |
| Analyze.Analysis.ParseLines | iptrap-analyze.py:65-77 | the four lists stay equally long and grow by exactly the parsed rows; the result is false exactly where the script dies of IndexError |
| Analyze.Analysis.AppendRow | iptrap-analyze.py:74-77 | the four appends add one row and keep the lists equally long |
| Analyze.Analysis.BuildFrame | iptrap-analyze.py:89 | the table holds the column lists read across |
| Analyze.Analysis.DropDuplicates | iptrap-analyze.py:91 | the table becomes its deduplication in place; nothing else changes |
| RoundTrip.RecordMatches | iptrap-analyze.py:31 | a line written by writeLog (iptrap.py:35, with its newline) matches with exactly its timestamp, family, address and `str(port)` |
| RoundTrip.StampDate | iptrap-analyze.py:69 | the date of a "date time" timestamp is the date |
| RoundTrip.RecordRow | iptrap-analyze.py:65-77 | a written record becomes the row of its date, address, family and port |
| RoundTrip.LogParses | iptrap-analyze.py:65-77 | a log of written records parses completely into their rows, in order |
| RoundTrip.DottedIsIpToken | iptrap-analyze.py:31 | dotted decimal is accepted by the address group |
| RoundTrip.MappedPeerRoundTrip | iptrap.py:88-92 | the line logged for a mapped IPv4 peer is read back as its date, dotted address, "ipv4" and port |
| RoundTrip.MixedNotIpToken | iptrap-analyze.py:31 | text holding both ':' and '.' fits neither class of the address group |
| RoundTrip.DottedTailNotIp | iptrap-analyze.py:31 | the address group fails on any such address without spaces, whatever follows |
| RoundTrip.DottedTailRecordDropped | iptrap-analyze.py:31 | a record whose address mixes ':' and '.' does not match, so it yields no row |
| RoundTrip.CompatiblePeerDropped | iptrap-analyze.py:65-77 | for every A, the trap logs and bans the peer "::" + A as "ipv6", and the analyzer yields no row for that record |

## Left out

- Sockets (iptrap.py:64, 79-87): bind, listen, accept, the banner and close. `Trap.RunTrap` takes the accepted peers' address text as input.
- Processes and signals (iptrap.py:61-75, 116-119, 127-131): `Process.start`, `terminate`, the SIGTERM handler and the idle wait. Only the order of start, stop and persist is modelled, as events.
- Trap.RunTraps: it models the run in which exactly one signal (SIGTERM, whose handler calls `sys.exit(0)` on line 117, or Ctrl-C) ends the idle wait after every trap has started. The shutdown runs inside the `except` block of lines 130-134. A second signal that lands inside the `try` of `stop` (lines 69-75) or of `apply_firewalld` (lines 55-58) is caught there and printed unless it is a KeyboardInterrupt. Only that trap's remaining teardown, or the save, is skipped, and the shutdown goes on. A second signal outside those blocks ends the `except` block early: on line 131's print, between two stops of the loop on lines 132-133, on `stop`'s print on line 68 or on `apply_firewalld`'s print on line 54. The remaining stops and `apply_firewalld` are then skipped, not repeated. A signal during the start loop, before the `try` of line 127, ends `main` with no stop and no persist. None of these interrupted runs is modelled.
- firewalld (iptrap.py:45-58): the `firewall-cmd` subprocesses are not modelled. Banning and persisting appear as the trace events `BanIp` and `PersistRules`.
- The clock, console and file output of `writeLog` (iptrap.py:34, 36-42): the timestamp is a parameter, and `Trap.LogRecord` is the text appended to the file.
- Error paths that only print (iptrap.py:94-96, 109-110, 113; the `except` branches of `stop`): the messages are not modelled. An accept loop ended by an error is not modelled either.
- Trap.RunTrap: the accept loop never ends on its own. The model runs it over a finite sequence of peers.
- Address.Inet6Pton: the textual IPv6 grammar is glibc's `inet_pton`: one to four hex digits per group, at most one "::", an optional dotted IPv4 tail. Zone identifiers are not accepted. Text with an embedded NUL is treated as unparseable, where Python raises ValueError; peer addresses from `accept` never contain NUL.
- Trap.ParseInt: only ASCII digits are modelled. Python's `int()` also accepts other Unicode decimal digits. The white space `int()` skips is `Text.INT_WHITESPACE`: the ASCII tab, line feed, vertical tab, form feed, carriage return and space, plus the non-ASCII characters `str.isspace` accepts. The separators U+001C..U+001F, which `str.isspace` also accepts, are not skipped (`Trap.SeparatorNotSkipped`). The 4300-digit limit is the default of `sys.set_int_max_str_digits` on Python 3.11 and later, and on 3.10.7+, 3.9.14+ and 3.8.14+. Older interpreters have no limit, and a different limit set through `PYTHONINTMAXSTRDIGITS` is not modelled.
- Analyze.MatchLine: the pattern is matched at the start of the line, where `re.search` may find a match further in. Inside the groups `\d` is ASCII 0-9, where Python also accepts other Unicode digits. Every line the trap writes starts with its match.
- Analyzer file and directory handling (iptrap-analyze.py:17-20, 44-51): the directory checks, the exception for a bad directory and `readlines` are left out. The log is given as its lines.
- GeoIP2 (iptrap-analyze.py:53-62, 78-85): the database lookups and the `countries`/`cities` columns are left out. Only AddressNotFoundError is caught there. A lookup error of any other kind ends the script after the four appends of that line, for example the ValueError for a matched token that is not an address (`1.2.3`, `999.1.1.1`). Lines the trap writes never hold such a token.
- Analyze.RunOutcomesFails: "the loop dies exactly when some datetime is blank" assumes no line whose address token makes the GeoIP2 lookup raise anything but AddressNotFoundError.
- Analyze.ParseLogFails: the same assumption as RunOutcomesFails.
- Analyze.Analysis.ParseLines: its result is false exactly where the script dies of IndexError, under the same assumption. A GeoIP2 error other than AddressNotFoundError is not modelled.
- Charts (iptrap-analyze.py:97-176): matplotlib plotting and percentages are left out.
- The interactive console (iptrap-analyze.py:179-197) is left out.
- `flNoGeo` (iptrap-analyze.py:15) is never read by the script.
- Text.StripLeft: its own contract gives only the trimmed front and the length. That the result is a suffix and everything removed is white space is the separate lemma `Text.StripLeftRemoved`, which keeps the proofs about `int()` small.
- Text.StripRight: likewise, the kept prefix and the removed white space are the separate lemma `Text.StripRightRemoved`.
- Frame.GroupSizes: the pandas Series is modelled as a list of (date, count) pairs sorted by date. Its index type and printing are not modelled.
