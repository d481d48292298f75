# Transport addresses: a verified model

This project models the address layer of a small UDP transport library and proves what it
promises. Its centre is the text codec for IPv6 addresses in `src/IPLocator.cpp`:

* the gate `IPv6isCorrect`, which checks a text by counting colons and taking quartets from a
  stream;
* the reader `setIPv6`, which works out from colon counts alone where a "::" stands and how
  many bytes it is worth, and then drives a stream through one of four loops into a sixteen-byte
  array;
* the printer `toIPv6string`, which looks for the leftmost longest run of zero groups and prints
  with a countdown.

Neither function shows that the two undo each other. The proof goes through a grammar that
knows neither of them: forms 1 and 2 of section 2.2 of RFC 4291 and the eight groups each text
denotes. The reader is proved to write those groups for every address text, the printed text is
proved to be the only one that follows section 4 of RFC 5952, and the round trip follows. That text
is not always the shortest: not compressing a single group (section 4.2.2) and preferring the
leftmost run (section 4.2.3) can cost one character, and `ShortestIff` says when.

Around the codec stand the dotted texts of IPv4, WAN and LAN addresses, the order of locators,
the duplicate-free `LocatorList`, the normalization of wildcard locators by the two UDP
transports, and the registry and resource lists of `TransportFactory`.

## How the model is built

* `Text`, `Digits`, `CharStream`: strings split at colons, numerals, and `std::stringstream` as
  a text with a read position and a fail flag. A stream at its end and a failed stream treat
  every later extraction alike, so the end-of-file flag is not modelled.
* `IPv6Grammar`: the address texts and what they denote, independent of the code.
* `IPv6Gate`, `IPv6Text`, `IPv6Meaning`, `IPv6Bounds`, `IPv6Answers`, `IPv6Zones`, `IPv6Reader`: the
  gate and the reader. The loops over the array refine functions of the text (`IPv6Text`);
  `IPv6Meaning` proves those functions against the grammar, `IPv6Bounds` says when they stay inside
  the array, `IPv6Answers` what the answer true means, and `IPv6Zones` which bytes an address has
  in front of any zone. Loops that occur in several branches of the reader are one method here.
* `ZeroRuns`, `IPv6Printer`, `IPv6Canonical`, `IPv6Codec`: the printer, the recommendations it
  follows, and the theorems about reading and printing together.
* `IPv6Letters`, `IPv6Examples`: upper and lower case, and the gate, the reader and the printer in
  plain numbers, characters and bytes.
* `Locators`, `LocatorOrder`, `LocatorLists`, `IPv4`, `IPv4Language`, `IPv4Numbers`, `IPLocator`:
  struct `Locator`, its order, the list, the dotted texts, `createLocator`.
* `Normalize`, `Transports`, `Factory`, `Resources`: normalization, registry and resource lists.

Integer widths are explicit: addresses hold octets, kinds and ports are 32-bit, casts to
`unsigned char` take the remainder, and numbers too large for a stream extraction saturate.

## Where the code and its comments differ

* The comment at `src/IPLocator.cpp:931-939` lists what makes an address incorrect and misses
  one case: three to seven groups without a "::" pass all checks. `setIPv6` then reads past the
  text, repeats the last group and returns true (`ReadShort`, `ShortExample`). Without a zone, a
  text the reader accepts is an address exactly when it has a "::" or seven colons
  (`AcceptedIsAddress`). With a zone an address is never answered with true (`ZoneFlag`), but a
  short list can be, when its zone supplies missing groups: "1:2:3%", "1:2:3%a" and "1:2:3%a.b"
  are. `TrueIff` says exactly when the answer is true, for zones without white space, signs and x.
* The comments at `src/IPLocator.cpp:281-284` compute the zero block from the number of colons.
  The count includes the colons of a zone, which the gate does not bound, and the sizes are 16-bit
  numbers. `OverrunIff` says exactly which texts send the loops beyond the sixteen bytes,
  `OverrunExample` shows one that the gate accepts.
* A zone without a colon does not disturb the bytes of an address (`ReadAddress`). One with a colon
  can: "1::2%a:b" is stored as 1:0:0:0:0:0:2:a (`ZoneOfGroups`, `ZoneExample`). `Form1ZoneIff` and
  `Form2ZoneIff` say exactly when the bytes are right.
* The comment at `include/transport/type.h:130` describes `operator>` with the words for
  `operator<`; the code compares in the direction its name says.
* `setIPv4` reports a format of four numbers with dots, but accepts more than `IPv4_REGEX` matches,
  for example "1,2,3,4" and "0001.2.3.4" (`AcceptedNotMatched`). The expression
  matches exactly those accepted texts that have digits and dots only and no four digits in a row
  (`MatchesIff`).

## Model

| member | source | states |
|---|---|---|
| IPv6Gate.IPv6IsCorrect | src/IPLocator.cpp:923-1001 | the gate accepts exactly the texts whose part before '%' is an RFC 4291 address of form 1 or 2, or a list of three to seven groups |
| IPv6Gate.QuartetsAreCorrect | src/IPLocator.cpp:977-998 | running count+1 times with get, clear and take-colon checks exactly the fields between the colons |
| IPv6Gate.ChecksGrammar | src/IPLocator.cpp:940-975 | the checks on counts, ends and "::" together with the quartets hold exactly for the addresses and the short lists of the grammar |
| IPv6Gate.AddressOrShort | src/IPLocator.cpp:931-939 | an accepted text is an address iff it has a "::" or seven colons, otherwise it is a short list |
| IPv6Examples.ListAccepted | src/IPLocator.cpp:930-1000 | fields joined by single colons are accepted iff there are three to eight, each of at most four characters out of 0-9, a-f, A-F |
| IPv6Examples.DoubleAccepted | src/IPLocator.cpp:930-1000 | the same for fields around one "::": at most seven together |
| Digits.HexSet | src/IPLocator.cpp:30 | the hexadecimal characters are exactly those of the class [A-Fa-f0-9] |
| Digits.DigitTable | src/IPLocator.cpp:467 | what each of the 22 digits is worth, and that the lower-case one is printed |
| IPv6Letters.AcceptsLower | src/IPLocator.cpp:977-998 | the gate accepts a text iff it accepts it in lower case |
| IPv6Letters.IsAddressLower | src/IPLocator.cpp:977-998 | a text is an address iff it is one in lower case |
| IPv6Letters.LowerTable | src/IPLocator.cpp:30 | lower case, letter by letter |
| IPv6Letters.ExpandLower | src/IPLocator.cpp:230-237 | a text in any case denotes the groups of its lower-case form |
| IPv6Letters.SameLetters | src/IPLocator.cpp:226-427 | any two texts that differ only in the case of letters are accepted alike and read with the same flag and bytes, zones included |
| IPv6Grammar.ExpandForm2 | src/IPLocator.cpp:230-237 | the groups a text with "::" denotes do not depend on how it is taken apart: the values before, zeros up to eight, the values after |
| IPv6Grammar.ExpandBound | src/IPLocator.cpp:321-342 | every address text denotes exactly eight groups, each below 65536 |
| IPv6Text.BlockOf | src/IPLocator.cpp:259-316 | every zero-block size the 16-bit colon arithmetic yields is even and not zero; with two to eight colons it is at most 16 and a middle block fits with its position |
| IPv6Reader.MeasureZeros | src/IPLocator.cpp:259-316 | at most one of the three sizes is set, that of the block at the start, at the end or in the middle, with the position of a middle one, all as BlockOf says |
| IPv6Reader.MeasureMiddle | src/IPLocator.cpp:296-315 | the search from colon to colon finds the first "::", sets its size, and counts two bytes for every colon up to it |
| IPv6Reader.FillBefore | src/IPLocator.cpp:335-345 | the loop taking a character and a number writes the groups of the stream from the given byte on, leaves the other bytes, and stops at a value beyond 16 bits |
| IPv6Reader.FillAfter | src/IPLocator.cpp:356-366 | the same for the loop taking a number and a character, whose limit may be negative or beyond the array when a large value stops it in time |
| IPv6Reader.BuildAddress | src/IPLocator.cpp:259-427 | for every text that keeps the loops inside the array, flag and sixteen bytes are those of the branch the colon arithmetic selects, whatever the locator held before |
| IPv6Reader.SetIPv6 | src/IPLocator.cpp:226-427 | refused kinds and texts change nothing; an address, alone or with a zone without a colon, writes exactly the bytes it denotes; with any zone an address is answered with true iff there is no zone; what true means for every text whose zone has no white space, sign or x |
| IPv6Meaning.ReadForm2 | src/IPLocator.cpp:324-426 | whichever branch a text with "::" takes, zone or not, the bytes are the groups before, the missing zeros, the groups after |
| IPv6Meaning.ReadAddress | src/IPLocator.cpp:226-427 | parser correctness: every address, alone or with a zone without a colon, passes the gate and is read to exactly the bytes it denotes, so no range check fires; the result is true iff no zone follows |
| IPv6Examples.ReadEight | src/IPLocator.cpp:407-426 | "0123:4567:89ab:cdef:FEDC:BA98:7654:3210" is read to the bytes 01 23 45 67 89 ab cd ef fe dc ba 98 76 54 32 10 |
| IPv6Examples.ReadLinkLocal | src/IPLocator.cpp:375-406 | "FE80::1" is accepted and read to the bytes fe 80, thirteen zeros, and 01 |
| IPv6Meaning.MiddleZone | src/IPLocator.cpp:375-406 | a zone makes a "::" at the end look like one in the middle; the group read in its place is zero, so the bytes are right |
| IPv6Meaning.PlainZone | src/IPLocator.cpp:407-424 | after seven groups the zone hides the "::" altogether; the eighth group is still read as zero |
| IPv6Meaning.ReadShort | src/IPLocator.cpp:407-424 | a list of too few groups is no address, yet the reader returns true and repeats the last group |
| IPv6Meaning.ShortExample | src/IPLocator.cpp:407-424 | "1:2:3" is read as 1:2:3:3:3:3:3:3 |
| IPv6Meaning.AcceptedIsAddress | src/IPLocator.cpp:253-257 | every accepted text without a zone is read with result true; it is an address iff it has a "::" or seven colons, and then the bytes are the ones it denotes |
| IPv6Answers.TrueIsPlain | src/IPLocator.cpp:324-426 | no branch with a zero block extracts enough characters to use up a text with a zone, so only the last branch can answer it with true |
| IPv6Answers.ZoneFlag | src/IPLocator.cpp:226-427 | an address in front of a zone is never answered with true, whatever the zone holds |
| IPv6Answers.ShortZone | src/IPLocator.cpp:407-426 | for every zone: a short list is answered with true iff the zone has no "::", does not end in a colon, and reading the missing groups from it uses it up |
| IPv6Answers.ShortZoneNumber | src/IPLocator.cpp:407-426 | a zone of one number behind a short list, with white space, a sign and 0x allowed in front of its digits: true iff the digits fit 32 bits and the signed value modulo 2^32 fits 16; it is read for all missing groups |
| IPv6Answers.ShortZoneIff | src/IPLocator.cpp:407-426 | without white space, sign or x in the zone that means: from the percent sign on no two neighbours are both no hexadecimal digits, there are at most as many such characters as groups missing, no run of digits exceeds 16 bits, and the last character is no colon; the runs become the next groups and the last group is repeated |
| IPv6Answers.ShortZoneExample | src/IPLocator.cpp:407-426 | "1:2:3%" is answered with true as 1:2:3:3:3:3:3:3, "1:2:3%a.b" as 1:2:3:a:b:b:b:b |
| IPv6Answers.TrueIff | src/IPLocator.cpp:226-427 | an accepted text, its zone without white space, sign or x, is answered with true iff it has no zone, or has no "::" in front of the zone and the zone supplies missing groups in that way |
| IPv6Zones.Form1ZoneIff | src/IPLocator.cpp:259-426 | eight groups and any zone: the bytes written, and that they are those of the address iff the zone does not end in a colon, or has two colons, or has one and the eighth group is zero, or all groups are zero |
| IPv6Zones.Form2ZoneIff | src/IPLocator.cpp:259-426 | an address with "::" and any zone: the bytes written, and that they are those of the address iff the zone has no colon, or all groups behind the "::" are zero, and so are the numbers of the zone where they are read in place of those groups, and the groups before the "::" where none is read |
| IPv6Zones.ZoneOfGroups | src/IPLocator.cpp:375-406 | a zone of groups moves the groups behind the "::" to the left and all but its last group take their place, with result false |
| IPv6Zones.ZoneExample | src/IPLocator.cpp:375-406 | "1::2%a:b" is stored as 1:0:0:0:0:0:2:a |
| IPv6Bounds.OverrunIff | src/IPLocator.cpp:259-406 | for every text, the loops stay inside the sixteen bytes iff it is not one of these: no colon at the end, and either a colon at the start with colons modulo 2^15 outside 1 to 9, or a "::" whose position and size exceed eight groups while the numbers before it fit 16 bits |
| IPv6Bounds.OverrunColons | src/IPLocator.cpp:259-406 | below 2^15 colons that means: more than nine for a block at the start, more than eight for one in the middle |
| IPv6Bounds.Form2Inside | src/IPLocator.cpp:259-406 | an address with "::" and any zone, fewer than 2^15 colons in all, keeps the loops inside iff the text ends in a colon or has at most eight colons, nine when it begins with one |
| IPv6Bounds.OverrunExample | src/IPLocator.cpp:375-393 | "1::2%a:b:c:d:e:f:g:h" passes the gate and overruns |
| IPv6Printer.ScanZeros | src/IPLocator.cpp:468-515 | the scan yields start and length of the leftmost longest run of zero groups, one at the end included |
| IPv6Printer.PrintedStep | src/IPLocator.cpp:527-553 | one turn of the countdown loop prints a group outside the run, nothing inside it, and a colon at its last group |
| IPv6Printer.ToIPv6String | src/IPLocator.cpp:457-556 | the printed text is the recommended one: "::" for the leftmost longest run of two or more, plain groups otherwise |
| IPv6Examples.PrintedRun | src/IPLocator.cpp:468-555 | "::" stands for the run of zero groups, of two or more, that is longer than every other or left of those as long |
| IPv6Examples.PrintedFull | src/IPLocator.cpp:513-555 | without two zero groups side by side all eight groups are printed |
| IPv6Examples.HexText | src/IPLocator.cpp:467-555 | a group is printed as the one text of lower-case digits without leading zeros that has its value |
| IPv6Examples.PrintTie | src/IPLocator.cpp:457-556 | of two runs of two the first is compressed: "2001:db8::1:0:0:1" |
| IPv6Codec.CompressedReads | src/IPLocator.cpp:233-237 | compressing any zero run of an address gives a text that denotes the address |
| IPv6Codec.RoundTrip | src/IPLocator.cpp:226-556 | for all sixteen bytes, the printed text passes the gate and is read back to the same bytes with result true, and with any zone without a colon behind it to the same bytes with result false |
| IPv6Codec.PrintInjective | src/IPLocator.cpp:457-556 | different addresses have different printed texts |
| IPv6Codec.SameAddress | src/IPLocator.cpp:226-556 | two address texts denote the same address iff reading and printing them gives the same text |
| IPv6Codec.NearlyShortest | src/IPLocator.cpp:478-555 | every text for the address that is shorter than the printed one is shorter by exactly one character |
| IPv6Codec.ShortestIff | src/IPLocator.cpp:478-555 | a shorter text exists iff a longest zero run lies inside the address while the printed text compresses none (section 4.2.2 of RFC 5952) or one at the start (section 4.2.3) |
| IPv6Codec.LengthBounds | src/IPLocator.cpp:517-555 | a printed address has 2 to 39 characters |
| IPv6Canonical.RecommendedIff | src/IPLocator.cpp:460-466 | an address text obeys sections 4.1 to 4.3 of RFC 5952 iff it is the printed text of its address |
| IPv6Canonical.PrintedRecommended | src/IPLocator.cpp:457-556 | every printed text is lower case, without leading zeros, with "::" for the whole leftmost longest run and only for two groups or more |
| IPLocator.CreateLocator | src/IPLocator.cpp:33-58 | kind and port are set, the address is that of the text under the kind, zeros when the text is refused |
| IPLocator.CreateTrailing | src/IPLocator.cpp:33-58 | the flag of the setter is ignored: "192.168.1.1:80" gives 192.168.1.1 |
| Locators.KindNumbers | include/transport/type.h:67-73 | the numbers of the kinds for IPv4 and IPv6 |
| IPLocator.RecreateV6 | src/IPLocator.cpp:33-58 | an IPv6 locator is rebuilt from its printed address |
| IPLocator.RecreateV4Iff | src/IPLocator.cpp:33-58 | an IPv4 locator is rebuilt from its printed address iff it has no LAN identifier and no WAN address |
| IPv4.SetIPv4 | src/IPLocator.cpp:93-128 | flag and bytes for every text: only the last four bytes change, values above 255 are refused before storing, trailing text after |
| IPv4.SetWan | src/IPLocator.cpp:648-665 | flag and bytes for every text; values are cut to octets |
| IPv4.SetLanID | src/IPLocator.cpp:694-720 | flag and bytes for every text; only TCPv4 locators take one |
| IPv4.SetIPv4Address | src/IPLocator.cpp:1003-1015 | all three parts are stored, or the address ends as zeros and the result is false |
| IPv4Numbers.IPv4OfNumbers | src/IPLocator.cpp:93-128 | for any four numbers with white space, signs and separators, and any text behind: the bytes are stored iff each number, modulo 2^32, is at most 255; text behind them costs the flag only |
| IPv4Numbers.WanOfNumbers | src/IPLocator.cpp:648-665 | four numbers that an int holds are cut to octets, anything larger changes nothing |
| IPv4Numbers.LanOfNumbers | src/IPLocator.cpp:694-720 | the same for eight numbers, under TCPv4 only |
| IPv4Numbers.OnlyTCPv4 | src/IPLocator.cpp:698-719 | for every other kind a LAN identifier changes nothing and setting all three parts leaves zeros |
| IPv4Numbers.TrailingPort | src/IPLocator.cpp:117-123 | "192.168.1.1:80" is answered with false after its four bytes are stored |
| IPv4.ToIPv4String | src/IPLocator.cpp:158-167 | prints the last four bytes as a dotted text |
| IPv4.ToWanString | src/IPLocator.cpp:683-692 | prints bytes 8 to 11 as a dotted text |
| IPv4.ToLanIDString | src/IPLocator.cpp:728-747 | prints bytes 0 to 7 for TCPv4, nothing for other kinds |
| IPv4.GetIpByLocatorV4 | src/IPLocator.cpp:1081-1086 | the same text as toIPv4string, and it fits the buffer of sixteen characters |
| IPv4.OctetTextIff | src/IPLocator.cpp:28-29 | the alternatives of the regular expression are one to three digits with a value up to 255 |
| IPv4.RegexAccepted | src/IPLocator.cpp:93-128 | every text the expression matches, leading zeros included, is accepted with the value of each field, bytes 0 to 11 untouched |
| IPv4.IPv4RoundTrip | src/IPLocator.cpp:158-167 | a printed address matches the expression, has 7 to 15 characters, and is read back to the same four bytes |
| IPv4.SeparatorIgnored | src/IPLocator.cpp:110-123 | any separator other than white space and digits is accepted, so the setter takes texts the expression does not match |
| IPv4Language.MatchesIff | src/IPLocator.cpp:28-128 | for every text, IPv4_REGEX matches iff setIPv4 accepts it and it consists of digits and dots without four digits in a row |
| IPv4Language.AcceptedNotMatched | src/IPLocator.cpp:93-128 | setIPv4 accepts "1,2,3,4" and "0001.2.3.4", which the expression does not match |
| IPv4.ThreePartRoundTrip | src/IPLocator.cpp:1003-1015 | the three printed parts of a TCPv4 locator restore its sixteen bytes in any TCPv4 locator |
| LocatorOrder.LayoutInjective | include/transport/type.h:93-109 | the 24 bytes of two locators agree iff kind, port and address do |
| LocatorOrder.LayoutBytes | include/transport/type.h:93-109 | the 24 bytes: kind in two's complement and port with the low byte first, then the address |
| LocatorOrder.LessIff | include/transport/type.h:147-151 | the first byte in which two locators differ decides |
| LocatorOrder.KindOrder | include/transport/type.h:147-151 | the low bytes of the kinds come first, so small kinds stand in their order, and -1 behind them, whatever port and address are |
| LocatorOrder.StrictTotalOrder | include/transport/type.h:133-151 | `<` is a strict total order, `>` its converse, and neither holds iff the locators are equal |
| LocatorOrder.ByteOrder | include/transport/type.h:147-151 | `<` orders by kind, port and address, where kind and port are compared with their bytes swapped |
| LocatorOrder.PortOrderIff | include/transport/type.h:147-151 | for equal kind and address the lowest byte in which the ports differ decides, so `<` is the order of the ports iff the lowest and the highest such byte compare the same way; 256 comes before 255 |
| LocatorOrder.DifferExists | include/transport/type.h:147-151 | there are such bytes iff the ports differ |
| LocatorLists.ListEqualIff | include/transport/type.h:337-363 | on duplicate-free lists equal size and one-way inclusion mean equal sets |
| LocatorLists.ListEqualEquivalence | include/transport/type.h:337-363 | so equality is reflexive, symmetric and transitive |
| LocatorLists.ListEqualNeedsDistinct | include/transport/type.h:337-363 | with a duplicate it is not even symmetric |
| LocatorLists.BulkInsert | include/transport/type.h:449-479 | any calls of the two push_back overloads on an empty list leave the first occurrences of all inputs, in order and without duplicates |
| LocatorLists.FirstOccurrencesOrder | include/transport/type.h:449-479 | of two elements the one that first occurs earlier comes first |
| LocatorLists.LocatorList.Equals | include/transport/type.h:337-363 | the two loops decide equal size and one-way inclusion |
| LocatorLists.LocatorList.Assign | include/transport/type.h:421-429 | afterwards the lists are equal; an equal list is not copied; a list without duplicates stays one |
| LocatorLists.LocatorList.PushBack | include/transport/type.h:449-465 | appends a new locator, ignores a present one, keeps the list duplicate-free |
| LocatorLists.LocatorList.PushBackList | include/transport/type.h:472-479 | adds the list element by element; pushing a list into itself changes nothing |
| LocatorLists.LocatorList.Swap | include/transport/type.h:518-522 | exchanges the contents |
| Transports.NormalizeUDPv4 | src/udp/UDPv4Transport.cpp:159-187 | four zero bytes become those of each interface, each once, or 127.0.0.1 when there is none; other locators stay |
| Transports.NormalizeUDPv6 | src/udp/UDPv6Transport.cpp:112-139 | the same for sixteen zero bytes, the loopback address read from "::1" by the IPv6 reader |
| Transports.LoopbackText6 | src/udp/UDPv6Transport.cpp:126-131 | "::1" passes the gate and denotes fifteen zero bytes and a one |
| Normalize.OneElements | src/udp/UDPv4Transport.cpp:159-187 | which locators a transport makes of one: itself, the rewritten interfaces, or the loopback |
| Normalize.OneMakes | src/udp/UDPv4Transport.cpp:159-187 | what one locator becomes, in bytes: under a registered UDPv4 transport the last four zero bytes, under UDPv6 sixteen zero bytes, are replaced by those of each interface, or of 127.0.0.1 and ::1 when there is none; everything else stays |
| Normalize.NormalizedMakes | src/TransportFactory.cpp:131-157 | a normalized list holds exactly what its locators become in that sense |
| Normalize.NormalizedConcat | src/TransportFactory.cpp:131-157 | a list is normalized part by part, earlier parts first and without repetitions |
| Normalize.NormalizedV4 | src/udp/UDPv4Transport.cpp:164-173 | a wildcard becomes the interface addresses in the order of the interfaces |
| Normalize.NormalizedV6 | src/udp/UDPv6Transport.cpp:117-125 | the same for UDPv6 |
| Normalize.LoopbackExample | src/udp/UDPv6Transport.cpp:126-131 | with both UDP transports and no interface, the locator "::" of any port becomes ::1 |
| Normalize.RewriteKeeps | src/udp/UDPv4Transport.cpp:164-173 | kind, port and the first twelve bytes of an IPv4 locator survive; what comes out is stable or unchanged |
| Normalize.NormalizeIdempotent | src/TransportFactory.cpp:131-157 | normalizing a normalized list gives the identical sequence, for every list and every set of interfaces |
| Normalize.NormalizedSources | src/TransportFactory.cpp:131-157 | the result has no duplicates, every locator comes from one of its kind and port, and no source is lost |
| Normalize.WildcardSurvives | src/TransportFactory.cpp:131-157 | a wildcard of a registered kind is in the result iff it was given and some interface of that kind has an all-zero address |
| Factory.RegistryKinds | src/TransportFactory.cpp:86-129 | after any calls the registered kinds are distinct: those of the descriptors whose transport was created and started |
| Factory.RegistryOrder | src/TransportFactory.cpp:91-112 | of two registered kinds the one that first had a working descriptor comes first |
| Factory.RegistrySize | src/TransportFactory.cpp:114-126 | the message size is the least of 2^32-1 and the sizes of the descriptors that created a transport |
| Factory.RegisterAgain | src/TransportFactory.cpp:91-99 | registering a kind again changes nothing |
| Factory.TransportFactory.RegisterTransport | src/TransportFactory.cpp:86-129 | the result is true iff the kind was registered or the transport could be created and started; one call changes kinds and size as the run says |
| Factory.TransportFactory.NormalizeLocators | src/TransportFactory.cpp:131-157 | the loops without a break compute what the first supporting transport of each locator gives, because kinds are distinct; the list then holds exactly what its locators become by their bytes |
| Resources.ResourceList.BuildSendResources | src/TransportFactory.cpp:42-61 | a matching kind whose channel opens adds one resource; null iff the list then has none with the locator, otherwise the first |
| Resources.ResourceList.BuildReceiverResources | src/TransportFactory.cpp:63-84 | the same, and a refused channel of a matching kind answers null |
| Resources.HeldIff | src/TransportFactory.cpp:42-84 | over any run the list holds exactly what the supported calls opened |
| Resources.AnswerFirst | src/TransportFactory.cpp:55-83 | over any run the answer is the resource of the first call that opened a channel for the locator |
| Resources.NoneIff | src/TransportFactory.cpp:55-83 | null means a refusal on the receiving side or that no call so far opened a channel for the locator; a call that opens one is never answered with null |
| Resources.SameResource | src/TransportFactory.cpp:55-83 | over any run, calls with equal locators that return a resource return the same one, and it carries the locator |
| Resources.NullOnlyWhenRefused | src/TransportFactory.cpp:63-84 | once a locator has a resource, a later call returns null iff the receiving side is refused |

## Left out

- IPv6Reader.SetIPv6: requires that an accepted text stays inside the sixteen bytes, because beyond them the C++ code has no defined meaning; `OverrunIff` says which texts that excludes.
- IPv6Meaning.ReadAddress: is stated for zones without a colon, because with one the bytes can be wrong; `Form1ZoneIff` and `Form2ZoneIff` say when.
- IPv6Zones.Form2ZoneIff: and `Form1ZoneIff` are stated for texts of fewer than 2^15 colons, where the sizes do not wrap around; the numbers read from a zone are those of the stream functions, given outright for zones of groups.
- IPv6Answers.TrueIff: excludes white space, signs and x in the zone, which a number extraction skips; `ShortZoneNumber` covers them in a zone of one number, `ShortZone` covers every zone in terms of the stream functions.
- IPv4.SetIPv4: what it stores for texts that are not four numbers with one separator each between them is left to the stream functions.
- Normalize.NormalizeIdempotent: is stated for the two UDP transports, because what a transport of another kind makes of a locator is not in the repository.
- Factory.TransportFactory.NormalizeLocators: the interfaces reported by the system are a fixed parameter, and transports are represented by their kinds.
- Resources.ResourceList.BuildSendResources: what opening a channel does (bind, multicast join, handle reuse) is a parameter: nothing, one more resource, or a refusal.
- Sockets, the event loop, sending and receiving: foreign calls.
- Interface, MAC and name lookup in `src/IPFinder.cpp`: operating-system I/O.
- Big-endian layouts of ports and locators.
- Logical and physical port packing, `isLocal`, `isMulticast`, `hasWan`, `compareAddress` and the setters taking numbers: one-line members.
- Metatraffic defaults and `fill_*_locator`: easy members of the transports.
- Changing list elements through non-const iterators and `erase`: the first bypasses the invariant, the second keeps it trivially.
