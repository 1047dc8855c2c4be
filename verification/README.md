# Addresses, subnets and validators of assisted-service, verified

This project models the hand-written address types of `models/custom.go`, the pattern languages
that guard their values, and the tree of generated validators that runs from a cluster down to a
host's installation stage. Every theorem is about all inputs: all texts, all 2^32 and 2^128
addresses, all driver values, all runs of `Scan`, trees of any width and depth.

## How the model is laid out

| files | what they hold |
|---|---|
| `Numerals`, `NumeralOrder`, `Text`, `Bits` | numerals and their order, searching in text, clearing low bits of numbers and of their digits |
| `IPv4`, `IPv6`, `IPv6Print`, `Netip`, `Net` | Go's `net/netip` and `net`: scanners, printers, masks |
| `Networks` | what a prefix denotes: a set of 128-bit addresses, IPv4 embedded at `::ffff:0:0/96` |
| `Driver`, `Runs`, `IP`, `Subnet` | driver values, runs of scans, and `Normalize`, `Equal`, `Value` and `Scan` of the two types |
| `Regex` | regular expressions and whole-string matching, by recursion on the expression |
| `IPPattern`, `SubnetPattern`, `KernelArgumentValue` | the patterns of addresses, subnets and kernel arguments |
| `Rendezvous`, `RendezvousTails`, `RendezvousZones`, `RendezvousCompared` | the rendezvous pattern, compared with the parser over all strings |
| `Examples`, `Exceptions` | the cases of the repository's own unit file, and inputs at which the conditional laws fail |
| `Validation`, `Reporting`, `FieldReporting` | the validators, and what they report on any tree of fields |
| `Cluster`, `ClusterParts`, `ClusterReports`, `FieldOrder`, `Enumerations`, `KernelArguments` | the structs: their fields, requirements, reports, order and enumerations |

The packages `net`, `net/netip` and `regexp` are not part of the repository. Their parsers and
printers are written out here as functions, following section 2.2 of RFC 4291 (input text),
section 3.1 of RFC 4632 (prefix notation) and sections 4 and 5 of RFC 5952 (printing).
`IPv6.Spelling` is the grammar of the texts and is defined apart from the scanner, so that the
scanner is proved against it in both directions. `Networks.Contains` is the denotation of a prefix
and is defined by integer division, apart from the masks. Zones (`%eth0`) are part of the model.

`Scan` overwrites its receiver, so it is a method of a class with one field; its contract equates
the new state with a function of the old state and the driver value, and the lemmas speak of that
function. The generated struct validators test their fields in source order and append to a list
of errors; here the fields are a table, in the same order, and one loop does the appending. What a
host or cluster must satisfy is also written out as a plain predicate (`Cluster.GoodHost`,
`Cluster.GoodCluster`), and so is what it reports, name by name (`ClusterReports.HostReports`,
`ClusterReports.ClusterReports`), apart from the table, and they are proved equivalent. The list
validators keep their index loop, their `continue` on nil and their early return.

## Results worth knowing

Several laws that one would expect hold only under a condition. The condition is proved exact, and
`Exceptions` (for the rendezvous pattern, `RendezvousCompared`) shows an input that breaks each law.

- `IP.Value` is `IP.Normalize` followed by `/32` or `/128` if and only if the address has no zone:
  a prefix drops the zone.
- Writing an IP and reading it back as a `netip.Prefix` restores the canonical text if and only if
  it has no zone. Reading it back as a `net.IP` or `*net.IPNet` restores it if and only if it has
  no zone and is not IPv4-mapped, since package `net` prints mapped addresses as plain IPv4.
- Writing a Subnet and reading it back always gives an `Equal` subnet. Through `netip.Prefix` the
  text is the canonical one if and only if the network is not IPv4-mapped with length 96 or more.
- `Subnet.Value` fails where `Subnet.Normalize` succeeds exactly on prefix lengths written with a
  leading zero (`10.0.0.0/08`).
- A run of `Subnet.Scan` keeps the stored text canonical if and only if every value is well-formed,
  and a `netip.Prefix` is well-formed if and only if it is not IPv4-mapped with length 96 or more.
  `Value` still never fails after such a prefix: over a run it succeeds at every step if and only
  if every text scanned can itself be written and every `net.IPNet` fits. A `net.IPNet` fits when
  its address has 4 or 16 bytes, its mask has a length that goes with it, and the mask is contiguous
  where it covers the address: for an IPv4 or IPv4-mapped address only the last four bytes of a
  16-byte mask matter, so a gap in the first twelve does no harm.
- A normalized IP passes `IP.Validate` if and only if it has no zone and is not IPv4-mapped; a
  normalized Subnet always passes `Subnet.Validate`.
- On texts of digits and dots the rendezvous pattern accepts exactly what `IP.Normalize` accepts. On
  all strings, it accepts without their being parsed exactly `:`, dotted tails with a padded field
  (`::01.2.3.4`), and `fe80:` texts with a zone whose body does not have one gap (`fe80:%eth0`). It
  rejects although they parse exactly `::`, dotted tails behind heads it does not list
  (`1::2:1.2.3.4`), and zoned addresses of another shape than `fe80::` with at most four groups and
  an alphanumeric zone (`fe81::%eth0`).

## Model

| member | source | states |
|---|---|---|
| `NumeralOrder.DigitsInOrder` | models/custom.go:78-87 | The sixteen digits have the values 0 to 15 in the order 0-9, a-f, and capitals those of the small letters |
| `NumeralOrder.DecOrder` | models/custom.go:152-161 | Decimal numerals without leading zeros have the order of their texts, so each has one value |
| `NumeralOrder.HexOrder` | models/custom.go:78-87 | The same for hexadecimal groups in lower case |
| `IPv4.QuadText` | models/custom.go:78-87 | A dotted quad writes its octets in order, first octet first |
| `IPv4.ParseV4Exact` | models/custom.go:78-87 | A text scans as a dotted quad exactly when it is the printed form of that quad: no leading zeros, no second spelling |
| `IPv6.ParseV6Grammar` | models/custom.go:78-87 | The one-pass scanner succeeds exactly on the texts of the RFC 4291 grammar, with the words the grammar gives |
| `IPv6.ParseComplete` | models/custom.go:78-87 | Every spelling, full or elided, with or without a dotted tail, is read as its words |
| `IPv6.ParseSound` | models/custom.go:78-87 | Whatever is read can be cut back into a spelling with those words |
| `IPv6Print.BestRunIsLongestLeftmost` | models/custom.go:77-87 | The printer's search finds the longest run of at least two zero words, leftmost on ties, or there is none |
| `IPv6Print.RecommendedIsPrinted` | models/custom.go:77-87 | A spelling that meets RFC 5952 section 4 is the printed text, so there is only one |
| `IPv6Print.ParseFormatV6` | models/custom.go:78-87 | Parsing undoes printing over all 2^128 addresses, mapped ones included |
| `Netip.ParsedIsSpelled` | models/custom.go:78-87 | Every text that parses as IPv6 is a spelling of its words, perhaps with a zone |
| `Netip.ParseSpelled` | models/custom.go:78-87 | Every spelling, alone or with a zone, parses to its words and that zone |
| `Netip.ParseFormat` | models/custom.go:78-87 | Parsing undoes printing for every address of either family, with any zone |
| `Netip.ParseFormatPrefix` | models/custom.go:102-112 | Parsing undoes printing for every valid prefix |
| `IP.NormalizeKeepsAddress` | models/custom.go:78-87 | Normalize succeeds exactly on the empty and the parsable texts, and its result parses to the same family, bits and zone |
| `IP.NormalizeIdempotent` | models/custom.go:78-87 | Normalizing again changes nothing |
| `IP.SpellingsMeet` | models/custom_test.go:14-21 | Two spellings normalize to one text exactly when they denote the same words |
| `IP.NormalizeIsRecommended` | models/custom.go:77-87 | With any zone, the result is the spelling that RFC 5952 section 4 recommends, and the zone, exactly outside the IPv4-mapped block |
| `IP.NormalizeMapped` | models/custom.go:78-87 | Inside that block it is "::ffff:", the last two words as a dotted quad, and the zone |
| `IP.NormalizeV4` | models/custom.go:78-87 | An IPv4 text is its own normal form and writes the four octets in order |
| `IP.EqualMeaning` | models/custom.go:91-98 | Equal holds exactly for identical texts and for parsable texts of the same family, bits and zone |
| `IP.EqualIsEquivalence` | models/custom.go:89-98 | Equal is an equivalence on all strings, never joins a parsable text to an unparsable one, and joins every text to its normal form |
| `IP.NullIsEmpty` | models/custom.go:102-112 | Null is written for the empty text and no other, and a text is refused exactly when it is neither empty nor parsable |
| `IP.NullRoundTrip` | models/custom.go:102-149 | Scanning null over anything stores a text for which null is written |
| `IP.ValueIsNormalized` | models/custom.go:102-112 | Value is Normalize with the full length appended exactly when there is no zone, and reading it back loses no host bits |
| `IP.RoundTripPrefix` | models/custom.go:102-149 | Value, then Scan of a netip.Prefix, restores the canonical text, and an Equal one, exactly when there is no zone |
| `IP.RoundTripNet` | models/custom.go:102-149 | The same through net.IP and *net.IPNet, exactly when there is no zone and the address is not IPv4-mapped |
| `IP.Column.Scan` | models/custom.go:115-149 | The type switch: what each driver value leaves in the receiver, and that an unsupported type leaves it unchanged with an error |
| `IP.ScanMeaning` | models/custom.go:115-149 | A supported structured value stores a canonical text of the address it carries; null stores the empty text; text is copied |
| `IP.OddAddressText` | models/custom.go:131-132 | The text stored for a net.IP of another length than 4 or 16 |
| `IP.UnsupportedTypes` | models/custom.go:145-147 | The error for a type that Scan does not support names it, and the receiver is unchanged |
| `Driver.TypeNames` | models/custom.go:145-147 | The names of the eight types in such an error |
| `IP.ScanKeepsCanonical` | models/custom.go:115-149 | One Scan over a canonical text leaves a canonical text exactly for well-formed values |
| `Runs.RunKeeps` | models/custom.go:115-149 | What one Scan keeps exactly for good values, a whole run keeps at every step exactly when all its values are good |
| `IP.RunStaysCanonical` | models/custom.go:115-149 | Over any run of Scan calls the text is canonical at every step exactly when every value is well-formed |
| `IP.RunNeverFails` | models/custom.go:102-149 | Over any run Value succeeds after every Scan exactly when every value is writable: texts that can themselves be written, slices of 4 or 16 bytes, and everything else |
| `Bits.KeepBitsClears` | models/custom.go:183-184 | Masking digit by digit clears exactly the low bits of the whole number |
| `Net.AndCIDRMask` | models/custom.go:156-160 | Byte-wise and with a CIDR mask keeps exactly the leading bits |
| `Net.MaskLengthExact` | models/custom.go:156-160 | A mask has length n exactly when it is the contiguous mask of n ones |
| `Net.To4Words` | models/custom.go:156-160 | To4 recognises exactly the IPv4-mapped block and gives its last four octets |
| `Networks.MappedMask` | models/custom.go:156-160 | Masking leaves an address mapped exactly when it was mapped and the length is at least 96 |
| `Networks.WordsNumber` | models/custom.go:163-172 | The number that eight words denote, written out |
| `Networks.BytesNumber` | models/custom.go:126-132 | The address of a net.IP is the number its bytes write, IPv4 embedded at ::ffff:0:0/96, and its family is what To4 says |
| `Net.HexBytesAt` | models/custom.go:131-132 | Bytes in hexadecimal: two digits each, the high one first |
| `Net.ReadCIDRForm` | models/custom.go:152-161 | On a text cut at its only slash net.ParseCIDR reads exactly an address without a zone and a decimal length that its family allows |
| `Networks.PrintedNet` | models/custom.go:156-160 | The byte route of net.ParseCIDR and IPNet.String prints the canonical network of what was read |
| `Networks.SameSetCanonical` | models/custom.go:163-172 | Two prefixes denote the same set of 128-bit addresses exactly when they have the same canonical network |
| `Subnet.NormalizeReads` | models/custom.go:152-161 | Normalize succeeds exactly on the empty and the readable texts and writes the canonical network |
| `Subnet.NormalizeParts` | models/custom.go:152-161 | The normal form is a canonical IP text, a slash and the length in decimal |
| `Subnet.NormalizeKeepsNetwork` | models/custom.go:152-161 | Normalize keeps the set of addresses and is idempotent |
| `Subnet.EqualMeaning` | models/custom.go:165-172 | Equal holds exactly for identical texts and for readable texts that denote the same set of addresses |
| `Subnet.EqualIsEquivalence` | models/custom.go:163-172 | Equal is an equivalence on all strings, never joins a readable text to an unreadable one, and joins every text to its normal form |
| `Subnet.NullIsEmpty` | models/custom.go:175-185 | Null is written for the empty text and no other, and a text is refused exactly when it is neither empty nor read by netip.ParsePrefix |
| `Subnet.NullRoundTrip` | models/custom.go:175-222 | Scanning null over anything stores a text for which null is written |
| `Subnet.ParsePrefixForm` | models/custom.go:175-185 | netip.ParsePrefix on a body and a length of digits, leading zeros refused |
| `Subnet.ParsersAgree` | models/custom.go:152-185 | netip.ParsePrefix reads what net.ParseCIDR reads, to the same prefix, except exactly lengths with leading zeros |
| `Subnet.ValueDomain` | models/custom.go:152-185 | Where Value succeeds Normalize does; the converse fails exactly on padded lengths |
| `Subnet.ValueAgrees` | models/custom.go:152-185 | Both denote the network that was read; the texts are identical except exactly for IPv4-mapped networks of length 96 or more |
| `Subnet.RoundTripPrefix` | models/custom.go:175-222 | Value, then Scan of a netip.Prefix, is always Equal to the original, and canonical exactly outside IPv4-mapped networks |
| `Subnet.RoundTripNet` | models/custom.go:175-222 | Value, then Scan of a net.IPNet or *net.IPNet, always restores the canonical text |
| `Subnet.Column.Scan` | models/custom.go:188-222 | The type switch: what each driver value leaves in the receiver, and that an unsupported type leaves it unchanged with an error |
| `Subnet.ScanMeaning` | models/custom.go:188-222 | A supported structured value stores the text of the network it carries, masked if it came as a netip.Prefix, and both parsers read it so; null stores the empty text; text is copied |
| `Subnet.UnfitText` | models/custom.go:201-207 | The text stored for a net.IPNet that does not fit |
| `Subnet.UnsupportedTypes` | models/custom.go:218-220 | The error for a type that Scan does not support names it, and the receiver is unchanged |
| `Networks.CarriedExact` | models/custom.go:201-207 | A net.IPNet prints as a network exactly when it fits (lengths that go together, and a mask contiguous in the bytes that cover the address), and then as the address of its bytes with the length of that mask |
| `Networks.CarriedHostBits` | models/custom.go:201-207 | The network it prints as is masked exactly when no bit of the address is set where the covering mask has a zero |
| `Subnet.NetStringCanonical` | models/custom.go:201-207 | A net.IPNet prints as a canonical text exactly when it fits and no host bit is set under the covering mask |
| `Subnet.ScanKeepsCanonical` | models/custom.go:188-222 | One Scan over a canonical text leaves a canonical text exactly for well-formed values |
| `Subnet.RunStaysCanonical` | models/custom.go:188-222 | Over any run of Scan calls the text is canonical at every step exactly when every value is well-formed |
| `Subnet.NetStringWritable` | models/custom.go:201-207 | A net.IPNet prints as a text that Value accepts exactly when it fits |
| `Subnet.RunNeverFails` | models/custom.go:175-222 | Over any run Value succeeds after every Scan exactly when every value is writable; IPv4-mapped prefixes and host bits do no harm |
| `IPPattern.ColonsExact` | models/ip.go:22-33 | The IPv6 branch accepts exactly the hex-and-colon texts with at least two colons |
| `IPPattern.ValidIPMeaning` | models/ip.go:22-33 | The whole pattern accepts exactly the empty text, four dotted fields of one to three digits, and hex with at least two colons |
| `IPPattern.LooseQuadParses` | models/ip.go:22-33 | A loose quad parses exactly when each of its fields is an octet without leading zeros |
| `IPPattern.ParsableHexColonIsValid` | models/ip.go:22-33 | Every hex-and-colon text that parses is accepted |
| `IPPattern.ParsableIsValid` | models/ip.go:22-33 | Of the texts that parse, exactly the IPv4 ones and those of hex and colons are accepted |
| `IPPattern.NormalizedIsValid` | models/ip.go:22-33 | A normalized text is accepted exactly when the address has no zone and is not IPv4-mapped |
| `IPPattern.NormalizeKeepsValid` | models/ip.go:22-33 | Normalize keeps accepted parsable texts accepted, except exactly the IPv4-mapped ones |
| `SubnetPattern.Length32Exact` | models/subnet.go:26 | The IPv4 length alternation is exactly the unpadded numerals 0 to 32 |
| `SubnetPattern.Length128Exact` | models/subnet.go:26 | The IPv6 length alternation is exactly the unpadded numerals 0 to 128 |
| `SubnetPattern.ValidSubnetMeaning` | models/subnet.go:22-33 | The whole pattern, on a text cut at its slash: a loose quad and a length up to 32, or hex with at least two colons and a length up to 128 |
| `SubnetPattern.DecideExact` | models/subnet.go:22-33 | A computation that decides the pattern over all strings |
| `SubnetPattern.ReadIsValid` | models/subnet.go:22-33 | Of the texts that Normalize reads, exactly those without a dotted tail and without a padded length are accepted |
| `SubnetPattern.PrintedPrefixIsValid` | models/subnet.go:22-33 | A printed prefix is accepted exactly when its address is not IPv4-mapped |
| `SubnetPattern.NormalizedIsValid` | models/subnet.go:22-33 | Whatever Normalize writes passes Validate |
| `SubnetPattern.WrittenIsValid` | models/subnet.go:22-33 | Whatever Value writes passes Validate except exactly for IPv4-mapped networks |
| `Rendezvous.QuadExact` | models/infra_env.go:388-398 | The IPv4 branch accepts exactly the texts that parse as IPv4 |
| `Rendezvous.ElidedMatches` | models/infra_env.go:388-398 | The bounded repetitions together accept every k + j groups around "::" with 1 <= k + j <= 7 |
| `Rendezvous.PlainExact` | models/infra_env.go:388-398 | The ten alternatives without dots or zones accept exactly the spellings that write a group, and ":" |
| `Rendezvous.QuadTextsAgree` | models/infra_env.go:388-398 | On digits and dots the pattern accepts exactly what Normalize accepts |
| `Rendezvous.HexColonTextsAgree` | models/infra_env.go:388-398 | On hex and colons the same, except exactly ":" and "::" |
| `Rendezvous.ExceptionsAreReal` | models/infra_env.go:388-398 | The two exceptions are decided differently |
| `RendezvousTails.TailOctetExact` | models/infra_env.go:388-398 | The tail's octet alternative accepts exactly the octets, and one digit behind a padding zero |
| `RendezvousTails.TailsExact` | models/infra_env.go:388-398 | The alternatives with a dotted tail accept exactly the listed heads before four such octets |
| `RendezvousTails.DottedParses` | models/custom.go:78-87 | A text with colons and dots parses exactly when six groups, or "::" among at most five, stand before an exact quad |
| `RendezvousTails.AcceptedTailParses` | models/infra_env.go:388-398 | An accepted dotted text is parsed exactly when no field of its tail is padded |
| `RendezvousTails.ParsedTailAccepted` | models/infra_env.go:388-398 | A parsed dotted text is accepted exactly when its head is one that the pattern lists |
| `RendezvousZones.LinkLocalExact` | models/infra_env.go:388-398 | The zoned alternative accepts exactly "fe80:", up to four short fields and an alphanumeric zone |
| `RendezvousZones.AcceptedZoneParses` | models/infra_env.go:388-398 | An accepted zoned text is parsed exactly when its body has one gap |
| `RendezvousZones.ParsedZoneAccepted` | models/infra_env.go:388-398 | A parsed zoned text is accepted exactly when it starts with "fe80::", has no dot, at most five colons and an alphanumeric zone |
| `RendezvousCompared.AcceptedButUnparsable` | models/infra_env.go:388-398 | Over all strings, exactly which texts the pattern accepts and Normalize rejects |
| `RendezvousCompared.ParsedButRejected` | models/infra_env.go:388-398 | Over all strings, exactly which texts Normalize accepts and the pattern rejects |
| `RendezvousCompared.PaddedTailIsAccepted` | models/infra_env.go:388-398 | "::01.2.3.4" is accepted and not parsed |
| `RendezvousCompared.InnerGapIsRejected` | models/infra_env.go:388-398 | "1::2:1.2.3.4" is parsed and not accepted |
| `RendezvousCompared.BareLinkLocalIsAccepted` | models/infra_env.go:388-398 | "fe80:%eth0" is accepted and not parsed |
| `RendezvousCompared.OtherZonedIsRejected` | models/infra_env.go:388-398 | "fe81::%eth0" is parsed and not accepted |
| `Examples.V4IsUnchanged` | models/custom_test.go:18 | "192.168.1.1" stays as it is |
| `Examples.MixedCaseIsLowered` | models/custom_test.go:16 | "2001:0DB8::ABCD" becomes "2001:db8::abcd" |
| `Examples.V4HostBitsAreMasked` | models/custom_test.go:74 | "192.168.1.5/24" becomes "192.168.1.0/24" |
| `Examples.ThirdOctetIsMasked` | models/custom.go:152-161 | "10.0.128.0/16" becomes "10.0.0.0/16" |
| `Examples.InvalidIsAnError` | models/custom_test.go:19-20 | "invalid" is refused as an address and as a subnet |
| `Exceptions.ZoneIsLost` | models/custom.go:102-149 | At a zoned address Value is not Normalize with the length, both round trips lose the zone and the normal form fails IP.Validate |
| `Exceptions.MappedAddressChanges` | models/custom.go:102-149 | At "::ffff:1.2.3.4" the round trip through package net gives another address, and the normal form fails IP.Validate |
| `Exceptions.NormalFormIsRejected` | models/ip.go:22-33 | At the same address in hexadecimal IP.Validate accepts the text and rejects its normal form |
| `Exceptions.PaddedLengthDiffers` | models/custom.go:152-185 | At "10.0.0.0/08" Normalize succeeds and Value fails |
| `Exceptions.MappedNetworkDiffers` | models/custom.go:152-222 | At "::ffff:1.2.3.4/104" Value and Normalize differ, the round trip keeps the difference, and what Value writes fails Subnet.Validate |
| `Exceptions.MappedScanEndsTheRun` | models/custom.go:188-222 | One scan of that network ends a canonical run, and Value still succeeds |
| `Exceptions.EmptyAddressIsNotWritable` | models/custom.go:102-149 | After an empty net.IP is scanned Value fails |
| `Exceptions.EmptyNetIsNotWritable` | models/custom.go:175-222 | After a net.IPNet without an address is scanned Value fails |
| `Exceptions.GapBeforeTheCover` | models/custom.go:201-207 | A 16-byte mask with a gap in its first twelve bytes still prints as a canonical, writable IPv4 network |
| `KernelArgumentValue.ScanDecides` | models/kernel_argument.go:101-111 | A one-pass scanner decides the counting definition: quotes pair up and white space lies inside a pair |
| `KernelArgumentValue.CutPieces` | models/kernel_argument.go:101-111 | Any accepted scan can be cut back into pieces that the pattern's body matches |
| `KernelArgumentValue.PatternIsBalanced` | models/kernel_argument.go:101-111 | The pattern accepts exactly the non-empty balanced texts |
| `KernelArguments.ArgumentReports` | models/kernel_argument.go:39-54 | Nil exactly for a good argument; otherwise exactly the names and faults of its bad fields |
| `KernelArguments.ValidateArgument` | models/kernel_argument.go:39-54 | Nil exactly when the operation is empty, append, replace or delete and the value is empty or balanced |
| `KernelArguments.ValidateArguments` | models/kernel_arguments.go:23-48 | Nil exactly when every non-nil element is good; otherwise the errors of the first bad element under its index |
| `KernelArguments.NamesOfArgument` | models/kernel_arguments.go:23-48 | The full names reported for a bad element, in both directions |
| `Validation.Validate` | models/host_progress_info.go:44-63 | Grows the error list field by field and returns the composite the specification gives |
| `Validation.ValidateItems` | models/cluster.go:734-758 | The list loop: nil skipped, first bad element returned under its index |
| `Validation.ValidateScalars` | models/host.go:519-538 | The loop over plain values: every element checked, first bad one returned under its index |
| `Reporting.RuleFaultExact` | models/cluster.go:515-529 | The fault of a rule is of the kind its failing value calls for: absent, under or over the range, or the kind of its check |
| `Reporting.NodeExact` | models/cluster.go:300-463 | No error exactly when every constraint at every depth holds |
| `Reporting.RenameReports` | vendor/github.com/go-openapi/errors/schema.go:145-156 | Renaming puts the prefix before every name reported, keeps every fault, and adds none |
| `Reporting.DotsInjective` | vendor/github.com/go-openapi/errors/headers.go:54-66 | A dotted name has one path, so a reported name leads to one place |
| `Reporting.ReportsVisible` | models/cluster.go:734-758 | The names reported are exactly the dotted paths that reach a failing value past no earlier bad list element |
| `Reporting.PathReported` | models/cluster.go:734-758 | A given path is reported exactly when following it from the root reaches such a value |
| `FieldReporting.NodeReportsFields` | models/host.go:207-302 | A struct reports exactly the names and faults that its fields report |
| `FieldReporting.ReportsFollowFields` | models/host.go:207-302 | The reports stand in the order of the fields, in one composite |
| `FieldReporting.RenameKeepsOrder` | vendor/github.com/go-openapi/errors/schema.go:145-156 | Renaming keeps the order of the reports and puts the prefix before each |
| `FieldOrder.SmallFieldNames` | models/host_progress_info.go:44-63 | The fields of a progress, a virtual address, a host network and a kernel argument, in the order of the checks |
| `FieldOrder.HostFieldNames` | models/host.go:207-302 | The fields of a host, in the order of the checks |
| `FieldOrder.ClusterFieldNames` | models/cluster.go:300-463 | The fields of a cluster, in the order of the checks |
| `Enumerations.HostKinds` | models/host.go:378 | The 2 values accepted, and no others |
| `Enumerations.MediaStatuses` | models/host.go:462 | The 2 values accepted, and no others |
| `Enumerations.HostStatuses` | models/host.go:597 | The 28 values accepted, and no others |
| `Enumerations.CpuArchitectures` | models/cluster.go:585 | The 6 values accepted, and no others |
| `Enumerations.HighAvailabilityModes` | models/cluster.go:670 | The 2 values accepted, and no others |
| `Enumerations.HyperthreadingRoles` | models/cluster.go:773 | The 9 values accepted, and no others |
| `Enumerations.ClusterKinds` | models/cluster.go:938 | The 3 values accepted, and no others |
| `Enumerations.NetworkTypes` | models/cluster.go:1101 | The 6 values accepted, and no others |
| `Enumerations.ClusterStatuses` | models/cluster.go:1269 | The 12 values accepted, and no others |
| `Enumerations.HostStages` | models/host_stage.go:78 | The 13 values accepted, and no others |
| `Enumerations.HostRoles` | models/host_role.go:54 | The 5 values accepted, and no others |
| `Enumerations.LogsStates` | models/logs_state.go:54 | The 5 values accepted, and no others |
| `Enumerations.VipVerifications` | models/vip_verification.go:48 | The 3 values accepted, and no others |
| `Cluster.HostExact` | models/host.go:207-302 | The host's fields, taken together, hold exactly when the written-out requirements do: what is required, its enumerations, formats, its progress and every stage listed |
| `Cluster.ClusterExact` | models/cluster.go:300-463 | The same for the cluster: requirements, enumerations, formats, ranges, subnets, every host and every nested struct |
| `ClusterReports.ProgressReported` | models/host_progress_info.go:44-113 | The names and faults a progress reports, field by field |
| `ClusterReports.HostReported` | models/host.go:207-302 | The names and faults a host reports, field by field with literal names, the progress under its own |
| `ClusterReports.ClusterReported` | models/cluster.go:300-463 | The names and faults a cluster reports, field by field with literal names, the first bad element of each list under its index |
| `ClusterReports.VipReported` | models/api_vip.go:34-105 | The names and faults a virtual address reports |
| `ClusterReports.ValidateProgress` | models/host_progress_info.go:44-63 | Nil exactly when the stage is empty or listed and both times are absent or well formatted; otherwise exactly the written-out reports |
| `ClusterReports.ValidateHost` | models/host.go:207-302 | Nil exactly when every written-out requirement on the host holds; otherwise exactly the written-out reports |
| `ClusterReports.ValidateCluster` | models/cluster.go:300-463 | Nil exactly when every written-out requirement on the cluster holds at every depth, for lists of any length; otherwise exactly the written-out reports |
| `ClusterParts.VipExact` | models/api_vip.go:34-105 | A virtual address holds exactly when its cluster id is empty or a uuid, its text passes IP.Validate and its verification is nil or listed |
| `ClusterParts.HostNetworkExact` | models/host_network.go:44-58 | A host network holds exactly when every one of its host ids is a uuid |
| `ClusterParts.HostIdReported` | models/host_network.go:44-58 | host_ids.i is reported exactly when it is the first id that is not a uuid |
| `Cluster.ProgressVisible` | models/host.go:500-517 | progress.current_stage is reported by a host exactly when the stage is set and not listed |
| `Cluster.StageReported` | models/cluster.go:734-758 | hosts.i.progress.current_stage is reported exactly when that stage is bad and every earlier host is good |

## Left out

- Wording of error messages: only the kind of failure, the reported name and the offending type name are modelled.
- IP.Normalize: the text that the source returns beside an error, which is the text given, is not part of the result here; the same holds for the Normalize of a Subnet.
- Errors updated in place: renaming an error changes the object in the source and gives a new value here, so sharing of error objects is not captured.
- Formats such as uuid and date-time: the registry that decides them is a parameter; a format name it does not know is not distinguished.
- Structs off the path from the cluster to the current stage: the cluster holds any trees of fields under the checks that `Validation.Check` lists, and only those of `ClusterParts` have their own tables written out.
- The scan of a string or byte slice as a round trip: the text is copied verbatim, so only what the database prints decides it.
- Strings are sequences of characters rather than bytes; texts that are not valid UTF-8 are not modelled.
- DomainResolutionRequestDomain with the domain name rules it calls, ContextValidate and the JSON methods.
- The truncation error names of models/inventory.go and the patterns of models/free_addresses_request.go and models/free_network_addresses.go.
- Status state machines, monitors, service wiring, HTTP client and mocks.
