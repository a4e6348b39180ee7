# Verification of the URI core of rhymuri

A Dafny model of the Rust crate `rhymuri`, which implements RFC 3986: percent coding, the IPv4, IPv6
and host/port recognisers, the authority and URI parser and printer, path normalisation and reference
resolution. Text is a sequence of Unicode scalar values, component contents are arbitrary bytes, and
nothing is bounded in length. `dafny verify dfyconfig.toml` checks the whole project.

The main results, each for all inputs:

- **Round trip, exactly.** `parse(print(u)) == Ok(canon(u))` if and only if `Printable(u)`
  (`RoundTrips.RoundTrip`), where `canon` lower-cases scheme and host. For parsed text, `Printable`
  comes down to a condition on the raw components (`RoundTrips.ParsedPrintable`). For every URI built by
  parsing, normalising and resolving in any combination, the round trip holds if and only if the path it
  took verbatim from parsed text, if any, has no stray escape and the URI does not read as having a scheme
  it lacks (`Resolution.BuiltRoundTrips`); with a scheme, and from texts without stray escapes, it always
  holds (`Resolution.NoStraysRoundTrip`).
- **Accepted text is URI-reference, but for a named condition.** `parse` succeeds with `u` exactly on the
  texts of a grammar that spell `u` (`References.ParseAccepts`). Among the accepted texts the
  URI-references of appendix A of RFC 3986 are exactly those that conform, and among the URI-references
  the accepted ones are exactly those that fit (`RfcReferences.ParseAcceptsReferences`).
- **`normalize_path`, said on the path alone.** The result is exactly the segments that survive, in
  order, with a closing slash where the path ends at a directory (`Survivors.NormalizeIsNormalForm`):
  no dot segment survives, no empty segment after a directory, and none that a later `..` removes.
- **`normalize_path` against section 5.2.4 of RFC 3986.** The printed text of the normalised path is
  `remove_dot_segments` of the printed text of the path, as the RFC's character-level rewriting loop
  computes it, if and only if `AgreesWithRfc` holds: a condition on relative as well as absolute paths
  that follows the three places where the code departs from the RFC
  (`DotSegments.NormalizeIsRemoveDotSegments`).
- **`resolve` against section 5.2.2.** The printed components of the target are those of the RFC's
  algorithm on the printed components of base and reference, if and only if `ResolveAgrees` holds
  (`Resolution.ResolveIsTransform`); it decides the path alone, since scheme, authority, query and
  fragment always agree (`Resolution.ResolveComponents`), and the path is given for every base and
  reference (`Resolution.ResolvePath`). That covers base paths of one relative segment, which `resolve`
  keeps and the RFC drops: unless that segment is a dot segment, the two then agree only if the reference
  leaves it with a leading `..`, or if section 5.2.4 happens to catch up with it
  (`LoneBases.NormalizeLone`). And a target resolves to itself against every base if and only if a
  verbatim copied path was already normal (`Resolution.ResolveStable`).
- **Recognisers equal grammars.** The IPv6 automaton accepts exactly the nine alternatives of
  IPv6address with leading zeros allowed in the octets of an IPv4 part, so the RFC's addresses are
  exactly the accepted ones without such zeros (`Ipv6.ValidateAcceptsRfcAddresses`); its result on
  every text, errors included, is the first fault from the left (`Ipv6.ValidateResult`). The IPv4
  automaton accepts exactly four octets. The host/port automaton accepts exactly a reg-name, an IPv6
  literal or an IPvFuture literal whose number and body may be empty, followed by an optional port that
  may start with `+` (`HostPort.ParseAccepts`); the host and port of the RFC are exactly the accepted
  texts without these liberties, except that a port above 65535 and an IPvFuture that starts with `V` are
  rejected (`RfcHosts.ParseAcceptsRfc`).
- **Every character printed, every error returned.** The printed form is given character by character,
  with the raw characters of each component written out (`PrintedText.PrintIsPrinted`), and `parse` fails
  with an error exactly if that is the first fault of the text (`Rejections.ParseRejects`).
- **Splitting is appendix B.** The staged split recomposes to the input, is inverse to recomposition,
  and equals the regular expression of appendix B of RFC 3986 if and only if the text before a first
  colon could be a scheme by that expression (`Components.SplitIsAppendixB`).

## How the source is represented

- `Codec.DecodeElement`, `Codec.EncodeElement`, `Paths.NormalizePath`, `Paths.DisplayPath`, the two
  `Display` methods and `Resolution.ResolveReference` are methods with the source's loops and local
  updates, each tied to a function of its inputs. The percent decoder and the URI struct with its
  mutating methods are classes (`PercentDecoder.PercentEncodedCharacterDecoder`,
  `UriObjects.MutableUri`).
- The three automata take their state by value and hand back a new one in the source, so they are
  datatypes with `Next` functions and a fold; `char_indices` gives byte offsets, which agree with
  character positions here because every character accepted before an IPv4 part is ASCII.
- `HashSet<char>` is `set<char>`; integer `parse` is an explicit decimal reader (digits, optional
  leading `+`, bounded value).
- `String::from_utf8` in the authority printer is replaced by "all bytes are ASCII": a host with other
  bytes either is not UTF-8 or contains a non-ASCII character, and `Ipv6.AcceptedIsAscii` shows that
  such text is never a valid address, so the branch taken is the same.

## Where the code differs from its documentation or from RFC 3986

The code is modelled as written.

- An escape cut short by the end of an element is dropped silently, so that `%` is accepted
  (`RfcReferences.UnfinishedAccepted`). In a path this can turn
  `x:/%/b` into a URI that prints as `x://b` (`RoundTrips.StrayEscapeExample`).
- Any colon before the first slash is taken as the end of a scheme, so the relative reference `?a:b` is
  rejected (`RoundTrips.BadSchemeRejected`, `RfcReferences.ColonInQueryIsReference`).
- `normalize_path` drops an empty segment read at directory level, adds no slash for a final dot segment
  after an empty segment, and keeps a relative path relative when `..` removes its first segment
  (`DotSegments.NormalizeDiffers`).
- Normalising a relative reference can expose a segment that reads as a scheme
  (`Resolution.NormalizeMayExposeScheme`).
- `resolve` copies an absolute reference path without removing dot segments, so that `/a/..` stays
  `/a/..` (`Resolution.AbsoluteCopied`), treats a base path of one
  relative segment as a directory, so that `b` against `a` is `a/b` and not `b`
  (`Resolution.LoneSegmentKept`), and adds no slash after an authority with an empty path.
- An IPvFuture host is printed without brackets, percent-encoded like a name: `[v7.a:b]` becomes
  `v7.a%3Ab`. A name whose bytes spell an IPv6 address is printed in brackets: `%3A%3A1` becomes
  `[::1]`. No other host changes its kind (`Authorities.HostKindKept`).
- `set_path_from_str("/")` stores two empty segments, where the documentation of `path` and the parser
  have one (`UriObjects.PathFromStringRoundTrip`).
- IPv4 octets may have leading zeros, also in an IPv6 address (`Ipv6.LeadingZeroAccepted`), IPvFuture version and body may be empty (`RfcHosts.EmptyFutureAccepted`), and a port may start with `+`
  (`RfcHosts.PlusPortAccepted`). An IPvFuture that starts with a capital `V` is rejected
  (`RfcHosts.CapitalFutureRejected`).

## Model

| member | source | states |
|---|---|---|
| PercentDecoder.Decoder.Next | src/percent_encoded_character_decoder.rs:18-50 | one character keeps the decoder at two digits left with value 0 or one digit left with value below 16; it fails exactly on a non-hexadecimal character and is reset after a failure or a completed byte |
| PercentDecoder.PercentEncodedCharacterDecoder.constructor | src/percent_encoded_character_decoder.rs:11-16 | a new decoder is in the reset state |
| PercentDecoder.PercentEncodedCharacterDecoder.Next | src/percent_encoded_character_decoder.rs:18-31 | the object's new fields and result are those of the value-level step, and shift and addition stay within a byte |
| PercentDecoder.PercentEncodedCharacterDecoder.Reset | src/percent_encoded_character_decoder.rs:33-36 | puts the decoder back in the reset state |
| PercentDecoder.PercentEncodedCharacterDecoder.ShiftInHexDigit | src/percent_encoded_character_decoder.rs:38-50 | shifts in the digit's value, or resets and reports an illegal percent encoding |
| Literals.BasicClasses | src/character_classes.rs:1-119 | the basic character sets are the letters, digits and marks of RFC 3986, written out |
| Literals.ComponentClasses | src/character_classes.rs:1-119 | so are the sets for names, userinfo, path segments, fragments and printed queries, the last without `+` |
| Literals.LowerCharIs | src/uri.rs:416-417 | lower-casing a character maps each capital letter to its small one and leaves everything else alone |
| Literals.LowerByteIs | src/parse_host_port.rs:47-49 | the same on bytes |
| Literals.HexDigits | src/percent_encoded_character_decoder.rs:38-50 | a digit's value is its position among the sixteen digits, in either case; printing uses the capital one |
| Literals.DecodeEscape | src/codec.rs:13-42 | an escape decodes to sixteen times its first digit plus its second |
| Literals.EscapeCase | src/codec.rs:13-42 | the case of the digits of escapes changes no decoding |
| Literals.EncodeComponent | src/codec.rs:44-56 | for each component, the bytes written as themselves are those of its listed characters; all others become escapes with capital digits |
| Codec.DecodeElement | src/codec.rs:13-42 | the character loop with its flag and decoder object returns what decoding escape by escape returns, errors included |
| Codec.DecodeFromIsDecode | src/codec.rs:21-41 | from the initial flag and decoder, reading one character at a time equals reading whole escapes |
| Codec.DecodeAccepts | src/codec.rs:13-42 | decoding succeeds with bytes b exactly for allowed characters and complete escapes that spell b, optionally followed by one escape cut short at the end |
| Codec.DecodeUnfinished | src/codec.rs:26-41 | text decodes to no bytes exactly if it is empty or a lone unfinished escape |
| Codec.EncodeElement | src/codec.rs:44-56 | the encoding loop writes the encoding of every byte in order |
| Codec.EncodeTokens | src/codec.rs:44-56 | the encoding consists of allowed characters and complete escapes that spell exactly the given bytes |
| Codec.EncodeCharacters | src/codec.rs:44-56 | the encoding contains only allowed characters, `%` and upper-case hexadecimal digits |
| Codec.DecodeEncode | src/codec.rs:13-56 | decoding an encoding with the same or a larger character set gives back every byte sequence, and no escape is left unfinished |
| Codec.ReencodeNotLonger | src/codec.rs:13-56 | re-encoding decoded text with the set used for decoding never lengthens it |
| Decimal.ValueFront | src/validate_ipv4_address.rs:29-42 | decimal place value, digit by digit from the front |
| Decimal.ParseUintIs | src/parse_host_port.rs:49-58 | digits are read to their value if it fits, and a plus sign before them changes nothing |
| Decimal.NumeralValue | src/authority.rs:174-176 | a printed number consists of digits of that value, without a leading zero |
| Decimal.ParseNumeral | src/authority.rs:174-176 | a printed number reads back in every type wide enough for it |
| Ipv4.ValidateResult | src/validate_ipv4_address.rs:19-105 | the automaton's result, error variants included, is decided by the first faulty dot-separated part from the left and by the number of parts |
| Ipv4.ValidateAccepts | src/validate_ipv4_address.rs:19-105 | accepts exactly four non-empty decimal strings of value at most 255 joined by dots |
| Ipv4.ValidateAcceptsRfcAddresses | src/validate_ipv4_address.rs:29-42 | the RFC's IPv4address are exactly the accepted texts without leading zeros |
| Ipv4.AcceptedCharacters | src/validate_ipv4_address.rs:63-97 | accepted text consists of decimal digits and dots |
| Ipv4.RunInvariant | src/validate_ipv4_address.rs:44-97 | after every prefix read, the group count is the number of dots read and at most four, and the buffer is the digits after the last dot |
| Ipv6.ValidateAccepts | src/validate_ipv6_address.rs:43-252 | accepts exactly groups of one to four hexadecimal digits split by single colons, at most one `::`, an optional final IPv4 part worth two groups; eight groups without `::`, at most seven with it |
| Ipv6.ValidateAcceptsRfcAddresses | src/validate_ipv6_address.rs:43-252 | accepts exactly the nine alternatives of IPv6address with leading zeros allowed in the IPv4 part; the RFC's addresses are exactly the accepted texts whose IPv4 part, if any, has no leading zeros |
| Ipv6.LeadingZeroAccepted | src/validate_ipv6_address.rs:49-54 | `::01.2.3.4` is accepted and is no IPv6address of the RFC |
| Ipv6.ValidateResult | src/validate_ipv6_address.rs:43-252 | the automaton's result, error variants included, is decided by the first faulty colon-separated piece from the left, or else by the IPv4 part and the number of groups |
| Ipv6.GroupsCounted | src/validate_ipv6_address.rs:56-75 | groups without `::` are an address if they count eight, too few below and too many above |
| Ipv6.ElidedCounted | src/validate_ipv6_address.rs:56-75 | groups around a `::` are an address if they count at most seven, and too many otherwise |
| Ipv6.ResultInGroup | src/validate_ipv6_address.rs:165-209 | inside a group, the result for the whole text is the one decided from the start of that group, given the groups and the `::` already read |
| Ipv6.ResultAfterColon | src/validate_ipv6_address.rs:211-234 | after a group's colon, the end of text is a truncated host, a second colon is one too many if `::` was read before, and anything else starts a group |
| Ipv6.AcceptedIsAscii | src/validate_ipv6_address.rs:113-252 | accepted text consists of hexadecimal digits, colons and dots, so converting it to bytes cannot fail |
| Ipv6.AcceptedLower | src/validate_ipv6_address.rs:113-252 | lowering the case of accepted text leaves it accepted |
| Ipv6.Run | src/validate_ipv6_address.rs:237-250 | the fold never moves the start of a possible IPv4 part past the characters read |
| Ipv6.RunInvariant | src/validate_ipv6_address.rs:77-235 | after every prefix read, the counters are the colon-ended groups and the length of the current group, the flag is set exactly if `::` was read, and the IPv4 start is the start of an all-decimal current group |
| HostPort.Next | src/parse_host_port.rs:87-213 | every step keeps the percent decoder valid and reset outside the escape state, and every conversion to a byte is in range |
| HostPort.Run | src/parse_host_port.rs:216-224 | the decoder invariant holds after every text read |
| HostPort.RunRegName | src/parse_host_port.rs:106-139 | on text without a colon the machine fails with the codec's error or collects the codec's bytes, and ends inside an escape exactly if the text does |
| HostPort.ParseNotIpLiteral | src/parse_host_port.rs:34-139 | a text not starting with `[` succeeds exactly if its part before the first colon decodes without an unfinished escape; host is the lower-cased decoding; the errors for a cut-short escape, a bad host and a bad port are given |
| HostPort.ParseIpv6 | src/parse_host_port.rs:141-158 | a bracketed text is validated up to the first `]`, returned verbatim, and may only be followed by a port; without `]` it is truncated |
| HostPort.ParseIpvFuture | src/parse_host_port.rs:160-204 | the result after `[v`, errors included, in terms of the longest hexadecimal prefix, the dot and the longest body |
| HostPort.ParseAccepts | src/parse_host_port.rs:34-224 | succeeds with a host and port exactly for reg-name, `[` IPv6 `]` or `[v` hex* `.` body* `]`, followed by nothing or by a colon and an empty or u16 port, that spell that host and port |
| PrintedText.NameLowered | src/parse_host_port.rs:47-49 | the host of a name is its decoding with each capital ASCII letter made small and every other byte unchanged |
| PrintedText.NamesFoldCase | src/parse_host_port.rs:34-224 | names that differ only in the case of ASCII letters give the same result |
| RfcHosts.ParseAcceptsRfc | src/parse_host_port.rs:34-224 | an accepted text is host and port of sections 3.2.2 and 3.2.3 of RFC 3986 exactly if an IPvFuture has number and body, an IPv4 part no leading zeros and the port no `+`; a host and port of the RFC is accepted exactly if the port is at most 65535 and it does not start with `[V` |
| RfcHosts.EmptyFutureAccepted | src/parse_host_port.rs:160-204 | `[v.]` is accepted and is no host of the RFC |
| RfcHosts.PlusPortAccepted | src/parse_host_port.rs:49-58 | `:+8` is accepted and has no port of the RFC |
| RfcHosts.CapitalFutureRejected | src/parse_host_port.rs:74-77 | `[V7.a]` is a host of the RFC and is rejected |
| RfcHosts.PortAlone | src/parse_host_port.rs:49-58 | a colon and decimal digits is accepted exactly if their value is at most 65535 |
| RfcHosts.HostPortAvoids | src/parse_host_port.rs:87-213 | neither accepted nor RFC texts contain a delimiter that ends an authority or a userinfo |
| Authorities.Display | src/authority.rs:147-179 | the printer writes userinfo, host and port one after the other |
| Authorities.PrintHostText | src/authority.rs:159-173 | the printed host, bracketed or percent-encoded, is a host text of the grammar for the lower-cased host, whatever its bytes |
| Authorities.HostKindKept | src/authority.rs:159-173 | printing a parsed host keeps it a name, an IPv6 literal or an IPvFuture literal exactly if it is not IPvFuture and not a name that spells an IPv6 address; brackets are printed exactly for IPv6 addresses |
| Authorities.Ipv6Reprinted | src/authority.rs:159-173 | an IPv6 literal is printed as it was read, in lower case |
| Authorities.RegNameBecomesIpv6 | src/authority.rs:159-173 | the name `%3A%3A1` is printed as `[::1]` |
| Authorities.FutureBecomesRegName | src/authority.rs:159-173 | the literal `[v7.a:b]` is printed as `v7.a%3Ab` |
| Authorities.PrintAuthorityAvoids | src/authority.rs:147-179 | printed authorities contain no delimiter that ends an authority, and no `@` after the userinfo |
| Authorities.AuthorityRoundTrip | src/authority.rs:116-179 | parsing a printed authority gives it back with its host in lower case, for arbitrary bytes and any port |
| Paths.NormalizePath | src/uri.rs:261-310 | the loop over segments with its flag computes the fold whose results are characterised below |
| Paths.StepsInvariant | src/uri.rs:275-298 | after every prefix of segments the rebuilt path is normal, rooted exactly if the input is, and no longer than what was read |
| Paths.NormalizeResult | src/uri.rs:257-310 | the result has no dot segments and no adjacent empty segments, is no longer than the input, and is absolute exactly if the input is |
| Paths.NormalizeFixedPoints | src/uri.rs:261-310 | the fixed points are exactly the paths without dot segments and adjacent empty segments |
| Survivors.NormalizeIsNormalForm | src/uri.rs:261-310 | the result is exactly the surviving segments in order, which are told from the input alone, and a closing empty segment where it ends at a directory |
| Paths.NormalizeIdempotent | src/uri.rs:261-310 | normalising twice is normalising once |
| Paths.DisplayPath | src/uri.rs:789-797 | the path part of the printer writes the encoded segments joined with slashes, and a lone root as a slash |
| Paths.PathRoundTrip | src/uri.rs:357-386 | a printed path parses back to itself exactly if it is not two empty segments |
| Paths.PathTextFacts | src/uri.rs:222-227 | a path's text is empty exactly for the empty path and starts with a slash exactly if the path is absolute |
| DotSegments.RemoveRooted | src/uri.rs:261-310 | on rooted text the RFC's rewriting loop is a stack of segments that keeps every segment until a `..` removes it |
| DotSegments.NormalizeIsRemoveDotSegments | src/uri.rs:236-310 | the printed normalised path is remove_dot_segments of the printed path exactly if `AgreesWithRfc` holds, for every path |
| DotSegments.NormalizeTidy | src/uri.rs:236-310 | on absolute paths without interior empty segments normalisation is remove_dot_segments |
| DotSegments.NormalizeDiffers | src/uri.rs:279-308 | three paths on which it is not, one for each difference |
| DotSegments.RemoveDotSegmentsFixed | src/uri.rs:547-554 | remove_dot_segments leaves an absolute path's text alone exactly if it has no dot segments, which is when copying it verbatim is right |
| Components.SplitRecompose | src/uri.rs:324-355 | splitting recomposed components gives them back |
| Components.RecomposeSplit | src/uri.rs:324-333 | recomposing the raw components of any text rebuilds it exactly, and the components contain only what their stage allows |
| Components.SplitTailOk | src/uri.rs:343-404 | the query and fragment split from the text after the path rebuild that text, and the query contains no `#` |
| Components.SplitIsAppendixB | src/uri.rs:406-422 | the staged split is the regular expression of appendix B exactly if a colon before the first slash ends a non-empty text without `?` and `#` |
| Uris.ParseFragment | src/uri.rs:343-355 | hands on the text before the first `#`, which is how the query stage gets nothing or text starting with `?`, as it requires |
| Uris.ParseIsSplitThenDecode | src/uri.rs:320-422 | the staged parser is: split, then decode scheme, authority, path, fragment and query in that order, with the first error |
| PrintedText.PrintIsPrinted | src/uri.rs:778-815 | the printed form of every URI, character by character, with the raw characters of each component written out |
| PrintedText.AuthorityIsPrinted | src/authority.rs:147-179 | the printed form of every authority, with brackets exactly around bytes that spell an IPv6 address |
| PrintedText.PlusPrinted | src/uri.rs:798-811 | a plus sign is never raw in a printed query and always in a printed fragment |
| Uris.Display | src/uri.rs:778-815 | the printer writes the components recomposed as in section 5.3 of RFC 3986 |
| References.AuthorityAccepted | src/authority.rs:116-145 | an authority is accepted with a value exactly if its text is an optional userinfo and `@`, and host and port, that spell that value |
| References.ParseAccepts | src/uri.rs:320-422 | parsing succeeds with a URI exactly on the recompositions of component texts that spell that URI |
| Rejections.DecodeRejects | src/codec.rs:13-42 | decoding fails with an error exactly if it is that of the first fault: a character out of place or an escape without digits |
| Rejections.AuthorityRejects | src/authority.rs:116-145 | an authority is rejected with a fault of its userinfo, in that context, or else with the error of host and port |
| Rejections.PathRejects | src/uri.rs:357-386 | a path is rejected with the fault of its first faulty segment, in the context of paths |
| Rejections.ParseRejects | src/uri.rs:320-422 | parsing fails with an error exactly if it is the first fault in the order scheme, authority, path, fragment, query, each in its own context |
| RfcReferences.AuthorityRelation | src/authority.rs:116-145 | an accepted authority is one of the RFC exactly if userinfo, host and port conform; one of the RFC is accepted exactly if host and port fit |
| RfcReferences.ParseAcceptsReferences | src/uri.rs:320-422 | accepted text is a URI-reference of appendix A exactly if no escape is unfinished and the authority conforms; a URI-reference is accepted exactly if no colon in query or fragment reads as a scheme's end and the authority fits |
| RfcReferences.ColonInQueryIsReference | src/uri.rs:406-422 | `?a:b` is a URI-reference and is rejected |
| RfcReferences.UnfinishedAccepted | src/codec.rs:23-41 | `%` is accepted and is no URI-reference |
| RoundTrips.RoundTrip | src/uri.rs:320-422 | parsing the printed form gives the URI back, scheme and host in lower case, if and only if it is Printable |
| RoundTrips.PrintedScheme | src/uri.rs:406-422 | the printed form of a URI without a scheme is taken to have one exactly if it has no authority, its path is relative, and a colon is in the first segment or, with at most one segment, in query and fragment before any slash |
| Codec.EncodeBefore | src/codec.rs:44-56 | with colon and slash written raw, the encoding has a colon before its first slash exactly if the bytes do |
| RoundTrips.PrintInjective | src/uri.rs:778-815 | printing is injective on Printable URIs in canonical form |
| RoundTrips.ParsedPrintable | src/uri.rs:320-386 | a parsed URI is Printable exactly if its raw path has no stray escape at its start and, without a scheme, neither the first raw segment nor, with only one, query and fragment before any slash spell a colon, raw or escaped |
| Codec.DecodedSpells | src/codec.rs:13-42 | decoding yields exactly the bytes that characters and escapes spell, in their order |
| RoundTrips.ParsePrintParse | src/uri.rs:320-422 | for accepted text with a scheme and no stray escape, parse-print-parse gives the canonical form and further rounds change nothing |
| RoundTrips.CompleteNotStray | src/codec.rs:23-41 | text whose path has only complete escapes has no stray escape at the start of its path |
| RoundTrips.CompletePrintParse | src/uri.rs:320-422 | accepted text with a scheme and only complete escapes in its path round trips, and further rounds change nothing |
| RoundTrips.StrayEscapeExample | src/codec.rs:23-41 | a text for which it does not |
| RoundTrips.AcceptedIsAppendixB | src/uri.rs:320-422 | accepted text is split as appendix B of RFC 3986 says and decoded component by component |
| RoundTrips.BadSchemeRejected | src/uri.rs:133-155 | a colon before the first slash with no valid scheme before it is an error, empty or illegal |
| RoundTrips.ColonInQueryExample | src/uri.rs:406-422 | a relative reference by appendix B that is rejected for its query's colon |
| Resolution.ResolveReference | src/uri.rs:517-591 | the method with the cloned, popped and extended path computes the target characterised below |
| Resolution.MergeIsMergedPath | src/uri.rs:556-564 | popping and extending the base's segments spells merge of section 5.2.3 exactly if the base is not one relative segment nor empty after an authority |
| LoneBases.CompareForked | src/uri.rs:275-307 | once section 5.2.4 has lost the first segment, its text and that of `normalize_path` end up equal exactly if an empty segment makes up the number and a `..` removes the one segment that differs |
| LoneBases.NormalizeLone | src/uri.rs:556-572 | for a base path of one relative segment, the target's path is remove_dot_segments of the reference's path, as section 5.2.3 asks, exactly if `LoneAgrees` holds, for every relative reference |
| LoneBases.LoneTidy | src/uri.rs:556-572 | without interior empty segments that is exactly if a `..` is among the reference's leading dot segments and `normalize_path` agrees on the reference |
| Resolution.ResolveLoneAsDirectory | src/uri.rs:559-561 | a base path of one relative segment resolves like the same path with a slash after it |
| Resolution.LoneSegmentKept | src/uri.rs:559-561 | against a base path of one segment `a`, a reference of one segment `b` gives `a/b`, where section 5.2.2 gives `b` |
| Resolution.LoneSegmentCatchesUp | src/uri.rs:559-561 | against the base path `a`, the reference `a/.//..` gives what section 5.2.2 gives |
| Resolution.ResolveComponents | src/uri.rs:517-591 | scheme, authority, query and fragment of the target are those of section 5.2.2 for every base and reference |
| Resolution.ResolvePath | src/uri.rs:517-591 | the target's path for every base and reference: a normal form of the reference's path, a verbatim copy of the base's or of an absolute reference path, or the normal form of the merged segments |
| Resolution.ResolveIsTransform | src/uri.rs:517-591 | the target's printed components are those of section 5.2.2 on the printed components of base and reference exactly if `ResolveAgrees` holds, for every base and reference |
| Resolution.AbsoluteCopied | src/uri.rs:547-554 | against every base, the reference `/a/..` gives itself, where section 5.2.2 gives `/` |
| Resolution.ResolveTidy | src/uri.rs:555-572 | for an absolute base path and a relative reference path without interior empty segments the target is the RFC's |
| Resolution.ResolveStable | src/uri.rs:517-591 | a target with a scheme resolves to itself against every base exactly if a path copied verbatim was already normal |
| Resolution.ResolvePrintable | src/uri.rs:517-591 | resolving Printable URIs gives a Printable one unless neither has a scheme or an authority and the segment of base and reference that survives first, or query and fragment after a lone one, has a colon that reads as a scheme's end; a target with a scheme always round trips |
| Resolution.NormalizePrintable | src/uri.rs:257-259 | normalising a Printable URI gives a Printable one unless it has no scheme and the segment of its relative path that survives first, or query and fragment after a lone one, has such a colon |
| Survivors.NormalizeFirst | src/uri.rs:261-310 | the first segment of a normalised relative path is the first one that no later `..` removes, and it is the only one exactly if nothing follows it |
| Resolution.NormalizeMayExposeScheme | src/uri.rs:257-259 | a Printable relative reference whose normal form is not Printable |
| Resolution.BuiltWellFormed | src/uri.rs:517-591 | every URI built by any finite mix of parse, normalize and resolve has an absolute path if it has an authority, and a valid lower-case scheme if it has a scheme |
| Resolution.BuiltRoundTrips | src/uri.rs:517-591 | a URI built by any finite mix of parse, normalize and resolve prints to text that parses back to its canonical form exactly if a path copied verbatim from parsed text has no stray escape and, without a scheme, no colon reads as the end of one |
| Resolution.NormalizedRoundTrips | src/uri.rs:257-259 | whatever was built, normalising it gives a URI that round trips if it has a scheme |
| Resolution.NoStraysRoundTrip | src/uri.rs:517-591 | every URI with a scheme built from texts without stray escapes round trips |
| UriObjects.PathStringRoundTrip | src/uri.rs:644-659 | the path string of a path set from a string is that string |
| UriObjects.PathFromStringRoundTrip | src/uri.rs:464-469 | setting a path from its own path string gives it back exactly if no segment contains a slash and it is not the lone root |
| UriObjects.PathToStringIs | src/uri.rs:464-469 | the path string is a slash for the lone root and otherwise the segments with slashes between them |
| UriObjects.MutableUri.constructor | src/uri.rs:100-107 | the default URI has no components and an empty path |
| UriObjects.MutableUri.Normalize | src/uri.rs:257-259 | only the path changes; it becomes normal, stays rooted or unrooted and does not grow |
| UriObjects.MutableUri.SetScheme | src/uri.rs:677-692 | an invalid scheme is refused with the right error and changes nothing; the scheme is always valid afterwards |
| UriObjects.MutableUri.SetPathFromString | src/uri.rs:644-659 | only the path changes, and its path string is the given one |
| UriObjects.MutableUri.ToText | src/uri.rs:778-815 | the printed form; as the scheme of an object is always valid, it parses back exactly if the other components allow it |
| UriObjects.ParseUri | src/uri.rs:320-341 | yields a fresh valid object holding the parsed value, or the parser's error |

## Left out

- The payload of the illegal-port error (Rust's own parse error) and the messages of errors and contexts.
- Conversion of components to UTF-8 strings and its error: `*_to_string` getters, and non-UTF-8 path strings.
- Plain getters, the setters and `take_*` methods that only move a field, and the `TryFrom` wrappers, which would only add easy members.
- Aliasing of the automata's state records: the source moves them by value, so there is none to model.
- The C++ implementation in the same repository, which is independent code with different behaviour.
