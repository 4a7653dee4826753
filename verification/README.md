# Verified models of the web API's core logic

This project models the parts of the AirDC++ web API where a mistake would be hard to notice, and
proves what they promise on every input, every archive and every interleaving.

**Semantic versions** (`airdcpp-webapi/semver/semver.hpp`). Versions have natural components and two
tags; the three component types are symbolic maxima of at most 64 bits (`Versions.Limits`), so every
instantiation is covered. An absent tag is the empty string, as in the library.

- `orders.dfy`, `numerals.dfy`: lexicographic orders and octal or decimal numerals.
- `tags.dfy`, `versions.dfy`: tag syntax, the precedence order of section 11 of SemVer 2.0.0, and its
  successor structure.
- `texts.dfy`, `version_grammar.dfy`, `version_parser.dfy`: printing, the strict parser, the separate
  syntax check, prefix parsing and buffer output. The grammar files give each scanner as a function
  of the text; the cursor-driven classes are proved to compute those functions, positions and error
  codes included.
- `ranges.dfy`, `desugaring.dfy`, `range_grammar.dfy`, `range_parser.dfy`, `range_meaning.dfy`, `range_text.dfy`:
  comparators, the two prerelease policies, `min_version`, `intersects`, the expansion of carets,
  tildes and partial versions, and the way from range text to the versions it contains.
- `increment.dfy`: `inc`, its digit-carry loop, and `diff`.
- `npm_selection.dfy`: the choice of an extension update.

**Tar archives** (`microtar/microtar.c`, `web-server/TarFile.cpp`). A byte is a character with a code
below 256. `tar_format.dfy` has the record header and its checksum, `tar_archive.dfy` the cursor
operations as functions on states, `tar_proofs.dfy` what writing and reading amount to, and
`tar_file.dfy` the cursor as an object whose methods are proved to compute those functions. The
stream keeps its own position beside the cursor's `pos`, because a short read moves them apart.

**Connection sessions** (`web-server/BeastServerAdapter.h`). `ws_session.dfy` and `http_session.dfy`
are state machines over the handlers that run on a connection's strand together with the operations
under way (a write, a timer wait, a posted handler). A run is any sequence of events. The session
classes carry the source's fields and are proved to take the machine's steps.

**Sockets and sessions** (`web-server/SocketManager.cpp`, `web-server/Session.cpp`). `sockets.dfy` is
the machine over any number of sockets and sessions; `socket_manager.dfy` has the objects.

## Where the code differs from what it says

- `intersects` answers true without looking for a version when both sets hold a range without an
  upper bound. That is right for unbounded components (`Ranges.UnboundedRangesMeet`) but not always
  for the component types: `>M.m.p` at the last representable version intersects itself
  (`RangeText.ShortcutCanExceedTheTypes`). `Ranges.Intersects` states exactly when the answer is true,
  and `Ranges.ShortcutIsRight` the finite test of when that is right for the types: some pair of
  ranges shares one of the visited candidates.
- The extraction loop stops only at a null record or on a failed read of data, so it can go on for
  ever. Behind records of the writer, anything that does not load - cut short or damaged - does so
  unless the last record is a file that is extracted (`TarProofs.ExtractEnds`, an if-and-only-if), even
  with both null records further on (`TarProofs.DamagedRecordNeverEnds`); a directory whose recorded
  size takes the 32-bit cursor back to itself does so always (`TarProofs.WrappingSizeNeverEnds`). For
  any file below 2^31 bytes whose size fields are filled in, `TarProofs.ExtractIsDecided` gives the
  exact condition, which at most one record per 512 bytes decides.
- An archive without any record is written happily but refused when it is opened
  (`TarProofs.ExtractArchive`).
- The inactivity limit is turned from minutes into milliseconds, and then added to the last activity,
  in 64 bits without a check. `Sockets.WrappedLimitExpiresAtOnce` gives, in minutes, the exact condition
  under which a session lives as long as it asked for; `Sockets.HugeLimitExpiresInSeconds` is a session
  that asks for 307445734561826 minutes and is gone after 8.4 seconds.
- Authenticating a socket that carries another session would leave that session marked as connected
  (`Sockets.AuthenticateKeepsInv`, an if-and-only-if); the router keeps such requests away.
- The type of a tar header is one signed byte: what it does not hold comes back changed
  (`TarFormat.TypeSurvives`).
- The comment above `notifyClose` lists the queue-overflow drop among its callers; the code of the
  drop only closes the socket, and the notification comes from the read or write that then fails.
  The model follows the code.
- An explicit tag in a prerelease increment of a prerelease may lower the version
  (`Increment.IncIsAbove` gives the exact condition), and `diff` calls the prerelease increment of a
  release a prepatch (`Increment.DiffNamesInc`).

## Model

| member | source | states |
|---|---|---|
| Orders.LexIsTotalOrder | airdcpp-webapi/semver/semver.hpp:488-491 | a total order on elements makes lexicographic comparison a total order on sequences, 0 only for equal ones |
| Orders.LexSuccessor | airdcpp-webapi/semver/semver.hpp:1427-1432 | appending a least element gives the immediate successor of a sequence |
| Orders.LexIsFirstDifference | airdcpp-webapi/semver/semver.hpp:488-491 | a sequence is below another exactly when it is a proper prefix of it or smaller at the first difference |
| Numerals.PrintOfValue | airdcpp-webapi/semver/semver.hpp:157-172 | printing the value of a canonical numeral gives the numeral back |
| Numerals.PrintIsCanonical | airdcpp-webapi/semver/semver.hpp:157-172 | printed numerals have no superfluous leading zero and denote the number printed |
| Numerals.SameLengthLexIsNumeric | airdcpp-webapi/semver/semver.hpp:493-499 | among numerals of one length the text order is the numeric order |
| Numerals.ShorterIsSmaller | airdcpp-webapi/semver/semver.hpp:493-499 | a shorter numeral without leading zeros denotes a smaller number |
| Tags.IdentifierAlphabet | airdcpp-webapi/semver/semver.hpp:122-132 | the characters of identifiers by ASCII code |
| Tags.IdentifierGrammar | airdcpp-webapi/semver/semver.hpp:145-155 | a valid identifier has only those characters, and where leading zeros are not allowed a numeric one is the numeral of its value |
| Tags.TagGrammar | airdcpp-webapi/semver/semver.hpp:179-197 | a tag is valid exactly when it is one or more valid identifiers with single dots between them, and those are its identifiers |
| Tags.IdentifiersAreTotallyOrdered | airdcpp-webapi/semver/semver.hpp:574-591 | numeric and alphanumeric identifiers together form one total order |
| Tags.NumericIdentifiersCompareAsIntegers | airdcpp-webapi/semver/semver.hpp:493-499 | length, then text, is integer comparison for identifiers of any length |
| Tags.TextOrder | airdcpp-webapi/semver/semver.hpp:488-491 | texts compare by character code at the first difference, a proper prefix first |
| Tags.IdentifierOrder | airdcpp-webapi/semver/semver.hpp:574-591 | numbers by value, numbers below the rest, the rest by character code at the first difference |
| Tags.TagOrder | airdcpp-webapi/semver/semver.hpp:574-599 | the first identifier in which two tags differ decides, a proper prefix of identifiers comes first |
| Tags.IdsInjective | airdcpp-webapi/semver/semver.hpp:567-572 | a tag is determined by the identifiers split off it |
| Tags.NextIdentifier | airdcpp-webapi/semver/semver.hpp:567-572 | the first identifier holds no dot, it and the rest make up the tag again, and the identifiers of the tag are it and those of the rest |
| Tags.ComparePrereleaseTags | airdcpp-webapi/semver/semver.hpp:574-599 | the loop computes the comparison of the identifier lists, whose order `Tags.TagOrder` states |
| Tags.TagsTransitive | airdcpp-webapi/semver/semver.hpp:574-599 | tag precedence is transitive across identifiers of both kinds |
| Tags.TagsAntisymmetric | airdcpp-webapi/semver/semver.hpp:574-599 | swapping the operands negates the answer |
| Tags.TagsZeroIffEqual | airdcpp-webapi/semver/semver.hpp:574-599 | valid tags compare equal only when they are the same text |
| Tags.ZeroIsLeastTag | airdcpp-webapi/semver/semver.hpp:1424-1425 | `0` is at or below every prerelease tag |
| Tags.DotZeroIsSuccessor | airdcpp-webapi/semver/semver.hpp:1427-1432 | appending `.0` gives the immediate successor among tags: nothing lies strictly between |
| Tags.ValidateIdentifiers | airdcpp-webapi/semver/semver.hpp:179-197 | accepts exactly the empty tag and dot-separated valid identifiers |
| Versions.CompareIsTotal | airdcpp-webapi/semver/semver.hpp:767-793 | total, antisymmetric, and 0 exactly when core and prerelease tag are identical |
| Versions.CompareIsTransitive | airdcpp-webapi/semver/semver.hpp:767-793 | transitive over releases and prereleases, strictly when either step is strict |
| Versions.CompareMeansPrecedence | airdcpp-webapi/semver/semver.hpp:767-793 | `compare` is negative, zero or positive exactly as section 11 of SemVer 2.0.0, written out field by field, orders the two versions |
| Versions.BuildBreaksTies | airdcpp-webapi/semver/semver.hpp:1045-1052 | among equal core and tag the build metadata that is below as a text comes first |
| Versions.CompareWithBuildIsTotal | airdcpp-webapi/semver/semver.hpp:1045-1052 | refines precedence, antisymmetric, and 0 exactly for versions equal in all five fields |
| Versions.CompareWithBuildIsTransitive | airdcpp-webapi/semver/semver.hpp:1045-1052 | the refined order is transitive |
| Versions.NextCoreIsImmediate | airdcpp-webapi/semver/semver.hpp:1402-1412 | `next_core` is the least representable core above, and missing only at the last one |
| Versions.SuccessorIsImmediate | airdcpp-webapi/semver/semver.hpp:1414-1440 | a version's successor is representable, above it, and nothing representable lies between; there is none exactly at the last release |
| Versions.CoreRange | airdcpp-webapi/semver/semver.hpp:1424-1430 | tag `0` is the bottom and the release the top of a core |
| Versions.BelowCoreZero | airdcpp-webapi/semver/semver.hpp:1126-1129 | below `c-0` means a core below `c`, whatever the tag |
| Versions.ZeroIsLeast | airdcpp-webapi/semver/semver.hpp:1492-1493 | `0.0.0-0` is the least version and `0.0.0` the least release |
| Ranges.IncludeExtendsExclude | airdcpp-webapi/semver/semver.hpp:1086-1110 | for parser-made sets `include` accepts whatever `exclude` accepts |
| Ranges.PoliciesAgreeOnReleases | airdcpp-webapi/semver/semver.hpp:1198-1227 | the two policies agree on every release |
| Ranges.ThresholdDecides | airdcpp-webapi/semver/semver.hpp:1086-1110 | a comparator's answer changes only at one version, also with the from-zero flag under `include` |
| Ranges.CandidatesAreRepresentable | airdcpp-webapi/semver/semver.hpp:1414-1440 | every visited candidate is a valid version whose components fit |
| Ranges.EveryVersionHasAStandIn | airdcpp-webapi/semver/semver.hpp:1414-1440 | for every representable version some visited candidate at or below it gets the same answer from every comparator and from the prerelease filter |
| Ranges.RangeHasLowStandIn | airdcpp-webapi/semver/semver.hpp:1414-1440 | whenever a range contains a version it contains a candidate at or below it |
| Ranges.Consider | airdcpp-webapi/semver/semver.hpp:1486-1490 | keeps the least contained candidate of those tested |
| Ranges.BestCandidate | airdcpp-webapi/semver/semver.hpp:1485-1496 | after all candidates, the least contained one of them |
| Ranges.MinVersion | airdcpp-webapi/semver/semver.hpp:1479-1497 | none exactly when no representable version is contained; otherwise contained and at or below every contained version |
| Ranges.UpperBoundIsReal | airdcpp-webapi/semver/semver.hpp:1442-1450 | a range has an upper bound exactly when it contains nothing of all large enough major versions |
| Ranges.UnboundedRangesMeet | airdcpp-webapi/semver/semver.hpp:1508-1510 | two ranges without upper bound share a sufficiently large release |
| Ranges.ShortcutIsRight | airdcpp-webapi/semver/semver.hpp:1508-1518 | a representable version lies in both sets if and only if a visited candidate does, so the shortcut is right for the types exactly when some pair of ranges shares one |
| RangeText.ShortcutCanExceedTheTypes | airdcpp-webapi/semver/semver.hpp:1508-1510 | the text `>M.m.p` of the last release is accepted and takes the shortcut against itself, but contains no representable version |
| Ranges.CommonCandidate | airdcpp-webapi/semver/semver.hpp:1512-1518 | a version common to two ranges implies a common candidate of one of them |
| Ranges.RangesIntersect | airdcpp-webapi/semver/semver.hpp:1512-1518 | finds a match exactly when some representable version lies in both ranges |
| Ranges.Intersects | airdcpp-webapi/semver/semver.hpp:1501-1522 | true exactly when a version of the wider types lies in both sets or both have an unbounded range; then some version of unbounded components lies in both |
| Desugaring.UpperBoundAdmitsLowerCores | airdcpp-webapi/semver/semver.hpp:1126-1145 | a pushed upper bound admits exactly the versions of lower core, under both policies |
| Desugaring.LineSucceeds | airdcpp-webapi/semver/semver.hpp:1134-1145 | expansion succeeds exactly when the version fits and the locked component is below its maximum |
| Desugaring.LineMeaning | airdcpp-webapi/semver/semver.hpp:1147-1178 | the versions of any kind that a line contains, under each policy |
| Desugaring.ReleaseOnLine | airdcpp-webapi/semver/semver.hpp:1147-1178 | a release is on a line exactly when it is at or above the floor and agrees on the locked components |
| Desugaring.CaretMeaning | airdcpp-webapi/semver/semver.hpp:1162-1178 | when `^pv` expands, and that it locks the leftmost non-zero component |
| Desugaring.NextLineMeaning | airdcpp-webapi/semver/semver.hpp:1147-1160 | when `~pv` or a bare partial expands, and that it locks major and a given minor component |
| Desugaring.PrereleaseOnLine | airdcpp-webapi/semver/semver.hpp:1086-1110 | which prereleases a line admits under `exclude` and under `include` |
| Desugaring.PartialComparatorMeaning | airdcpp-webapi/semver/semver.hpp:1180-1188 | partial `>=` and `<` compare cores, and admit only releases under `exclude` |
| Desugaring.ExpansionsAreWellFormed | airdcpp-webapi/semver/semver.hpp:1147-1188 | every expansion sets the from-zero flag only on `>=` with a release bound |
| VersionGrammar.TextOfFields | airdcpp-webapi/semver/semver.hpp:904-934 | the text of a version, field by field |
| VersionGrammar.NumberFailure | airdcpp-webapi/semver/semver.hpp:702-734 | where and with which code a component fails, at the digit that leaves 64 bits or at the last one |
| VersionGrammar.VersionSound | airdcpp-webapi/semver/semver.hpp:616-649 | what a parse consumed is exactly the text of the version it returned, which is valid and fits |
| VersionGrammar.ParseOfPrint | airdcpp-webapi/semver/semver.hpp:616-649 | parsing a printed version returns it with all five fields |
| VersionGrammar.PrintedFailsOnlyByRange | airdcpp-webapi/semver/semver.hpp:729-734 | the text of a version fails to parse only with the out-of-range code |
| VersionGrammar.ParseIsLongest | airdcpp-webapi/semver/semver.hpp:616-649 | a successful parse is at least as long as any version text the input begins with |
| VersionGrammar.ParseAcceptsPrinted | airdcpp-webapi/semver/semver.hpp:796-812 | `to_string(parse(s))` is `s`, and the accepted strings are the printed versions that fit |
| VersionGrammar.PrintThenParse | airdcpp-webapi/semver/semver.hpp:396-400 | `parse(to_string(v))` restores all five fields whenever the text is within the limit |
| VersionGrammar.SyntaxIffText | airdcpp-webapi/semver/semver.hpp:209-254 | the syntax check accepts exactly the printed versions of any size |
| VersionGrammar.PrintIsInjective | airdcpp-webapi/semver/semver.hpp:396-400 | different versions print differently |
| VersionGrammar.RecognisersAgree | airdcpp-webapi/semver/semver.hpp:209-254 | strict parsing is the syntax check, the component ranges and the length limit |
| VersionGrammar.GreedyTakesLongest | airdcpp-webapi/semver/semver.hpp:870-891 | a successful greedy parse has taken the longest version prefix |
| VersionGrammar.LongestPrefixIsUnique | airdcpp-webapi/semver/semver.hpp:873-885 | there is one longest version prefix |
| VersionParsing.Cursor.Consume | airdcpp-webapi/semver/semver.hpp:543-549 | steps over the character exactly when it comes next |
| VersionParsing.Cursor.ConsumeText | airdcpp-webapi/semver/semver.hpp:551-557 | steps over the text exactly when it comes next |
| VersionParsing.VersionParser.ParseNumber | airdcpp-webapi/semver/semver.hpp:702-734 | the value of the digits, or the position and code of the failure, with 64-bit overflow caught before it happens |
| VersionParsing.VersionParser.ParseIdentifier | airdcpp-webapi/semver/semver.hpp:753-764 | appends a valid run of identifier characters and leaves the output alone otherwise |
| VersionParsing.VersionParser.ParseTag | airdcpp-webapi/semver/semver.hpp:736-748 | identifiers for as long as a dot follows, or the failure of the first bad one |
| VersionParsing.VersionParser.Parse | airdcpp-webapi/semver/semver.hpp:616-649 | computes the grammar's version, end position, or failure |
| VersionParsing.VersionParser.ParsePartial | airdcpp-webapi/semver/semver.hpp:651-693 | computes the grammar's partial version with omitted and wildcard components |
| VersionParsing.ParseFull | airdcpp-webapi/semver/semver.hpp:796-812 | the strict parse, leaving the output unchanged on failure |
| VersionParsing.ValidateVersionSyntax | airdcpp-webapi/semver/semver.hpp:209-254 | true exactly for the text of some valid version with components of any size |
| VersionParsing.FromChars | airdcpp-webapi/semver/semver.hpp:862-894 | succeeds exactly when the components of the longest version prefix fit, with that version and end; otherwise the error and position, output unchanged |
| VersionParsing.Length | airdcpp-webapi/semver/semver.hpp:157-163 | the division loop counts the printed digits |
| VersionParsing.WriteBackward | airdcpp-webapi/semver/semver.hpp:165-172 | fills exactly the digits before the end position and nothing else |
| VersionParsing.SerializedLengthIsExact | airdcpp-webapi/semver/semver.hpp:174-177 | the computed length is the length of the text |
| VersionParsing.ToChars | airdcpp-webapi/semver/semver.hpp:904-934 | writes exactly the text, nothing outside it, and fails exactly when it does not fit, touching nothing |
| RangeGrammar.ParsedSetsAreWellFormed | airdcpp-webapi/semver/semver.hpp:1329-1385 | accepted text gives at least one range, bounds that fit, and the from-zero invariant |
| RangeGrammar.PartialIsWritable | airdcpp-webapi/semver/semver.hpp:651-693 | a parsed partial version omits components only from the right, has a tag only when complete, and a wildcard only for a missing component |
| RangeGrammar.SpelledIsRead | airdcpp-webapi/semver/semver.hpp:651-693 | a partial version spelled out, with any wildcard letter, is read back wherever it stands |
| RangeGrammar.ReadIsSpelled | airdcpp-webapi/semver/semver.hpp:651-693 | whatever is read as a partial version was spelled out there |
| RangeGrammar.PartialOfText | airdcpp-webapi/semver/semver.hpp:651-693 | the printed text of a partial version is read back |
| RangeGrammar.SingleTermText | airdcpp-webapi/semver/semver.hpp:1329-1385 | a one-term text is accepted exactly when it is not refused and expands, and gives that expansion |
| RangeMeaning.CaretTextMeaning | airdcpp-webapi/semver/semver.hpp:1162-1178 | from the text `^pv`: when it is accepted, and which releases and prereleases it contains under each policy |
| RangeMeaning.TildeTextMeaning | airdcpp-webapi/semver/semver.hpp:1363-1365 | the same for `~pv`: at or above `pv`, same major and, when given, minor component |
| RangeMeaning.BarePartialTextMeaning | airdcpp-webapi/semver/semver.hpp:1358-1362 | the same for a bare partial or wildcard version: its line from the bottom of the first core, only releases under `exclude` |
| RangeMeaning.BareTextMeaning | airdcpp-webapi/semver/semver.hpp:1358-1362 | a bare full version contains exactly what compares equal to it |
| RangeMeaning.ComparatorTextMeaning | airdcpp-webapi/semver/semver.hpp:1369-1373 | each of the six marks before a full version asks for its sign of the comparison, and how it admits prereleases |
| RangeMeaning.PartialComparatorTextMeaning | airdcpp-webapi/semver/semver.hpp:1369-1373 | before a partial version only `>=` and `<` are accepted, and they compare cores |
| RangeMeaning.WildcardsAndBlanks | airdcpp-webapi/semver/semver.hpp:563-565 | the wildcard letters and the blanks by ASCII code |
| RangeParsing.RangeParser.SkipWhitespaces | airdcpp-webapi/semver/semver.hpp:1387-1394 | moves past the blanks and tells whether there were any |
| RangeParsing.RangeParser.ConsumeOperator | airdcpp-webapi/semver/semver.hpp:1302-1327 | the operator of the longest mark at the cursor |
| RangeParsing.RangeParser.ParseTerm | airdcpp-webapi/semver/semver.hpp:1331-1377 | computes the grammar's term or its failure |
| RangeParsing.RangeParser.ParseRange | airdcpp-webapi/semver/semver.hpp:1329-1385 | computes the grammar's conjunction of separated terms |
| RangeParsing.RangeParser.Parse | airdcpp-webapi/semver/semver.hpp:1270-1287 | computes the grammar's alternatives |
| RangeParsing.ParseFull | airdcpp-webapi/semver/semver.hpp:1453-1456 | the strict parse, with the parser invariant on success and the output unchanged on failure |
| RangeParsing.Satisfies | airdcpp-webapi/semver/semver.hpp:1468-1475 | true exactly when the text is accepted and its set contains the version |
| RangeText.WrittenIsRead | airdcpp-webapi/semver/semver.hpp:1270-1385 | a text written in acceptable terms, whatever the blanks and wildcard letters, parses into exactly their expansions, grouped as written |
| RangeText.AcceptedIffWritten | airdcpp-webapi/semver/semver.hpp:1270-1385 | the accepted texts are exactly those written in acceptable terms, up to the length limit |
| RangeText.ParseOfSetText | airdcpp-webapi/semver/semver.hpp:1270-1385 | every set of acceptable terms can be written so that it is read back |
| RangeText.ConjunctionAllows | airdcpp-webapi/semver/semver.hpp:1217-1227 | a conjunction admits a prerelease exactly when one of its terms does |
| RangeText.ConjunctionMeaning | airdcpp-webapi/semver/semver.hpp:1198-1208 | a conjunction of terms contains what all of them contain |
| RangeText.SetMeaning | airdcpp-webapi/semver/semver.hpp:1240-1252 | for every version and both policies, a set of terms contains it exactly when in some alternative every term holds of it and, under `exclude`, some term admits it |
| RangeText.SetTextMeaning | airdcpp-webapi/semver/semver.hpp:1240-1252 | under both policies a version is contained in a parsed text exactly when in some alternative every term holds of it and, under `exclude`, some term admits it |
| RangeText.AcceptedTextMeaning | airdcpp-webapi/semver/semver.hpp:1270-1385 | every accepted text is written, character by character, in some acceptable terms; it gives their expansions and contains what they say |
| Increment.CarryIsIncrement | airdcpp-webapi/semver/semver.hpp:1586-1595 | the digit carry is decimal plus one for identifiers of any length |
| Increment.CarryLoop | airdcpp-webapi/semver/semver.hpp:1586-1595 | the in-place loop changes the last identifier by that carry and nothing before it |
| Increment.NextTagIsAbove | airdcpp-webapi/semver/semver.hpp:1582-1598 | the next tag is valid and strictly above the old one |
| Increment.NextTagCarriesOn | airdcpp-webapi/semver/semver.hpp:1582-1598 | a numeric last identifier counts one further and the others stay, or `.0` is appended |
| Increment.IncrementFields | airdcpp-webapi/semver/semver.hpp:1526-1601 | when an increment exists, and all five fields of its result for every change |
| Increment.Inc | airdcpp-webapi/semver/semver.hpp:1526-1601 | a value exactly when the change is supported, the component has room and a given tag is valid; and its five fields |
| Increment.IncIsAbove | airdcpp-webapi/semver/semver.hpp:1526-1601 | the result is representable, and strictly above the input if and only if an explicit tag on a prerelease is above the old tag |
| Increment.DiffNamesInc | airdcpp-webapi/semver/semver.hpp:1055-1073 | `diff(v, inc(v, c))` is `c`, with the two exceptions spelled out |
| Increment.DiffNamesFirstDifference | airdcpp-webapi/semver/semver.hpp:1055-1073 | for any two versions `diff` names the first differing component, and whether the newer version is a prerelease |
| Increment.DiffIsSymmetric | airdcpp-webapi/semver/semver.hpp:1055-1073 | swapping the operands keeps the difference |
| NpmSelection.ConsiderKey | airdcpp-webapi/web-server/NpmVersion.h:38-61 | one turn keeps the best key of those seen, on strictly higher precedence only |
| NpmSelection.SelectNpmVersion | airdcpp-webapi/web-server/NpmVersion.h:31-64 | the greatest eligible key and the greatest key of a newer major, each empty exactly when there is none, ties to the lexically greatest; fails exactly when some key is unreadable |
| NpmSelection.InstalledMeans | airdcpp-webapi/web-server/NpmVersion.h:44-61 | the installed key in plain terms: same major, above the current version, prerelease only for a prerelease, none above it |
| NpmSelection.AnnouncedMeans | airdcpp-webapi/web-server/NpmVersion.h:47-54 | the announced key in plain terms: the best of a newer major, none without a current version |
| NpmSelection.BestIsUnique | airdcpp-webapi/web-server/NpmVersion.h:36-37 | no other key could have been picked |
| TarFormat.Checksum | airdcpp-webapi/microtar/microtar.c:49-60 | the byte sum with the checksum field as eight spaces, without wrap |
| TarFormat.ChecksumCountsSpaces | airdcpp-webapi/microtar/microtar.c:49-60 | the checksum is the byte sum of the record with eight spaces in place of its checksum |
| TarFormat.ScanDigits | airdcpp-webapi/microtar/microtar.c:106-109 | octal digits, however many, followed by anything else are read back modulo 2^32 |
| TarFormat.ScanField | airdcpp-webapi/microtar/microtar.c:100-109 | blanks and a sign in front of octal digits are read as `%o` reads them |
| TarFormat.SumFitsSixDigits | airdcpp-webapi/microtar/microtar.c:131-134 | the checksum of a stored header always fits its six digits |
| TarFormat.RawLayout | airdcpp-webapi/microtar/microtar.c:30-41 | where each field of a stored header stands in the record |
| TarFormat.ChecksumReadsBack | airdcpp-webapi/microtar/microtar.c:93-103 | a stored checksum matches the recomputed one, and a stored record is never taken for a null record |
| TarFormat.DamageIsNoticed | airdcpp-webapi/microtar/microtar.c:93-103 | changing any one byte outside the checksum field of a stored record gives the checksum error |
| TarFormat.LoadOfStore | airdcpp-webapi/microtar/microtar.c:90-137 | loading a stored header restores all fields, the type normalised |
| TarFormat.TypeSurvives | airdcpp-webapi/microtar/microtar.c:110-127 | the type is restored exactly when it is set and in the range of a signed byte; an unset one becomes a regular file |
| TarFormat.StoreIsInjective | airdcpp-webapi/microtar/microtar.c:118-137 | different headers are stored differently |
| TarArchive.EntryBytes | airdcpp-webapi/microtar/microtar.c:357-370 | header, data and padding of a record fill a multiple of 512 bytes |
| TarFile.HeaderToRaw | airdcpp-webapi/microtar/microtar.c:118-137 | fills the buffer field by field with the specified record |
| TarFile.MTar.TRead | airdcpp-webapi/microtar/microtar.c:63-67 | delivers the bytes or fails, and advances the cursor by the request either way |
| TarFile.MTar.TWrite | airdcpp-webapi/microtar/microtar.c:70-74 | overwrites or extends the stream at its position |
| TarFile.MTar.WriteNullBytes | airdcpp-webapi/microtar/microtar.c:77-87 | byte by byte, the same as one write of that many NULs |
| TarFile.MTar.SeekTo | airdcpp-webapi/microtar/microtar.c:216-220 | moves stream and cursor |
| TarFile.MTar.ReadHeaderInto | airdcpp-webapi/microtar/microtar.c:270-287 | loads a header and returns to it, or leaves the cursor past a short read |
| TarFile.MTar.NextRecord | airdcpp-webapi/microtar/microtar.c:230-241 | moves by header and rounded size, or fails where the header read failed |
| TarFile.MTar.ReadDataInto | airdcpp-webapi/microtar/microtar.c:290-320 | first and later chunks, returning to the header when nothing remains |
| TarFile.MTar.FindRecord | airdcpp-webapi/microtar/microtar.c:244-267 | computes the specified search |
| TarFile.MTar.WriteHeaderOf | airdcpp-webapi/microtar/microtar.c:323-329 | writes the record and remembers the data to come |
| TarFile.MTar.WriteFileHeader | airdcpp-webapi/microtar/microtar.c:332-342 | a regular-file header of mode 0664 that always fits |
| TarFile.MTar.WriteDirHeader | airdcpp-webapi/microtar/microtar.c:345-354 | a directory header of mode 0775 that always fits |
| TarFile.MTar.WriteDataOf | airdcpp-webapi/microtar/microtar.c:357-370 | writes a chunk and, after the last, the padding |
| TarFile.MTar.FinalizeArchive | airdcpp-webapi/microtar/microtar.c:373-376 | writes two null records |
| TarFile.Open | airdcpp-webapi/microtar/microtar.c:177-208 | opening for reading fails exactly when the first header does not load |
| TarFile.ExtractAll | airdcpp-webapi/web-server/TarFile.cpp:38-64 | computes the specified extraction over the cursor object |
| TarProofs.ReadHeaderAtEntry | airdcpp-webapi/microtar/microtar.c:270-287 | at a written record the header loads and the cursor stays |
| TarProofs.NextAtEntry | airdcpp-webapi/microtar/microtar.c:230-241 | the next record starts right after the padding |
| TarProofs.WrittenFieldsLoad | airdcpp-webapi/microtar/microtar.c:332-354 | a written file loads as type 0 of mode 0664 with its size, a directory as type 5 of mode 0775 without one |
| TarProofs.RewindStartsOver | airdcpp-webapi/microtar/microtar.c:223-227 | rewinding forgets a read in progress and goes back to the start |
| TarProofs.ChunksAtEntry | airdcpp-webapi/microtar/microtar.c:290-320 | any positive chunking reads the record's bytes and returns to its header |
| TarProofs.WholeReadAtEntry | airdcpp-webapi/microtar/microtar.c:290-320 | one read of the recorded size does so too, for an empty record as well |
| TarProofs.ReadingTooMuchWraps | airdcpp-webapi/microtar/microtar.c:308-319 | reading more than remains is not refused: the count wraps and the cursor stays behind |
| TarProofs.WritingTooMuchWraps | airdcpp-webapi/microtar/microtar.c:357-370 | writing more than was announced is not refused: the count wraps and no padding follows |
| TarProofs.WriterProducesArchive | airdcpp-webapi/microtar/microtar.c:323-376 | whatever the chunking, the writer produces the archive of its records |
| TarProofs.WalkArchive | airdcpp-webapi/microtar/microtar.c:230-320 | header, data in any positive pieces, next record, and again: exactly the headers and bytes of all records, empty ones included, in order, up to the null record |
| TarProofs.WriteThenWalk | airdcpp-webapi/microtar/microtar.c:230-376 | what was written in any chunking is what such a walk in any other chunking lists |
| TarProofs.RecordsReadBack | airdcpp-webapi/microtar/microtar.c:230-320 | every record, at its 512-aligned offset, is read back in any pieces from wherever the cursor came, and leads to the next offset |
| TarProofs.FindInArchive | airdcpp-webapi/microtar/microtar.c:244-267 | from any cursor the search stops at the first record of that name or reports not found |
| TarProofs.MoreTurnsFindTheSame | airdcpp-webapi/microtar/microtar.c:253-261 | once the search has ended a larger number of turns changes nothing |
| TarProofs.ExtractArchive | airdcpp-webapi/web-server/TarFile.cpp:38-64 | extraction of a written archive ends after one turn a record and one more, with exactly its files in order |
| TarProofs.ExtractArchiveFiles | airdcpp-webapi/web-server/TarFile.cpp:38-64 | told from the entries alone: the extracted names and contents are those of the files other than `pax_global_header`, in order, each once |
| TarProofs.TurnGoesOn | airdcpp-webapi/web-server/TarFile.cpp:40-63 | one turn over any loaded record: what is not a directory or `pax_global_header` is written with its name and bytes |
| TarProofs.WriteThenExtract | airdcpp-webapi/web-server/TarFile.cpp:38-64 | what was written in any chunking is what is extracted |
| TarProofs.MoreTurnsChangeNothing | airdcpp-webapi/web-server/TarFile.cpp:40-63 | once the loop has ended a larger number of turns changes nothing |
| TarProofs.ExtractEnds | airdcpp-webapi/web-server/TarFile.cpp:38-64 | for records followed by anything that does not load or wraps: when extraction ends, and with what, as an if-and-only-if on what follows the records |
| TarProofs.ExtractTruncated | airdcpp-webapi/web-server/TarFile.cpp:38-64 | with nothing behind the records the loop ends if and only if the last one is extracted, and then by throwing |
| TarProofs.DamagedRecordNeverEnds | airdcpp-webapi/web-server/TarFile.cpp:38-64 | a damaged byte behind a directory keeps the loop going for ever, null records or not |
| TarProofs.WrappingSizeNeverEnds | airdcpp-webapi/web-server/TarFile.cpp:38-64 | a directory of recorded size 2^32 - 512 is read again and again |
| TarProofs.ExtractIsDecided | airdcpp-webapi/web-server/TarFile.cpp:38-64 | for any file: extraction ends if and only if its records come to a stop within one record per 512 bytes, and what has not ended by then never does |
| WsSession.StepKeepsInv | airdcpp-webapi/web-server/BeastServerAdapter.h:587-685 | every step keeps the queue, write, failure and history invariant |
| WsSession.SessionIsSafe | airdcpp-webapi/web-server/BeastServerAdapter.h:655-685 | in every interleaving one write in flight, at most 1024 queued, one close notification, no more pong reports than pings |
| WsSession.SendDoes | airdcpp-webapi/web-server/BeastServerAdapter.h:590-606 | after any run: a posted message joins the queue and is written at once if nothing is, or closes the socket when 1024 wait |
| WsSession.WriteDoneDoes | airdcpp-webapi/web-server/BeastServerAdapter.h:671-684 | after any run: a completed write leaves the queue and starts the next, a failed one tells the close |
| WsSession.PongTimerDoes | airdcpp-webapi/web-server/BeastServerAdapter.h:629-639 | after any run: an expired wait is reported exactly when a pong is outstanding |
| WsSession.PongIsOutstanding | airdcpp-webapi/web-server/BeastServerAdapter.h:545-550 | a ping with a deadline leaves a pong outstanding until a pong or the close |
| WsSession.FailedReadTellsClose | airdcpp-webapi/web-server/BeastServerAdapter.h:570-575 | a failed read tells the close, once, whatever happens before and after |
| WsSession.WrittenIsPrefixOfPosted | airdcpp-webapi/web-server/BeastServerAdapter.h:590-606 | written messages are a prefix of those posted, also across a drop |
| WsSession.NoWriteAfterFailure | airdcpp-webapi/web-server/BeastServerAdapter.h:666-685 | after a failed write no further one is started |
| WsSession.DropEndsDelivery | airdcpp-webapi/web-server/BeastServerAdapter.h:593-600 | after an overflow drop only the write under way can still complete |
| WsSession.DropNeedsFullQueue | airdcpp-webapi/web-server/BeastServerAdapter.h:593-600 | a message is dropped only when 1024 are waiting behind a stalled or failed write |
| WsSession.Session.OnSendText | airdcpp-webapi/web-server/BeastServerAdapter.h:590-606 | the posted handler takes the machine's step |
| WsSession.Session.OnWritten | airdcpp-webapi/web-server/BeastServerAdapter.h:671-684 | the completion handler takes the machine's step |
| WsSession.Session.BeginWrite | airdcpp-webapi/web-server/BeastServerAdapter.h:666-671 | starts the write of the front message, if any |
| WsSession.Session.ReportClose | airdcpp-webapi/web-server/BeastServerAdapter.h:655-664 | notifies once and forgets a pending pong |
| WsSession.Session.ArmTimer | airdcpp-webapi/web-server/BeastServerAdapter.h:619-629 | arms the pong deadline unless it is disabled |
| WsSession.Session.OnPongTimer | airdcpp-webapi/web-server/BeastServerAdapter.h:629-639 | reports a timeout only for a pong still pending |
| WsSession.Session.OnPong | airdcpp-webapi/web-server/BeastServerAdapter.h:545-550 | the pong clears the pending flag |
| HttpSession.StepKeepsInv | airdcpp-webapi/web-server/BeastServerAdapter.h:330-422 | every step keeps the reading, deferral and timer invariant |
| HttpSession.OneResponse | airdcpp-webapi/web-server/BeastServerAdapter.h:391-422 | in every interleaving at most one response, inline exactly when not deferred, else from the posted completion, which always finds its session |
| HttpSession.DeadlineDoes | airdcpp-webapi/web-server/BeastServerAdapter.h:328-337 | after any run: an expired deadline that is handled before the head closes the socket, once |
| HttpSession.SilentPeerTimesOut | airdcpp-webapi/web-server/BeastServerAdapter.h:328-337 | a peer that says nothing is timed out without a response |
| HttpSession.HeadDoes | airdcpp-webapi/web-server/BeastServerAdapter.h:345-364 | a head that arrives is followed by the body, one that fails by nothing |
| HttpSession.BodyDoes | airdcpp-webapi/web-server/BeastServerAdapter.h:366-398 | which requests are answered at once, which owe an answer, and which get none |
| HttpSession.CompletionDoes | airdcpp-webapi/web-server/BeastServerAdapter.h:411-422 | the posted completion starts the response and lets the session go |
| HttpSession.DeferredAnswerArrives | airdcpp-webapi/web-server/BeastServerAdapter.h:400-422 | a deferred session stays alive, so once its completion was called and had its turn it is answered, once, whatever happens before, between and after |
| HttpSession.NoTimeoutAfterHead | airdcpp-webapi/web-server/BeastServerAdapter.h:328-352 | after the header handler no later event closes the socket for the head deadline |
| HttpSession.QueuedHandlerOutlivesCancel | airdcpp-webapi/web-server/BeastServerAdapter.h:306-319 | a run in which the expired handler is still queued after the head arrived |
| HttpSession.Session.HandleTimer | airdcpp-webapi/web-server/BeastServerAdapter.h:330-337 | the deadline handler takes the machine's step |
| HttpSession.Session.HandleHeader | airdcpp-webapi/web-server/BeastServerAdapter.h:345-364 | sets the flag, cancels the wait, and goes on to the body |
| HttpSession.Session.HandleRead | airdcpp-webapi/web-server/BeastServerAdapter.h:366-398 | dispatches, and answers exactly when the handler has not deferred |
| HttpSession.Session.Defer | airdcpp-webapi/web-server/BeastServerAdapter.h:401-409 | marks the session deferred and keeps it alive |
| HttpSession.Session.HandleRelease | airdcpp-webapi/web-server/BeastServerAdapter.h:416-421 | answers, then lets the session go |
| Sockets.StepKeepsInv | airdcpp-webapi/web-server/SocketManager.cpp:149-219 | every step keeps the binding one to one and the flags in agreement with it |
| Sockets.BindingIsOneToOne | airdcpp-webapi/web-server/SocketManager.cpp:149-219 | after any run a session has at most one registered socket, and one exactly when its flag says so |
| Sockets.AuthenticateBinds | airdcpp-webapi/web-server/SocketManager.cpp:184-196 | authentication binds the socket and sets the flag, unbinds an older socket, and touches nothing else |
| Sockets.AuthenticatedStaysBound | airdcpp-webapi/web-server/SocketManager.cpp:184-196 | after any run a socket that authenticates stays bound until its disconnect, the removal of its session or another authentication of it, and its session is not timed out meanwhile |
| Sockets.DisconnectUnbinds | airdcpp-webapi/web-server/SocketManager.cpp:158-182 | after a disconnect the handle is gone, its session unbound with the clock restarted, and nothing else touched |
| Sockets.RemoveUnbinds | airdcpp-webapi/web-server/SocketManager.cpp:198-211 | after its removal nothing is bound to a session, and nothing else is touched |
| Sockets.OtherStepsDo | airdcpp-webapi/web-server/SocketManager.cpp:149-156 | connecting registers the handle, use restarts the idle clock, creation makes an unbound session, and nothing else is touched |
| Sockets.TimeoutIsSafe | airdcpp-webapi/web-server/Session.cpp:127-134 | after any run no session with a registered socket times out; one without, if its limit is honoured, does exactly when idle for longer than the minutes asked for, hence never sooner than that after its last disconnect |
| Sockets.WrappedLimitExpiresAtOnce | airdcpp-webapi/web-server/Session.cpp:127-134 | the idle rule, in the minutes asked for, holds at every tick if and only if one of three conditions on minutes and last activity does |
| Sockets.HugeLimitExpiresInSeconds | airdcpp-webapi/web-server/Session.cpp:56-58 | a session that can be created for which it fails |
| Sockets.AuthenticateKeepsInv | airdcpp-webapi/web-server/SocketManager.cpp:184-196 | authentication keeps the binding in order if and only if the socket carries no other session |
| Sockets.ReplacedSocketIsHarmless | airdcpp-webapi/web-server/SocketManager.cpp:184-196 | the later disconnect of a replaced socket does not disturb the session |
| SocketManagement.Session.OnSocketConnected | airdcpp-webapi/web-server/Session.cpp:109-112 | sets the flag |
| SocketManagement.Session.OnSocketDisconnected | airdcpp-webapi/web-server/Session.cpp:114-121 | clears the flag and restarts the idle clock |
| SocketManagement.Session.UpdateActivity | airdcpp-webapi/web-server/Session.cpp:123-125 | restarts the idle clock and nothing else |
| SocketManagement.Session.CheckTimeout | airdcpp-webapi/web-server/Session.cpp:127-134 | decides the timeout predicate |
| SocketManagement.SocketManager.Learn | airdcpp-webapi/web-server/Session.cpp:56-60 | a new session enters the registry as the machine's creation step says |
| SocketManagement.SocketManager.AddSocketObject | airdcpp-webapi/web-server/SocketManager.cpp:149-156 | registers a socket under a handle not yet taken |
| SocketManagement.SocketManager.FindSocket | airdcpp-webapi/web-server/SocketManager.cpp:140-147 | finds the session's socket exactly when there is one |
| SocketManagement.SocketManager.HandleSocketDisconnected | airdcpp-webapi/web-server/SocketManager.cpp:158-182 | unbinds and forgets the socket |
| SocketManagement.SocketManager.OnAuthenticated | airdcpp-webapi/web-server/SocketManager.cpp:184-196 | unbinds an older socket of the session before binding the new one |
| SocketManagement.SocketManager.OnSessionRemoved | airdcpp-webapi/web-server/SocketManager.cpp:198-211 | unbinds the session's socket, if any |
| SocketManagement.SocketManager.Reset | airdcpp-webapi/web-server/SocketManager.cpp:213-219 | unbinds a socket and tells its session, leaving all others alone |

## Left out

- Ranges.MinVersion: asks for the parser's invariant on its range set; the fields of a range set are private and only the parser fills them (`RangeGrammar.ParsedSetsAreWellFormed`).
- Ranges.Intersects: asks for the parser's invariant on both range sets, for the same reason.
- TarFile.ExtractAll: takes a number of turns, because the loop does not always end; by `TarProofs.ExtractIsDecided` one turn per 512 bytes and one more give its answer, or that it has none.
- TarProofs.ExtractIsDecided: asks that the size field of every record that loads has digits; without them the source computes with an uninitialised variable.
- TarFile.MTar.FindRecord: takes a number of turns for the same reason; `TarProofs.FindInArchive` shows how many are enough.
- TarFile.MTar.TWrite: the in-memory stream accepts every write; disk errors and writing beyond the end of the stream are not modelled.
- TarFile.MTar.SeekTo: seeking in the in-memory stream never fails.
- TarFile.HeaderToRaw: writes the fields in record order and only for values that fit, since the source's `sprintf` and `strcpy` have no bound of their own.
- TarFormat.TypeSurvives: takes `char` to be signed, as it is on x86; where it is unsigned the types from 128 to 255 survive instead.
- TarProofs.WriteThenExtract: archives below 2^31 bytes and names of at most 99 bytes without NUL, the range of the C types.
- TarFormat.ScanDigits: reduces modulo 2^32; the C standard leaves open what `%o` does with digits beyond the width of its target.
- Reading arbitrary records: names are read up to the first NUL and no further than the record, a header field without digits keeps the value its variable had before, and a checksum field without digits counts as 0.
- Extraction is a list of names and contents: path joining, separators, directories and files on disk are not part of this model.
- SocketManagement.SocketManager: locks, listeners and the closing of replaced sockets are left out, each operation is one step; the order in which the map is searched is left open, since at most one socket matches.
- Sockets.StepKeepsInv: in its runs authentication happens only on a socket without a session, as the router (`ApiRouter.cpp:43`) passes on to the session any request of a bound socket.
- WsSession.SessionIsSafe: assumes that a write started on a closed socket fails; that no pong timeout is ever reported after the close is not claimed, because a late posted ping arms the timer again.
- HttpSession.OneResponse: assumes that a deferred completion is called at most once; a completion called while the request handler is still running is a step after it, since it only posts to the strand.
- TLS handshake and shutdown, the accept loop, connection draining, logging and the websocket handshake.
- `coerce`, `max_satisfying`, `min_satisfying`, stream and format output, hashing and literals of the version library: easy variants of what is here.
- Null pointer arguments and thrown exceptions: failures are result values, such as `NpmSelection.Result.Unreadable`.
- The API modules, timers, extension processes, downloads, the file server and the installer scripts.
