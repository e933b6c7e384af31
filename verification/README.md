# A verified model of an LDAP syntax library

The library parses, prints, matches and encodes the syntaxes of LDAP: names, search filters, substring assertions,
search guides, subtree specifications, access control bind rules and a few ASN.1 strings. This project models its
central algorithms in Dafny and proves what the RFCs and the library's own comments promise of them, or, where a
promise is not kept, exactly when it is.

Octet strings are `seq<byte>` with `byte` an integer from 0 to 255. A nil slice and an empty slice are both `[]`; a
nil interface value has a constructor of its own (`Nil`). Go errors are `Result` or `Option` values without their
texts, and a run-time panic that an input can cause is an outcome of its own (`Filters.OutOfBounds`,
`BindRules.Panic`). Loops and receivers of the source are methods and classes; each of them is proved equal to a
specification function, and the theorems are about those functions.

| file | models | main results |
|---|---|---|
| `Bytes`, `Wrappers`, `Utf8`, `Bits`, `Oids` | helpers of `misc.go` and `oid.go`, package `unicode/utf8`, bit operations | search, comparison and folding loops; UTF-8 coding is exact both ways |
| `Tlv`, `X509` | the length and tag forms of X.690 and the recursive reader of `x509.go` | the reader inverts an encoder, tiles every constructed value, and is inverted by it exactly on DER |
| `EditDistance` | `approx.go` | two swapped rows compute the length of a shortest edit script, a metric |
| `AttributeText`, `Names`, `DnText` | `at.go`, `dn.go` | escaping of arbitrary octets, multiset comparison, strict order of ancestors, text round trip |
| `AssertionValue`, `SubstringText`, `SubstringMatch` | `substr.go`, `misc.go`, `cbm.go` | escaping, text round trips, greedy search decides decomposition |
| `Filters`, `FilterText`, `FilterBer` | `filter.go`, `filter_asn1.go` | text round trip with its exact condition, BER round trip |
| `Criteria`, `CriteriaGrammar` | `guide.go` | grammar completeness, normal forms |
| `Refinements`, `RefinementFilters`, `SubtreeDer`, `SpecificationDer` | `subtree.go`, `subtree_asn1.go` | text and DER round trips, translation to filters keeps the meaning |
| `BitStrings`, `UniversalStrings` | `bitstr.go`, `ustr.go` | every run of Set and Unset, alignment, text, BER and UCS-4 round trips |
| `BindRules`, `BindRuleText` | `aci/aci.go` | tokenizing, fusing, parsing and printing of bind rules |

## Where the code and its documents part

The model follows the code; each item names the member that pins the difference down.

- The literals of criteria are matched in one case only, while literals of ABNF match in any case
  (`CriteriaGrammar.ParserMeetsGrammar`, and `a$eq` in `CriteriaGrammar.LowerCaseIsInvalid`). The attribute of an
  item is never checked by `Valid` (`CriteriaGrammar.EmptyAttributeIsValid`).
- A substring assertion is trimmed before it is read, so white space at the outer ends of a printed one is lost
  (`SubstringText.ParseAfterPrint`, and the initial component `" a"` in `SubstringText.BlankEdgeIsLost`).
- A substring pattern with a single asterisk is parsed but refused by the matcher
  (`SubstringMatch.RefusedPatterns`, `SubstringMatch.InitialFinalPatternIsRefused`).
- `(!(a=))` is a filter the parser refuses, because the operand of "not" has fewer than five octets; a matching rule
  called `dn` or `DN` is taken for the keyword; and special characters in values are printed as they are, so that the
  parser drops parentheses or finds the text unbalanced (`FilterText.PrintParseRoundTrip`,
  `FilterText.ShortOperandIsRefused`, `FilterText.RuleReadsAsKeyword`, `FilterText.ParensAreLost`, and `(a=(b))` in
  `FilterText.BareParenthesesAreLost`).
- The text form of filters takes numeric identifiers and attribute options that the BER form refuses
  (`FilterBer.EncodesExactly`, and `(2.5=b)` and `(a;b=b)` in `FilterBer.NumericTypeHasNoBer` and
  `FilterBer.OptionHasNoBer`).
- A text that cannot be read makes `Push` drop the refinements handed over behind it
  (`Refinements.PushKeepsExactlyUnblocked`, and the empty text in `Refinements.EmptyTextHidesTree`).
- A subtree specification is encoded without its refinement, and without an error, when the refinement cannot be
  encoded (`SpecificationDer.SpecificationRoundTrip`, and the negation of an invalid refinement in
  `SpecificationDer.InvalidFilterIsLost`).
- `''B` is printed for the empty bit string and refused by the parser (`BitStrings.ParseAfterText`).
- An empty UniversalString is encoded but not decoded, and words from 80000000 on are taken for the replacement
  character (`UniversalStrings.DecodeAfterEncode`, `UniversalStrings.WordsOfCharacters`,
  `UniversalStrings.HighWordIsReplaced`).
- The operator of a bind rule item is searched in its quoted expression too, the expression loses its outer blanks,
  and an empty one is refused (`BindRuleText.PrintParseRoundTrip`, and `userdn="a<=b"`, `userdn=" a"` and `userdn=""`
  in `BindRuleText.CloudedExpression`, `BindRuleText.BlankExpression` and `BindRuleText.EmptyExpression`).

## Model

| member | source | states |
|---|---|---|
| Bytes.Beq | misc.go:27-34 | true exactly on equal octet strings |
| Bytes.BeqFold | misc.go:36-51 | true exactly when both are equal after ASCII lower-casing |
| Bytes.BytesIndex | misc.go:90-111 | the leftmost place of the pattern, or -1 when it occurs nowhere |
| Bytes.HasSfx | misc.go:77-88 | true exactly when the string ends in the suffix |
| Bytes.DropAll | misc.go:140-164 | all other octets in order, as parseItemFilter uses it to drop parentheses |
| Bytes.CharacterLiterals | misc.go:140-164 | the named characters are the ones their names say |
| Bytes.CharacterClasses | unicode.go:60-64 | letters, digits and hexadecimal digits are the ranges A to Z, a to z, 0 to 9, A to F and a to f |
| Utf8.DecodeInvertsEncode | substr.go:611-621 | decoding an encoded scalar value gives the value and its size back, whatever follows |
| Utf8.EncodeInvertsDecode | ustr.go:60-79 | re-encoding the rune at the front of a string gives the octets it was read from |
| Utf8.SanitizeKeepsExactlyValid | substr.go:576-609 | a conversion to runes and back leaves exactly the valid strings unchanged and makes all others longer |
| Utf8.TrimAround | substr.go:327-333 | white space of any kind, beyond ASCII too, is trimmed on both sides of a text between printing characters, and nothing else |
| Utf8.SpaceLiterals | substr.go:327-333 | the twenty-five code points that count as white space |
| Oids.IsDescrLoop | oid.go:218-262 | accepts exactly the descriptors: a letter first, letters, digits and single hyphens, no hyphen last |
| Oids.MarshalLdapOid | oid.go:44-99 | the loop over the arcs computes its specification |
| Oids.LdapOidExactly | oid.go:44-99 | numbers with dots between them are accepted exactly when the first is at most two, the second is below 40 under zero and one, and it fits an int |
| Oids.DigitsAreArc | oid.go:53-66 | of the texts of digits, exactly the numbers without leading zeros are accepted as further arcs |
| Oids.AtoiOfSigned | oid.go:75-99 | a sign in front of a number is understood, and a sign alone refused |
| Oids.IntWidth | oid.go:75-99 | an int has 64 bits |
| Tlv.LengthRoundTrip | x509.go:30-50 | the shortest length octets are read back, for all lengths of four octets |
| Tlv.ElementRoundTrip | asn1.go:44-56 | a written element is read back with tag, payload and size, whatever follows it |
| Tlv.LengthOctets | x509.go:30-50 | the literal octets of short and long lengths, and the forms that are refused |
| X509.ParseX509 | x509.go:15-80 | the recursive reader computes the tree, the consumed size and the first error of its specification on every input |
| X509.ParseInvertsEncode | x509.go:15-80 | reading the encoding of any tree with tags below 31 and lengths of four octets returns the tree and exactly its size |
| X509.OnlyConsumedOctetsMatter | x509.go:52-80 | replacing everything behind the reported octets changes nothing |
| X509.ConstructedValueIsTiled | x509.go:65-77 | the value of a constructed element is cut exactly into the encodings of its children, without a rest |
| X509.EncodeInvertsParseOnDer | x509.go:15-80 | re-encoding what was read gives the octets back if every length is shortest, and fewer octets otherwise |
| EditDistance.Levenshtein | approx.go:76-120 | the two-row programme returns the length of a shortest script of insertions, deletions and substitutions |
| EditDistance.DistanceIsEditDistance | approx.go:90-117 | the recurrence of the table is the minimum over all edit scripts |
| EditDistance.ScriptsAreNoShorter | approx.go:90-117 | no script between two strings is shorter than the recurrence says |
| EditDistance.DistanceBounds | approx.go:76-88 | between the difference and the maximum of the lengths, and zero exactly on equal strings |
| EditDistance.DistanceSymmetric | approx.go:76-120 | symmetric |
| EditDistance.DistanceTriangle | approx.go:76-120 | the triangle inequality |
| EditDistance.ApproxNormalize | approx.go:34-74 | the phonetic code: the groups of the lower-cased letters, octets without a group dropped and adjacent repetitions collapsed, a first letter without a group standing for itself |
| EditDistance.SameClassIsSameGroup | approx.go:24-31 | two octets share a class exactly when they stand in the same one of the groups bfpv, cgjkqsxz, dt, l, mn, r |
| EditDistance.CollapsedRepeat | approx.go:56-70 | a repeated code counts once, wherever it stands |
| EditDistance.VowelSeparatesNothing | approx.go:60-64 | leaving out a vowel, or anything without a group, behind the first letter does not change the code |
| EditDistance.GroupsDiffer | approx.go:126-145 | "lalalala" does not match "rararara" |
| EditDistance.ApproxMatch | approx.go:126-145 | true exactly when the phonetic codes agree, agree behind their first letter, or two edits suffice |
| EditDistance.ApproximatesLaws | approx.go:126-145 | reflexive, symmetric, blind to case, and true of all strings within two edits |
| AttributeText.EncodeAtv | at.go:1109-1165 | the loop writes the escaped form of RFC 4514 |
| AttributeText.StripLeadingAndTrailingSpaces | at.go:1168-1189 | trims, but gives one space back after an odd number of backslashes |
| AttributeText.DecodeStringLoop | at.go:1031-1106 | the unescaping loop computes its specification, errors included |
| AttributeText.UnescapeSpelled | at.go:1080-1100 | a backslash and two of the digits 0123456789ABCDEF or 0123456789abcdef mean the octet they spell, each digit in either case |
| AttributeText.AcceptedIsText | at.go:1031-1106 | whatever is unescaped is text of the grammar of RFC 4514, and means its octets |
| AttributeText.DecodeStringOfText | at.go:1031-1189 | all text of that grammar, in every spelling and with any spaces around it, means its octets |
| AttributeText.DecodeValueOfElement | at.go:1007-1022 | a number sign and the digits of an OCTET STRING element, in either case, mean its contents |
| AttributeText.DecodeStringInvertsEscape | at.go:1031-1165 | unescaping inverts escaping on every octet string, as a type and as a value |
| AttributeText.DecodeValueInvertsEscape | at.go:939-961 | setValue restores every value from its escaped form, hash sign in front included |
| AttributeText.Pair.SetType | at.go:930-937 | assigns the decoded type or leaves it alone with an error; the value stays |
| AttributeText.Pair.SetValue | at.go:939-961 | assigns the decoded value or leaves it alone with an error; the type stays |
| Names.AtvEqual | at.go:978-990 | equal types up to case, equal values, or values up to case in the fold form |
| Names.HasAllAttributes | dn.go:847-892 | greedy matching with consumed partners succeeds exactly on multiset inclusion up to equality of pairs |
| Names.RdnEqual | dn.go:772-800 | true exactly when both RDNs are the same multiset of pairs |
| Names.DnEqual | dn.go:730-760 | true exactly when the names have the same length and equal RDNs at every level |
| Names.AncestorOf | dn.go:811-845 | true exactly when the name is a proper suffix of the other up to equality |
| Names.SameDnIsEquivalence | dn.go:730-800 | both equalities are equivalence relations, and Equal implies EqualFold |
| Names.CaseOfValues | dn.go:730-760 | cn=A and cn=a are equal in the fold form only, CN=a and cn=a in both |
| Names.AncestorIsStrictOrder | dn.go:811-845 | irreflexive, transitive, asymmetric, and compatible with equality on both sides |
| Names.SuperiorIsAncestor | dn.go:400-420 | the superior is an ancestor exactly when there is a level above that the boundary allows |
| DnText.SortSorts | dn.go:618-628 | sorting the printed pairs gives an ordered permutation of them |
| DnText.LexLeqExactly | dn.go:618-628 | the order is the lexical one: a prefix first, else the smaller of the first octets that differ |
| DnText.ParseDn | dn.go:651-713 | the escape-aware scan computes its specification, errors included |
| DnText.ParseOfText | dn.go:630-713 | every text of section 3 of RFC 4514 is read as what it says, whatever spelling its types and values have, with commas or semicolons between RDNs and plus signs between pairs |
| DnText.SpelledPair | at.go:930-961 | spelled types and values, with spaces around them, make a pair that means their octets |
| DnText.UpperCaseDigits | at.go:1080-1100 | `cn=\C3\A9` names the octets C3 A9 |
| DnText.ParseOfPrinted | dn.go:618-713 | a printed well-formed name is read as its canonical form, which is equal to it and prints the same |
| DnText.PrintParseRoundTrip | dn.go:618-713 | the text of a name is read back as an equal name exactly when no RDN is empty and no type is empty, whatever the value octets are |
| DnText.ParsedIsWellFormed | dn.go:651-713 | no accepted text yields an empty RDN or type |
| DnText.PrintedFormIsFixed | dn.go:618-713 | printing an accepted text gives a text that is accepted and printed unchanged |
| DnText.Ancestry | dn.go:290-324 | for a well-formed name without boundary the lineage is the chain of superiors from the name to its root |
| AssertionValue.EscapeString | misc.go:359-377 | ASCII stays, every octet of another rune becomes a backslash and two digits |
| AssertionValue.EscapeKeepsExactlyAscii | misc.go:359-377 | escaping changes exactly the strings that are not ASCII and makes them longer |
| AssertionValue.HexDecodeLoop | misc.go:379-408 | the decoding loop computes its specification; a malformed escape leaves nothing |
| AssertionValue.UnescapedOfText | misc.go:379-408 | octets spelled in digits of either case, and bare ASCII between them, are restored |
| AssertionValue.UpperCaseEscapes | misc.go:379-408 | `\C3\A9` means the octets C3 A9 |
| AssertionValue.UnescapedAfterSet | substr.go:576-609 | without backslashes, Unescaped after Set returns the value exactly when it is valid UTF-8 |
| AssertionValue.UnescapedAfterSetExactly | substr.go:576-609 | for valid UTF-8 it returns the value exactly when every backslash is among the last two octets with ASCII behind it |
| AssertionValue.AssertionValueBytes | substr.go:530-574 | accepts exactly the non-empty texts with complete escapes, a well-formed rune ending the check |
| AssertionValue.AssertionTextExactly | substr.go:490-528 | accepts exactly the values of section 3 of RFC 4515: octets spelled in digits, and bare ones other than NUL, parentheses, asterisk and backslash |
| SubstringText.SubstringsString | substr.go:284-325 | the printing loop computes its specification, the last component of a kind winning |
| SubstringText.MarshalSubstrings | substr.go:327-395 | both scanning loops compute the meaning of the pieces between asterisks, errors included |
| SubstringText.GetSubstringTokens | substr.go:397-441 | the four combinations of outer asterisks assign the parts to initial, any and final |
| SubstringText.OutcomeByLoops | substr.go:327-460 | flags and collected parts say the same as splitting at every asterisk |
| SubstringText.JoinPieces | substr.go:327-395 | the pieces joined by asterisks are the text |
| SubstringText.PrintAfterParse | substr.go:284-460 | printing an accepted text gives it back exactly when it is trimmed ASCII |
| SubstringText.ParseAfterPrint | substr.go:284-460 | printed components are read back, octets beyond ASCII spelled out, in all four outer cases, exactly when there is one, each is a complete segment without asterisks, no inner one is empty, and the text has no white space at its ends |
| SubstringText.BlankEdgeIsLost | substr.go:327-395 | the initial component `" a"` is printed as `" a*"` and read back as `"a"` |
| SubstringMatch.MatchParts | cbm.go:100-128 | the loop that shortens the value succeeds exactly when the value is initial, gaps and segments in order, final |
| SubstringMatch.GreedyIsComplete | cbm.go:108-118 | any decomposition at all makes leftmost search succeed |
| SubstringMatch.GreedyDecides | cbm.go:108-128 | leftmost search succeeds exactly when some decomposition exists |
| SubstringMatch.SubstringsSplit | cbm.go:132-160 | collects the components, in lower case exactly if case is ignored, and reports missing and repeated ones |
| SubstringMatch.SubstringsMatch | cbm.go:79-129 | the whole rule: each error, or whether the value decomposes, all sides in lower case exactly if case is ignored |
| SubstringMatch.CaseIsIgnored | cbm.go:79-129 | ignoring case, values and patterns that agree up to ASCII case get the same answer, errors included |
| SubstringMatch.CaseMatters | cbm.go:92-97 | `Jesse` matches `*ESS*` if case is ignored, and only then |
| SubstringMatch.RefusedPatterns | cbm.go:132-160 | the accepted patterns it refuses are exactly those with one asterisk |
| SubstringMatch.InitialFinalPatternIsRefused | cbm.go:132-160 | the pattern `a*b` is one of them |
| Filters.SplitFilterParts | filter.go:1141-1171 | the depth-counting loop computes its specification |
| Filters.DescrSyntaxCheck | filter.go:1062-1096 | accepts exactly letters, digits and single hyphens without one at the end |
| Filters.OidSyntaxCheck | filter.go:1115-1140 | the loop over the arcs computes its specification |
| Filters.ValidArcExactly | filter.go:1098-1113 | the arcs that are looked at may be any number without leading zeros, or empty |
| Filters.NumericOidExactly | filter.go:1115-1140 | numbers with dots between them are accepted exactly when the first starts with a two, or with a zero or a one while the second is below 40 |
| Filters.OidsAreAccepted | filter.go:1031-1061 | every object identifier and descriptor of section 1.4 of RFC 4512 that has no doubled or trailing hyphen is accepted |
| Filters.ColonEdges | filter.go:965-1012 | the shortest heads made of colons and the keyword run out of bounds, the next ones do not |
| Filters.NoColon | filter.go:965-1012 | without a colon a match has neither type nor rule |
| Filters.BothKeywords | filter.go:965-1012 | with the keyword in both cases neither type nor rule is found |
| Filters.MissingParts | filter.go:470-684 | what is printed for filters with missing parts |
| Filters.OperatorLiterals | filter.go:523-684 | the operators are =, >=, <= and ~=, the keyword is dn, the default attribute objectClass |
| Filters.ParseSubFilter | filter.go:823-868 | the recursive parser computes its specification and terminates on every input |
| Filters.ParseComplexFilter | filter.go:870-884 | the operands in order, or the first error |
| FilterText.FilterPasses | filter.go:470-684 | the printed text of a tree goes through the splitter as one piece, at any depth |
| FilterText.SplitRecoversOperands | filter.go:1141-1171 | splitting the text of an operand list gives exactly the texts of the operands |
| FilterText.FilterIsSound | filter.go:470-684 | printed texts are balanced and contain no two opening parentheses in a row |
| FilterText.ExtensibleIsParsed | filter.go:965-1012 | all extensible shapes are read back exactly when the matching rule does not read as the keyword |
| FilterText.ItemComesBack | filter.go:886-963 | every kind of item is recognised again from its text, under the same condition |
| FilterText.BareItemParts | filter.go:886-963 | an item without parentheses is read like the one with them |
| FilterText.NameIsRead | filter.go:1031-1061 | the parser takes every attribute description of section 2.5 of RFC 4512, options included |
| FilterText.ReadableComesBack | filter.go:470-963 | the round trip for every tree whose names the parser takes, under the same condition |
| FilterText.PrintParseRoundTrip | filter.go:470-963 | a tree of section 2 of RFC 4515 is read back from its text, octets beyond ASCII spelled out, exactly when operands of "not" take five octets, no matching rule is ambiguous, assertion values have no bare special characters, and substrings are read back from their own text and have no parentheses |
| FilterText.ParensAreLost | filter.go:823-963 | a tree with a parenthesis in some value is never what its own text is read as |
| FilterText.BareParenthesesAreLost | filter.go:886-963 | `(a=(b))` is printed for a value in parentheses and not read back as it |
| FilterText.SpelledKeepsExactlyAscii | filter.go:523-684 | the spelling changes nothing exactly when all values are ASCII |
| FilterText.AsciiFiltersComeBack | filter.go:470-963 | an ASCII tree itself is read back under exactly the same condition |
| FilterText.ShortOperandIsRefused | filter.go:855-868 | `(!(a=))` is well-formed, printed, and refused |
| FilterText.RuleReadsAsKeyword | filter.go:965-1012 | `(a:dn:=b)` is the text of two different trees |
| FilterText.NumericTypeIsRead | filter.go:823-963 | `(1.3.6.1.4.1.1466.0=\04\02\48\69)` is read as an equality match of that type and value |
| FilterBer.EncodeFilter | filter_asn1.go:42-124 | the encoders compute their specification |
| FilterBer.EncodeFilterSet | filter_asn1.go:104-124 | the operands in order inside one context element, or the first error |
| FilterBer.DecodeFilterByTag | filter_asn1.go:152-199 | the dispatching decoder computes its specification and terminates on every octet string |
| FilterBer.DecodeFilterSet | filter_asn1.go:126-150 | the loop over the children computes its specification |
| FilterBer.AttributeValueAssertion.Decode | filter_asn1.go:497-510 | both octet strings, or a failure exactly when one is missing; a missing one leaves its field empty, and nothing behind it is assigned |
| FilterBer.MatchingRuleAssertion.Decode | filter_asn1.go:588-652 | the receiver is reset and filled component by component, up to the first error |
| FilterBer.EncodesExactly | at.go:804-813 | a tree is encoded exactly when all its value assertions name a bare descriptor and no part is missing |
| FilterBer.NumericTypeHasNoBer | at.go:804-813 | `(2.5=b)` is restored from its text and refused by the encoder |
| FilterBer.OptionHasNoBer | at.go:804-813 | so is `(a;b=b)` |
| FilterBer.RuleRoundTrip | filter_asn1.go:512-652 | every matching rule assertion is restored, defaults included |
| FilterBer.DecodeInvertsEncode | filter_asn1.go:30-199 | FilterDecode returns the tree from every encoding without substring assertions |
| FilterBer.DefaultEncoding | filter_asn1.go:17-21 | the pre-computed octets are the encoding of the default filter |
| FilterBer.FilterOctets | filter.go:1268-1279 | the literal octets of every alternative |
| Criteria.CriteriaParser.TokenizeCriteria | guide.go:1101-1115 | the recursive descent computes its specification and stays inside the text |
| Criteria.CriteriaParser.TokenizeTerm | guide.go:1134-1174 | one term and the position behind it |
| Criteria.CriteriaParser.TokenizeMatchType | guide.go:1193-1223 | the five operators, recognised by their first letter |
| Criteria.Valid | guide.go:934-972 | valid exactly without invalid leaves |
| CriteriaGrammar.ParserMeetsGrammar | guide.go:1076-1223 | every text of the grammar yields the meaning of its derivation, with "and" binding tighter, exactly when its literals are in case, and is then fully consumed |
| CriteriaGrammar.LowerCaseIsInvalid | guide.go:1193-1223 | `a$eq` is derivable and gives an invalid item |
| CriteriaGrammar.PrintParseRoundTrip | guide.go:823-873 | a tree in normal form is read back from its text, which is fully consumed |
| Criteria.NameLiterals | guide.go:1193-1223 | the match types are EQ, SUBSTR, GE, LE and APPROX |
| Criteria.ConstantLiterals | guide.go:1134-1174 | the constants are ?true and ?false |
| CriteriaGrammar.ParserBuildsNormalForms | guide.go:1101-1174 | on every input the parser stops in bounds with a tree in normal form, a fixpoint of printing and parsing if its attributes are proper |
| CriteriaGrammar.SoundIsValid | guide.go:934-972 | trees with proper attributes are valid |
| CriteriaGrammar.EmptyAttributeIsValid | guide.go:584-629 | the text `$EQ` gives a valid item without any attribute |
| Refinements.SplitRefinementParts | subtree.go:1091-1148 | the rune loop with nesting, quotes and escapes computes its specification |
| Refinements.SubtreeRefinement | subtree.go:1000-1063 | the recursive parser computes its specification and terminates on every input, malformed UTF-8 included |
| Refinements.ParseComplexRefinement | subtree.go:1065-1089 | the operands in order, or the first error |
| Refinements.PartsHaveFewerColons | subtree.go:1091-1148 | parts never gain a colon, which bounds the recursion even where malformed octets grow |
| Refinements.TextPasses | subtree.go:679-689 | the text of a tree is never cut, at any depth of braces |
| Refinements.SplitRecoversOperands | subtree.go:1091-1148 | splitting the text of an operand list gives exactly the texts of the operands |
| Refinements.ItemIsTaken | subtree.go:1000-1063 | every such object identifier whose second arc fits an int is accepted as an item |
| Refinements.KeywordLiterals | subtree.go:1000-1063 | the keywords are item:, and:, or: and not: |
| Refinements.PrintParseRoundTrip | subtree.go:679-1089 | every tree of object identifiers of section 1.4 of RFC 4512 is read back from its text |
| Refinements.Operands.Push | subtree.go:634-653 | the accepted operands are appended, the error of a text staying in force until the next text |
| Refinements.PushKeepsExactlyUnblocked | subtree.go:634-653 | every operand gets in exactly when no unreadable text shadows a tree behind it |
| Refinements.EmptyTextHidesTree | subtree.go:634-653 | a tree handed over behind an empty text does not get in |
| RefinementFilters.SameObjectClasses | filter.go:1218-1246 | a refinement and its filter accept the same sets of object classes |
| RefinementFilters.Pipeline | filter.go:1218-1246 | the refinement is read back from its text, and its filter from its own exactly when no "not" stands over an empty list |
| SubtreeDer.TwosComplementRoundTrip | subtree_asn1.go:165-176 | every integer is restored from its shortest two's complement |
| SubtreeDer.TextRoundTrip | utf.go:72-82 | a UTF8String is restored exactly when it is not empty |
| SubtreeDer.EncodeRefinementDer | subtree_asn1.go:104-135 | appends the encoding to what is there, or fails |
| SubtreeDer.DecodeRefinementDer | subtree_asn1.go:32-102 | the decoder with rebuilt children computes its specification and terminates on every octet string |
| SubtreeDer.RebuiltElement | subtree_asn1.go:49-57 | rebuilding an element before decoding it changes nothing |
| SubtreeDer.DecodedIsComplete | subtree_asn1.go:32-102 | no octet string decodes to a nil or invalid refinement |
| SubtreeDer.RefinementRoundTrip | subtree_asn1.go:32-135 | a refinement is restored, whatever follows it, exactly when no operand is missing and no item is empty |
| SubtreeDer.RefinementOctets | subtree_asn1.go:104-135 | the literal octets of item, not, or and and |
| SubtreeDer.IntegerOctets | subtree_asn1.go:165-176 | the literal octets of integers on both sides of the sign bit |
| SubtreeDer.NoNative | subtree_asn1.go:250-276 | anything but an INTEGER of at most ten octets leaves zero |
| SpecificationDer.SubtreeSpecification.Encode | subtree_asn1.go:137-194 | the encoding of the fields |
| SpecificationDer.SubtreeSpecification.Decode | subtree_asn1.go:196-233 | the receiver after the decoder, on success and after every failure |
| SpecificationDer.SubtreeSpecification.DecodeChopSpecification | subtree_asn1.go:250-276 | exclusions, minimum and maximum are written as they are met |
| SpecificationDer.SubtreeSpecification.DecodeExclusionList | subtree_asn1.go:278-296 | exclusions are appended in order; an error only ends the loop |
| SpecificationDer.DecodeSpecificExclusion | subtree_asn1.go:298-323 | both names, the last one met winning, up to the first bad text |
| SpecificationDer.ChopRoundTrip | subtree_asn1.go:151-182 | every exclusion in order and both distances are restored |
| SpecificationDer.SpecificationRoundTrip | subtree_asn1.go:137-335 | base, exclusions, distances and refinement are restored exactly when there is no refinement or a complete one without empty items |
| SpecificationDer.SpecificationOctets | subtree_asn1.go:15-28 | the literal octets of a specification with every field |
| SpecificationDer.InvalidFilterIsLost | subtree_asn1.go:183-194 | the negation of an invalid refinement is left out without an error, and decoding gives a specification without refinement |
| BitStrings.BitString.Set | bitstr.go:128-150 | one position is added, the length and the octets grow as needed, nothing else changes |
| BitStrings.BitString.Unset | bitstr.go:155-168 | one position is removed, lengths stay |
| BitStrings.BitString.Has | bitstr.go:173-185 | whether the position is set |
| BitStrings.Run | bitstr.go:128-185 | after every run from the empty string the positions agree with a plain set, the octets are as many as the length needs, and the padding is zero |
| BitStrings.CanonicalIsUnique | bitstr.go:128-185 | a canonical value is determined by its length and positions |
| BitStrings.RightAlign | bitstr.go:226-240 | the big-endian number divided by two to the padding |
| BitStrings.String | bitstr.go:39-60 | a digit for every position, in quotes |
| BitStrings.MarshalBitString | bitstr.go:268-300 | the packing loop computes its specification, errors included |
| BitStrings.VerifyContents | bitstr.go:319-359 | accepts exactly non-empty binary digits in quotes with a B behind them |
| BitStrings.TextAfterParse | bitstr.go:39-359 | accepted text is printed as it was, from a canonical value |
| BitStrings.ParseAfterText | bitstr.go:39-359 | a value is read back from its text exactly when it is canonical and not empty |
| BitStrings.DecodeAfterEncode | bitstr.go:65-123 | a value is restored from its encoding exactly when it is canonical |
| BitStrings.BitOctets | bitstr.go:65-85 | the literal octets of the bits 101 and of no bits |
| BitStrings.DigitLiterals | bitstr.go:39-60 | digits stand in single quotes, with a B behind them |
| BitStrings.DecodedIsCanonical | bitstr.go:89-123 | only canonical values are decoded |
| BitStrings.BitString.Decode | bitstr.go:89-123 | the receiver is replaced on success and untouched on failure |
| UniversalStrings.EncodeString | ustr.go:60-79 | the filling loop computes its specification |
| UniversalStrings.DecodeString | ustr.go:95-132 | the stride-four loop computes its specification, errors included |
| UniversalStrings.DecodeAfterEncode | ustr.go:60-132 | exactly valid UTF-8 is encoded, and decoded again unless it is empty |
| UniversalStrings.LetterOctets | ustr.go:60-79 | the literal octets of a letter |
| UniversalStrings.WordsOfCharacters | ustr.go:112-128 | decoded text is valid, and encodes to the words it came from exactly when none is 80000000 or more |
| UniversalStrings.HighWordIsReplaced | ustr.go:112-128 | the word 80000000 is decoded as the replacement character, which encodes to FFFD |
| BindRules.ScanTokens | aci/aci.go:2208-2258 | the scanning loop computes its specification |
| BindRules.CombineTokens | aci/aci.go:2262-2286 | AND NOT is fused everywhere, and an empty value is an error |
| BindRules.TokenizeBindRule | aci/aci.go:2208-2286 | the scan followed by fusing, refused exactly when a token is empty |
| BindRules.SubjectLiterals | aci/aci.go:8251-8264 | the keywords userdn, roledn, groupdn, userattr, groupattr and ip |
| BindRules.ContextLiterals | aci/aci.go:8251-8264 | the keywords dns, dayofweek, timeofday, authmethod and ssf |
| BindRules.OperatorLiterals | aci/aci.go:2490-2492 | the operators =, !=, <, <=, > and >=, and the connectives AND, OR and NOT |
| BindRules.QuotedOnce | aci/aci.go:1148-1185 | an expression that brings its quotation marks is not quoted again |
| BindRules.GetAndOrBool | aci/aci.go:2727-2743 | both flags mean what their names say, and both hold of no operators |
| BindRules.Cursor.ProcessRule | aci/aci.go:2475-2507 | the item or group at the cursor and the cursor behind it, or the kind of failure |
| BindRules.Cursor.ParseGroup | aci/aci.go:2617-2675 | the group at the cursor with its parentheses kept, or the kind of failure |
| BindRules.ParseBindRuleTokens | aci/aci.go:2745-2753 | succeeds only when every token has been used |
| BindRuleText.TokenizePhrase | aci/aci.go:2186-2286 | a phrase, its connectives and keywords in any case and its tokens between any blanks, is tokenized as its operands and operators, AND NOT fused, exactly when no expression is empty, and refused otherwise |
| BindRuleText.FuseConcat | aci/aci.go:2262-2274 | fusing is local unless the front ends in AND |
| BindRuleText.OperatorIsFound | aci/aci.go:2490-2492 | the search finds the operator of an item exactly when no preferred operator occurs in its expression |
| BindRuleText.PhraseIsProcessed | aci/aci.go:2475-2675 | the parser consumes exactly the tokens of a phrase, whatever but a value follows |
| BindRuleText.ParseOfPhrase | aci/aci.go:2186-2753 | the text of a phrase is read as the rule it means, with its parentheses, every token used, exactly when each of its expressions is not empty, hides no preferred operator, and is what its keyword makes of the text without outer blanks |
| BindRuleText.LowerCaseConnective | aci/aci.go:2186-2203 | `(UserDN="a" and userdn = "b")` is read as a parenthesised AND of two items |
| BindRuleText.PrintedIsPhrase | aci/aci.go:1149-1239 | a printed rule in normal form is a phrase that means the rule without its padding |
| BindRuleText.PrintParseRoundTrip | aci/aci.go:2208-2753 | a rule in normal form is read back from its own text, without its padding, under exactly the same condition |
| BindRuleText.CloudedExpression | aci/aci.go:2490-2497 | `userdn="a<=b"` is not read back |
| BindRuleText.BlankExpression | aci/aci.go:2490-2499 | `userdn=" a"` is read back as `userdn="a"` |
| BindRuleText.EmptyExpression | aci/aci.go:2276-2286 | `userdn=""` is refused |

## Left out

- FilterBer.DecodeFilterByTag: answers substring assertions as an unknown tag. Their decoder hands the contents of a
  SEQUENCE to a decoder that expects the SEQUENCE, so the result rests on how the missing tag is treated by code
  outside the repository.
- FilterBer.EncodeFilter: not for trees with substring leaves, for the same reason.
- FilterBer.EncodeFilterSet: not for operands with substring leaves, for the same reason.
- FilterBer.EncodesExactly: not for trees with substring leaves, for the same reason.
- FilterBer.DecodeInvertsEncode: not for trees with substring leaves, for the same reason.
- The bodies of the ASN.1 helpers aliased in asn1.go:44-56 are not part of this model; `Tlv` stands for them with
  definite lengths of up to four octets and tags below 31, a mismatched tag is an error, and octets behind an element
  are not looked at.
- BER of guides and criteria: the context tags of items coincide with those of and, or and not.
- DnText.Ancestry: only names without boundary; with one, the loop bound of the source subtracts it twice.
- The pre-computed text, case and index fields of names.
- The string based LDAPDN operations, which split on escaped separators and lose the escapes.
- SubtreeSpecification in text form, with its search for keywords anywhere in the text, its exclusions and
  findMatchingBrace; only its refinement and its DER form are modelled.
- Refinements.PrintParseRoundTrip: object identifier maps are empty, so names resolve to themselves.
- NewBindRule, which wraps a lone group into an OR of one; parseACIv3BindRuleTokens is modelled instead.
- BindRules.Cursor.ProcessRule: does not model typed bind values (names, addresses, times, levels): a parameter reads
  the text of an expression and yields the text the typed value prints to; the fixed texts of malformed rules print as
  nothing.
- Keywords and connectives of bind rules are folded as ASCII; Go also folds a few letters beyond ASCII.
- FilterText.PrintParseRoundTrip: an extensible match has a value; without one nothing is printed for it. Descriptors
  with doubled or trailing hyphens, which section 1.4 of RFC 4512 allows, are refused by the library and not covered.
- BindRuleText.PrintParseRoundTrip: rules outside the normal form (a group of one operand, NOT in front or below OR)
  print to text that reads as another rule or is refused; how is not stated.
- An extensible match with an empty but present value prints in the source and not in the model, which does not tell
  it from a missing one.
- OID and INTEGER codecs with big numbers, vlq, and the fall-back of Integer.Decode for more than ten octets, which
  leaves zero in SubtreeDer.ReadNative.
- int is a 64-bit integer; BitString positions and lengths are unbounded.
- crypto/x509, CRLs, JPEG, time, UUID, URI, reflection, registries, and all error texts.
- Small fixed-table types (countries, scopes, rights, days, levels), which are finite or single-branch.
- Concurrency: the library has none in these files.
