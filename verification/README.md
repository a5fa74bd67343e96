# Verified core of the Truestamp command-line client

This project models the algorithmic parts of the client in Dafny and proves what they
promise.  The modules follow the program's own structure:

- **Partial Merkle trees** (`MerkleTree`, `PartialMerkle`, `MerkleSoundness`,
  `MerkleCompleteness`, `MerkleAcceptance`): the BIP 37 verifier.  A hash is the number its
  bytes spell and the double SHA-256 of two hashes is a function-valued parameter, so every
  statement holds for any combining function; soundness names the collision it would take.
- **JSON** (`JsonText`, `JsonGrammar`, `JsonTree`, `JsonPrint`, `Numbers`, `Utf8`): RFC 8259
  texts with a parser that is the exact inverse of the text, values, printing and decoding.
- **Proof bundles** (`CborSyntax`, `TextEncodings`, `BundleValue`, `BundleDecode`,
  `CborConverter`, `BundleGuarantees`, `BundleSlots`, `BundlePaths`, `Ordering`,
  `BundleEncode`, `BundleRoundTrip`, `BundleDeterministic`, `BundleInverse`,
  `BundleRefusals`, `BundleReasons`, `BundlePlatform`): the one-pass CBOR reader as a class
  with a cursor and an output buffer, the reference it refines (parse the item, convert it by
  role, print it), and the encoder back to core deterministic CBOR.
- **Canonicalization** (`JcsSplice`, `JcsScan`, `JcsCanon`, `JcsFlatten`, `JcsMentions`,
  `JcsMark`, `JcsCanonicalize`, `JcsMeaning`, `JcsOrder`, `JcsIntact`, `JcsFresh`,
  `JcsUnsafe`, `JcsWalk`): cutting big integers out of a document, canonicalizing it
  (RFC 8785 section 3.2) and putting them back.
- **Paging** (`Paging`), the **event waterfall** (`Waterfall`, `WaterfallScreen`),
  **refresh-token rotation** (`OAuthRefresh`, `OAuthOutcome`) and the **config editor**
  (`ConfigEdit`, `ConfigForms`, `ConfigGuarantees`).
- `StandardForms` and `StandardText` state the byte-level forms (UTF-8, hex, base64, JSON
  escapes, CBOR heads) the way their standards do, apart from the functions that scan them.

Code that updates state is modelled by classes and methods whose contracts tie them to a
specification function; the theorems are lemmas about those functions.  `dafny verify
dfyconfig.toml` checks everything.  Nothing here runs the program.

Where the code does not do what one might expect, the model follows the code and a lemma
says exactly when it matters:

- The 32-bit level width wraps beyond 2^31 transactions (`MerkleTree.WidthBound`).
- The verifier accepts what a builder made exactly when no descended node has equal
  children (`MerkleCompleteness.Completeness`); a block of two equal transactions has no
  proof that it accepts (`MerkleCompleteness.TwinsAreRefused`).
- The decoder ignores bytes after the first item and the indefinite marker on integers and
  tags, and reads two-byte simple values below 32; the head and item grammars say so.
- The encoder refuses whatever follows the document unless it starts with a closing bracket
  or brace, which the JSON decoder's `More` takes for the end; so `{}]` is encoded as `{}`
  (`BundleRoundTrip.TrailingRefused`, `BundleRoundTrip.BracketIsOverlooked`).
- An integer literal keeps its spelling through the CBOR round trip unless it is `-0`
  (`BundleRoundTrip.IntegersKeepSpelling`).
- Canonicalizing a document with big integers is refused exactly when one of its decoded
  strings contains the placeholder (`JcsCanonicalize.Canonicalize`); a document spelled
  without escapes never is (`JcsFresh.FreshIsEnough`).
- A config value reads back exactly when it is UTF-8 and has no control character other
  than tab, newline and return; the quoter writes the others as they are, which TOML
  (v1.0.0, basic strings) does not allow (`ConfigGuarantees.ValueReadsBack`).
- A CBOR bundle that decodes comes back byte for byte, when its JSON is encoded, exactly if
  it is tagged, complete, in core deterministic form and every value is in its slot: byte
  strings, and no text, in the hex and base64 slots; elsewhere UTF-8 text, 64-bit integers,
  finite floats, booleans and null, and no other simple value or inner tag
  (`BundleInverse.DecodeEncode`).
- The scan takes a section header for one exactly if it has no comment or its comment ends
  in a bracket, so below `[verify] # note` it rewrites an `api_key` of that section
  (`ConfigGuarantees.HeaderRecognized`, `SectionKept`, `CommentedHeaderIsMissed`).
- A second edit of a config file fails exactly when the new line is too long for the line
  scanner's buffer, and changes the file exactly when some line but the replaced one ends in
  two carriage returns, because each edit drops one (`ConfigGuarantees.EditTwice`; the file
  of `ConfigGuarantees.ReturnsAreLost` shows it). A file without carriage returns is safe
  (`ConfigGuarantees.EditTwicePlain`).
- A last line that is a lone carriage return is lost and leaves its newline
  (`ConfigGuarantees.EditedFile`, shown by `ConfigGuarantees.LoneReturnIsLost`).
- A line such as `[1, 2]` of a top-level array that spans lines is taken for a header, and
  the new line is put inside the array (`ConfigGuarantees.ArrayLineIsTakenForHeader`).
- After every event has aged out, a scrolled cursor stands on index 0 of an empty buffer
  (`Waterfall.Inv`); the next event makes it live.

## Model

| member | source | states |
|---|---|---|
| MerkleTree.CalcTreeHeight | internal/bitcoin/merkle.go:152-157 | the height h has 2^h >= n and, unless it is 0, 2^(h-1) < n |
| MerkleTree.HeightIsLeast | internal/bitcoin/merkle.go:152-157 | the height is the least whose level has exactly one node |
| MerkleTree.WidthIsCeiling | internal/bitcoin/merkle.go:159-161 | level h of n leaves, built by pairing level by level, has n / 2^h nodes rounded up |
| MerkleTree.WidthNeverOver | internal/bitcoin/merkle.go:159-161 | the wrapping 32-bit width never exceeds the true one, for every count and height |
| MerkleTree.WidthExact | internal/bitcoin/merkle.go:159-161 | up to 2^31 transactions the 32-bit width is the true one at every height of the tree |
| MerkleTree.WidthWraps | internal/bitcoin/merkle.go:159-161 | beyond 2^31 level 31 has two nodes and the code counts none |
| MerkleTree.WidthBound | internal/bitcoin/merkle.go:159-161 | all levels are counted right if and only if there are at most 2^31 transactions |
| MerkleTree.NodeIsInLevel | internal/bitcoin/merkle.go:127-139 | the hash of a node, pairing a missing right child with its left sibling, is the entry of its level |
| MerkleTree.RootIsTopNode | internal/bitcoin/merkle.go:41-41 | the node at the top is the Merkle root obtained by pairing up whole levels |
| PartialMerkle.ExpandFlags | internal/bitcoin/merkle.go:142-150 | the loop yields each byte's bits, lowest first, as the specification of the flag stream |
| PartialMerkle.TreeTraversal.constructor | internal/bitcoin/merkle.go:35-39 | a traversal starts with nothing read, nothing matched and no duplicate |
| PartialMerkle.TreeTraversal.TakeFlag | internal/bitcoin/merkle.go:94-101 | returns the next flag, false past the end, and counts it |
| PartialMerkle.TreeTraversal.TakeHash | internal/bitcoin/merkle.go:103-110 | returns the next hash, none past the end, and counts it |
| PartialMerkle.TreeTraversal.Traverse | internal/bitcoin/merkle.go:112-140 | the traversal leaves exactly the state and returns exactly the hash of the recursive specification; every node it visits lies inside its level |
| PartialMerkle.ChildrenInLevel | internal/bitcoin/merkle.go:127-139 | the children visited from a node of a level are nodes of the level below, so the leaf guard always holds |
| PartialMerkle.VerifyPartialMerkleTree | internal/bitcoin/merkle.go:25-64 | the result is the specified one, which MerkleAcceptance.Judged characterizes for every input |
| MerkleSoundness.VisitsAreLinear | internal/bitcoin/merkle.go:94-140 | even on truncated input at most 2 * flags + 1 nodes are visited |
| MerkleSoundness.WalkReadsOnlyPresent | internal/bitcoin/merkle.go:94-110 | a walk that stays within its streams is unchanged by what follows them |
| MerkleSoundness.AcceptedReadsOnlyPresent | internal/bitcoin/merkle.go:43-51 | if the proof is accepted, no flag and no hash beyond the input was ever read |
| MerkleSoundness.PicksIncrease | internal/bitcoin/merkle.go:115-121 | the matched leaf positions are strictly increasing and lie under the visited node |
| MerkleSoundness.ClashIsCollision | internal/bitcoin/merkle.go:163-172 | if the computed hash is the block's own, the first node combined from other hashes exhibits a collision of the combining function |
| MerkleSoundness.MatchesAreIds | internal/bitcoin/merkle.go:112-140 | without a clash the matches are the block's ids at the picked positions |
| MerkleSoundness.Soundness | internal/bitcoin/merkle.go:25-64 | for every block of up to 2^32 - 1 ids: a proof valid against its root matches ids at strictly increasing positions, or the run exhibits an explicit collision |
| MerkleCompleteness.ExpandedPack | internal/bitcoin/merkle.go:142-150 | expanding packed flags gives them back, followed by less than a byte of false padding |
| MerkleCompleteness.WalkRebuilds | internal/bitcoin/merkle.go:112-140 | walking a built proof consumes exactly its flags and hashes, computes the node's hash, matches the wanted ids and flags a duplicate exactly when it descends twins |
| MerkleCompleteness.TwinsAreRefused | internal/bitcoin/merkle.go:43-51 | the proof built for a block of two equal transactions is refused, whichever of them it selects |
| MerkleCompleteness.Completeness | internal/bitcoin/merkle.go:25-64 | for up to 2^31 ids and every selection, the built proof is valid if and only if no descended node has equal children, and then yields exactly the wanted ids in order |
| MerkleAcceptance.WalkTakes | internal/bitcoin/merkle.go:112-140 | visiting a node where the streams hold the flags and hashes of a partial tree consumes exactly those, computes the tree's hash, matches its wanted leaves and flags a duplicate exactly if two children are equal |
| MerkleAcceptance.TreeRead | internal/bitcoin/merkle.go:112-140 | a visit that stays inside both streams has read some partial tree of the shape of the block |
| MerkleAcceptance.Judged | internal/bitcoin/merkle.go:25-64 | for every input: a proof that spells out a partial tree, with all its hashes and fewer than eight flags left over and no equal children, is judged by that tree's hash and yields its wanted leaves; every other proof, and every proof for no transactions, gives the empty invalid result |
| MerkleAcceptance.AcceptedExactly | internal/bitcoin/merkle.go:43-64 | a proof is valid if and only if it spells out a partial tree whose hash is the expected root |
| MerkleAcceptance.NothingMayFollow | internal/bitcoin/merkle.go:43-51 | with any further hash or flag byte an accepted proof is refused, whatever root is expected |
| MerkleAcceptance.FlagAt | internal/bitcoin/merkle.go:142-150 | flag i of byte k is the bit of that byte worth 2^i |
| JsonText.ParseElemExact | internal/jcs/jcs.go:185-207 | the RFC 8259 parser undoes the text of every well-formed syntax tree |
| JsonText.ElemTextExact | internal/jcs/jcs.go:185-207 | whatever the parser accepts is well-formed and spells the bytes consumed |
| JsonGrammar.TokensExactly | internal/jcs/jcs.go:185-207 | the structural characters and the three literal names |
| JsonGrammar.SpacesExactly | internal/jcs/jcs.go:185-207 | white space is space, tab, newline and return |
| JsonGrammar.NumberExactly | internal/jcs/jcs.go:185-207 | a number is an optional minus, an integer part without leading zeros, and an optional fraction and exponent, and nothing else |
| JsonGrammar.StringExactly | internal/jcs/jcs.go:185-207 | what stands between quotes is a sequence of unescaped bytes, short escapes and four-digit escapes, and nothing else |
| JsonTree.EscapeSpells | internal/proof/cbor_decode.go:447-478 | an escaped string is well spelled between quotes: no bare quote, control byte or bad escape |
| JsonTree.DecodedEscape | internal/proof/cbor_decode.go:447-478 | decoding the escaped form of UTF-8 text gives the text back |
| JsonTree.DecodedIsValid | internal/proof/cbor_encode.go:45-50 | decoding a spelled JSON string always yields UTF-8 |
| JsonPrint.ReadPrint | internal/proof/cbor_decode.go:447-478 | a printed sound value is one JSON text that reads back to exactly that value |
| JsonPrint.PrintIsUtf8 | internal/proof/cbor_decode.go:447-478 | a printed sound value is UTF-8 |
| StandardForms.EscapesExactly | internal/proof/cbor_decode.go:447-478 | which bytes are escaped when a string is written, and how: by a letter or sign, by a code in hex, or not at all |
| StandardForms.EscapedCharacter | internal/proof/cbor_encode.go:45-50 | an escaped 16-bit character is read as that character |
| StandardForms.EscapedPair | internal/proof/cbor_encode.go:45-50 | an escaped surrogate pair is read as the one character it stands for |
| StandardForms.EscapedSurrogate | internal/proof/cbor_encode.go:45-50 | a surrogate escaped without its partner is read as U+FFFD |
| StandardForms.EscapedSigns | internal/proof/cbor_encode.go:45-50 | what the eight short escapes are read as |
| StandardForms.StrayByte | internal/proof/cbor_encode.go:45-50 | a byte of a JSON string that belongs to no character is read as U+FFFD, each on its own |
| StandardForms.ThreeByteForm | internal/proof/cbor_decode.go:237-244 | where the bits of a character from U+0800 on go |
| StandardForms.FourByteForm | internal/proof/cbor_decode.go:237-244 | where the bits of a character beyond 16 bits go |
| StandardForms.WellFormedExactly | internal/proof/cbor_decode.go:237-244 | a character is well-formed exactly if it is what encoding writes for some scalar value |
| StandardText.ValidExactly | internal/proof/cbor_decode.go:238-238 | text is UTF-8 exactly if scalar values spell it |
| StandardText.RunRepaired | internal/proof/cbor_decode.go:242-242 | a run of bytes that belong to no character becomes one U+FFFD |
| StandardText.CharacterKept | internal/proof/cbor_decode.go:242-242 | the repair keeps every character |
| Utf8.RepairedIsValid | internal/proof/cbor_decode.go:237-244 | replacing ill-formed bytes always yields UTF-8 |
| Utf8.RepairedIsIdentity | internal/proof/cbor_decode.go:237-244 | the repair leaves a string alone if and only if it is UTF-8 |
| Numbers.IntRoundTrip | internal/proof/cbor_decode.go:197-209 | every integer reads back from its decimal text |
| Numbers.IntLiteralIsDecimal | internal/proof/cbor_encode.go:125-135 | a JSON number without fraction and exponent is exactly an optional minus and digits without leading zeros |
| Numbers.IntLiteralCanonical | internal/proof/cbor_encode.go:125-135 | an integer literal is the text of its own value, unless it is -0 |
| StandardForms.DigitsStep | internal/proof/cbor_decode.go:197-209 | a numeral is its decimal digits, the most significant first |
| CborSyntax.CborHead | internal/proof/cbor_decode.go:480-516 | a decoded head has a major type below 8, an argument that fits its width, and lies within the input |
| CborSyntax.HeadExact | internal/proof/cbor_decode.go:480-516 | decoding the bytes of a head gives the head back and leaves the rest |
| CborSyntax.HeadSpelled | internal/proof/cbor_decode.go:480-516 | every decoded head is spelled by the bytes it was read from |
| StandardForms.HeadLayout | internal/proof/cbor_decode.go:480-516 | a head is three bits of major type, five of additional information and the argument in as many big-endian bytes as those say |
| StandardForms.ItemStarts | internal/proof/cbor_decode.go:195-259 | the major type that each kind of item starts with |
| StandardForms.ItemEnds | internal/proof/cbor_decode.go:318-322 | what is of indefinite length ends with the break byte |
| StandardForms.BigEndianAt | internal/proof/cbor_decode.go:480-516 | byte k of a big-endian number is its digit worth 256 to the power of the bytes that follow |
| StandardForms.FiniteExactly | internal/proof/cbor_decode.go:299-299 | the doubles that are infinite or not a number are those whose exponent bits are all ones |
| CborSyntax.ParseExact | internal/proof/cbor_decode.go:189-260 | parsing the bytes of any well-formed item, in any width and chunking, gives it back and stops at its end |
| CborSyntax.BytesExact | internal/proof/cbor_decode.go:189-260 | whatever is parsed is well-formed and spells the bytes consumed |
| TextEncodings.HexRoundTrip | internal/proof/cbor_decode.go:235-235 | decoding the lowercase hex of bytes gives them back |
| TextEncodings.HexCanonical | internal/proof/cbor_encode.go:99-107 | text accepted as lowercase hex is the hex of its bytes |
| TextEncodings.Base64RoundTrip | internal/proof/cbor_decode.go:223-224 | decoding the base64 of bytes gives them back |
| StandardForms.HexAt | internal/proof/cbor_decode.go:230-230 | byte k is written as its two digits, the high half first |
| StandardForms.LowerHexExactly | internal/proof/cbor_encode.go:99-107 | the lowercase hex digits are those sixteen |
| StandardForms.GroupIsNumber | internal/proof/cbor_decode.go:219-219 | three bytes become the four letters that make the same number in base 64, by the alphabet of RFC 4648 |
| StandardForms.PaddedGroups | internal/proof/cbor_decode.go:219-219 | one or two bytes left over are padded |
| StandardText.UngroupedExactly | internal/proof/cbor_encode.go:109-113 | which texts are base64: groups of four letters, the last one possibly with one or two equals signs; and how many bytes they are |
| StandardText.GroupReads | internal/proof/cbor_encode.go:109-113 | four letters are read as the three bytes that make the same number |
| StandardText.PaddedReads | internal/proof/cbor_encode.go:109-113 | what is read of a padded group, whatever its left-over bits |
| BundleValue.ConvertIsSound | internal/proof/cbor_decode.go:189-367 | whatever is converted is a sound JSON value: real numbers, UTF-8 text, no repeated name in any object |
| BundleDecode.DecodeItem | internal/proof/cbor_decode.go:189-260 | every item that is converted consumes at least one byte |
| BundleDecode.ItemAgrees | internal/proof/cbor_decode.go:189-430 | refinement: on every input the one-pass conversion of an item succeeds exactly when parsing it and converting its value by role does, with the same value and rest |
| BundleDecode.ElemsAgree | internal/proof/cbor_decode.go:310-329 | the array loop, counted or up to a break, is parsing the elements and converting each |
| BundleDecode.FieldsAgree | internal/proof/cbor_decode.go:331-367 | the map loop with its set of seen names is parsing the pairs and converting them in order |
| BundleDecode.BundleAgrees | internal/proof/cbor_decode.go:65-81 | the whole decoder computes the reference on every input: same refusals, same value |
| BundleDecode.Spelled | internal/proof/cbor_decode.go:65-81 | any well-formed spelling of a map, tagged or not and whatever follows, converts by its value alone |
| BundleRefusals.ItemJudged | internal/proof/cbor_decode.go:189-430 | reading the bytes of any well-formed item gives the verdict on its value, the JSON or the first refusal in wire order with its path, and stops at the item's end |
| BundleRefusals.JudgedConverts | internal/proof/cbor_decode.go:189-430 | that verdict is the converted value exactly where conversion by role succeeds |
| BundleRefusals.BundleJudged | internal/proof/cbor_decode.go:65-81 | however a map is spelled, tagged or not and whatever follows, the whole result is the verdict on its value |
| BundleRefusals.RepresentationIndependence | internal/proof/cbor_decode.go:59-81 | two well-formed encodings of the same map value (widths, indefinite lengths, chunks, tag, trailing bytes) give identical results: the same JSON, or the same refusal at the same path |
| BundleReasons.RefusalIsTrue | internal/proof/cbor_decode.go:210-397 | however a map is spelled and whatever follows it, a refusal names a path that leads to a value of the bundle, and that value is what the refusal says: a byte string, bad UTF-8, that tag, undefined, that simple value, a non-finite float, or a map with such a key or with a name twice |
| BundleReasons.ChunksStop | internal/proof/cbor_decode.go:399-430 | a chunked string is refused for what follows its well-formed chunks: the end of the input, something that is no chunk of its kind, or a chunk longer than what is there |
| CborConverter.Converter.constructor | internal/proof/cbor_decode.go:177-181 | the converter starts at the first byte with an empty buffer |
| CborConverter.Converter.Advance | internal/proof/cbor_decode.go:193-193 | the cursor moves within the input |
| CborConverter.Converter.WriteJsonString | internal/proof/cbor_decode.go:447-478 | appends exactly the quoted, escaped string |
| CborConverter.Converter.ReadString | internal/proof/cbor_decode.go:399-430 | returns the string content, chunks joined, or the error of the specification, and stops right behind it |
| CborConverter.Converter.Item | internal/proof/cbor_decode.go:188-260 | refines the item specification: same error, or the printed value appended and the cursor at the rest, never outside the input |
| CborConverter.Converter.Body | internal/proof/cbor_decode.go:195-259 | the same for what follows a head, for every major type |
| CborConverter.Converter.ByteString | internal/proof/cbor_decode.go:210-236 | a byte string is refused, base64, null or hex according to its role |
| CborConverter.Converter.TextString | internal/proof/cbor_decode.go:237-247 | text is written as it is, repaired, or refused in a JCS preimage |
| CborConverter.Converter.Simple | internal/proof/cbor_decode.go:262-296 | simple values and floats: the JSON ones written, others null or refused by role |
| CborConverter.Converter.SimpleValueOf | internal/proof/cbor_decode.go:269-288 | false, true, null and the rest of the simple values by role |
| CborConverter.Converter.Array | internal/proof/cbor_decode.go:310-329 | the loop writes the elements between brackets with commas, counted or up to the break |
| CborConverter.Converter.MapKey | internal/proof/cbor_decode.go:369-397 | a key is text and UTF-8, or the refusal of the specification |
| CborConverter.Converter.Member | internal/proof/cbor_decode.go:341-364 | one member: a repeated key is refused, otherwise comma, name, colon and value are appended |
| CborConverter.Converter.Object | internal/proof/cbor_decode.go:331-367 | the loop over members refines the specification, keeping the set of names seen |
| CborConverter.CborToJson | internal/proof/cbor_decode.go:65-81 | the result is the printed value of the bundle specification or its error; BundlePaths and BundleSlots say what that is at every path |
| BundleSlots.SlotPositions | internal/proof/cbor_decode.go:104-175 | for every path: it is a base64 slot if and only if it is the key or the signature; a hex slot if and only if it is the subject's signing_key_id, one of the three hash names of a block or of an entry of the two lists of commitments; a text slot if and only if it is inclusion_proof or one of the three proof texts of such an entry |
| BundleSlots.ByteStringsByPath | internal/proof/cbor_decode.go:210-236 | in every accepted bundle a byte string becomes base64 at a base64 slot, null at a text slot, hex at every other path, and stands in no preimage |
| BundleSlots.DecodedByteStrings | internal/proof/cbor_decode.go:65-81 | the same from the bytes read to the JSON written |
| BundlePaths.LeavesByPath | internal/proof/cbor_decode.go:189-308 | every scalar of an accepted bundle, found by its path, is written as the path says: integers by value, text repaired, byte strings by slot, the simple values and floats JSON has, null for the others |
| BundlePaths.RefusedExactly | internal/proof/cbor_decode.go:189-397 | a bundle's value is refused if and only if somewhere in it stands something without a JSON counterpart inside a preimage, or a map with a key that is no text, is not UTF-8 in a preimage, or is emitted twice |
| BundleGuarantees.PreimagePositions | internal/proof/cbor_decode.go:47-52 | for every path: its role is that of a JCS preimage if and only if the path lies at or below the subject's claims, entropy or metadata, a witness other than the block, or the metadata of the block, of a block of the block path, of the signing key event's block or of the witnesses' block |
| BundleGuarantees.HashedStaysInJsonSpace | internal/proof/cbor_decode.go:189-308 | what is accepted in the role of a preimage has no byte string, tag, undefined, other simple value, non-finite float, bad UTF-8 or non-text key at any depth |
| BundleGuarantees.RoleDiscipline | internal/proof/cbor_decode.go:104-175 | in every accepted value the item at any path, through tags, was converted in the role folded along that path, and its result stands at the same path |
| BundleGuarantees.AcceptedPreimages | internal/proof/cbor_decode.go:47-64 | if a bundle is accepted, every value at or below one of these positions lies in the JSON value space |
| BundleGuarantees.EmittedJsonIsWellFormed | internal/proof/cbor_decode.go:65-81 | for every accepted input the output is one UTF-8 JSON text that reads back to exactly the converted value, names distinct in every object |
| BundleGuarantees.RefusalNamesPreimage | internal/proof/cbor_decode.go:210-308 | subject data is refused only at or below those positions, and the reported path leads to one |
| BundleEncode.JsonValueToCbor | internal/proof/cbor_encode.go:68-119 | in whatever order the map is iterated, the conversion is the specified one, which BundleSlots.EncodedByPath and RefusedExactly characterize by path |
| BundleSlots.EncodedByPath | internal/proof/cbor_encode.go:68-141 | in a document that is encoded every string and number, found by its path, becomes what the path says: bytes from hex or base64 in those slots, integers within 64 bits, doubles |
| BundleSlots.RefusedExactly | internal/proof/cbor_encode.go:68-141 | a document is refused if and only if some string is not lowercase hex at a hex slot or not base64 at a base64 slot, some integer is beyond 64 bits, or some other number is no double |
| BundleSlots.LastMemberCounts | internal/proof/cbor_encode.go:44-50 | of members with the same name the last one is encoded |
| StandardForms.ShortestExactly | internal/proof/cbor_encode.go:19-26 | no head of definite length is shorter than the one written |
| StandardForms.MarkerIsTag | internal/proof/cbor_encode.go:61-65 | the marker in front of a bundle is the head of tag 55799 |
| Ordering.LexLeDecides | internal/proof/cbor_encode.go:22-24 | comparing element by element decides the order in which a prefix comes first and otherwise the smaller element at the first difference |
| Ordering.SortedIsSorted | internal/proof/cbor_encode.go:19-26 | sorting lists every key once; of any two the earlier is a prefix of the later, or smaller at the first place where they differ, by rank |
| Ordering.SortedUnique | internal/proof/cbor_encode.go:22-24 | where ranks tell keys apart, that list is the only ascending one |
| BundleRoundTrip.DeterministicMeans | internal/proof/cbor_encode.go:61-65 | the deterministic encoding of a value is well-formed and has that value |
| BundleDeterministic.KeyRankIsEncoding | internal/proof/cbor_encode.go:19-26 | keys are ranked by the very bytes they are encoded as |
| BundleDeterministic.DeterministicIsCore | internal/proof/cbor_encode.go:19-26 | every encoding has shortest heads, definite lengths, floats of the narrowest width that holds their value and, in every map, encoded keys of which each is a prefix of the next or smaller at the first byte where they differ, none twice |
| BundleDeterministic.EncodedIsCore | internal/proof/cbor_encode.go:37-66 | a document's wire form is the self-describing tag and one such item, a map |
| BundleDeterministic.MemberOrderIsLost | internal/proof/cbor_encode.go:22-24 | objects with the same distinct members in any order give the encoder the same value |
| BundleRoundTrip.ConvertBack | internal/proof/cbor_encode.go:68-141 | converting an encoded value back by role gives the value in normal form: numbers as the decoder writes them, canonical base64, everything else unchanged |
| BundleRoundTrip.IntegersKeepSpelling | internal/proof/cbor_encode.go:125-135 | integers keep their spelling exactly, except that -0 becomes 0 |
| BundleRoundTrip.EncodeAgain | internal/proof/cbor_encode.go:68-141 | a value and its normal form convert to the same CBOR value |
| BundleRoundTrip.RoundTrip | internal/proof/cbor_encode.go:37-66 | for every JSON value that encodes: its wire form decodes to its normal form and the decoder stops exactly at the last byte |
| BundleRoundTrip.DocumentRoundTrip | internal/proof/cbor_encode.go:44-66 | for every document that encodes: decoding gives its own values in normal form, printing that reads back, and encoding the printed text gives the same bytes |
| BundleInverse.EncodedInSlots | internal/proof/cbor_encode.go:68-141 | whatever is encoded has byte strings in hex and base64 slots and nowhere else, valid text elsewhere, 64-bit integers, finite floats and no tag or other simple value |
| BundleInverse.ItemBack | internal/proof/cbor_decode.go:189-367 | an item in core form with its values in their slots is, after conversion to JSON, encoded as that very item |
| BundleInverse.DecodeEncode | internal/proof/cbor_encode.go:37-43 | for every CBOR input that decodes: encoding the printed text gives the input back if and only if it is the self-describing tag and one complete map in core form with every value in its slot |
| BundleSlots.EncodedExactly | internal/proof/cbor_encode.go:44-66 | for every document and whatever follows it: refused as trailing data, as no object, or as something without an encoding, each exactly when it is so, and otherwise encoded if it fits |
| BundleSlots.NoDocument | internal/proof/cbor_encode.go:45-50 | an input is refused as no JSON exactly if no document stands at its start |
| BundleRoundTrip.TrailingRefused | internal/proof/cbor_encode.go:51-53 | for every well-formed document and everything that can follow it: the result is that of the document alone if nothing follows or what follows starts with a closing bracket or brace, and the refusal of trailing data otherwise |
| BundleRoundTrip.BracketIsOverlooked | internal/proof/cbor_encode.go:51-53 | the document {}] is encoded as {} is |
| BundlePlatform.DoublesQualify | internal/proof/cbor_encode.go:136-141 | all that is asked of the platform's float routines can hold together |
| BundlePlatform.SpellingQualifies | internal/jcs/jcs.go:22-27 | what is asked of the canonicalizer's number format can hold |
| JcsSplice.Index | internal/jcs/jcs.go:334-334 | the first occurrence, or none at all |
| JcsSplice.Restore | internal/jcs/jcs.go:327-365 | the loop with its filled set and accounting is the specified pass, with the same error |
| JcsSplice.MarkerAtToken | internal/jcs/jcs.go:308-339 | the next marker is the next token's own or one that lies entirely inside the run before it |
| JcsSplice.Spurious | internal/jcs/jcs.go:332-351 | a marker that is not a token's makes the pass fail or uses up an index while leaving all tokens ahead |
| JcsSplice.LateHole | internal/jcs/jcs.go:345-348 | a token whose index is already used up makes the pass fail |
| JcsSplice.CleanRuns | internal/jcs/jcs.go:332-352 | if no text between tokens contains the placeholder, every literal is put back exactly once at its own token |
| JcsSplice.RestoreExact | internal/jcs/jcs.go:312-365 | for every arrangement of text and tokens with each index once: restoring gives the text with the literals in place if that is free of the placeholder, and is refused otherwise |
| JcsScan.FlaggedExactly | internal/jcs/jcs.go:260-276 | the 15-character shortcut and the base-10 parse flag a JSON number exactly when it is an integer literal beyond the limit |
| JcsScan.ScanIntegers | internal/jcs/jcs.go:240-287 | the scan returns exactly the spans of the oversized integer literals; the branch for a literal that cannot be located is never taken |
| JcsScan.SpansLocated | internal/jcs/jcs.go:278-285 | the spans are ascending, disjoint and each holds its literal |
| JcsScan.LiteralsAscending | internal/jcs/jcs.go:488-501 | the report is a permutation of the literals in ascending numeric order |
| JcsScan.Splice | internal/jcs/jcs.go:138-146 | the loop writes the input with the i-th span replaced by the i-th token |
| JcsScan.CutoutFills | internal/jcs/jcs.go:138-146 | the holes are numbered in order and filling them gives the input back |
| JcsScan.SpliceRestores | internal/jcs/jcs.go:138-156 | for any bytes and any located spans, splicing and restoring gives the bytes back if they are free of the placeholder, and is refused otherwise |
| JcsCanon.SortAscends | internal/jcs/jcs.go:131-135 | members are permuted so that each name's UTF-16 code units are a prefix of the next one's or smaller at the first difference |
| JcsOrder.UnitsAreUtf16 | internal/jcs/jcs.go:22-24 | names are ranked by 16-bit units that stand for their very characters, surrogate pairs included |
| JcsOrder.CanonInOrder | internal/jcs/jcs.go:131-135 | in every object of a canonical value, at every depth, names are distinct and in that order |
| JcsOrder.CanonicalInOrder | internal/jcs/jcs.go:131-135 | canonical bytes are a document without white space and needless escapes, in that order at every depth, and it says what the original says |
| JcsOrder.SampleOrder | internal/jcs/jcs.go:22-24 | the seven names of the example in RFC 8785 section 3.2.3 sort as it shows |
| JcsIntact.IntactExactly | internal/jcs/jcs.go:131-135 | the canonicalizer accepts a string if and only if it spells characters, plainly or escaped, and then reads those |
| JcsCanon.LabelledBack | internal/jcs/jcs.go:131-156 | putting the literals back into the labelled tree gives the original |
| JcsCanon.CanonAs | internal/jcs/jcs.go:131-156 | canonicalizing commutes with filling the holes, whatever inert values they are filled with |
| JcsCanon.StubCanonizable | internal/jcs/jcs.go:148-151 | the spliced document has a canonical form exactly when the original has one with big integers as written |
| JcsCanon.NothingBig | internal/jcs/jcs.go:124-129 | where nothing is oversized the library's canonical form is already the exact one |
| JcsFlatten.FlattenPrints | internal/jcs/jcs.go:148-156 | printing a filled tree is filling the printed tree |
| JcsFlatten.EveryHoleOnce | internal/jcs/jcs.go:312-315 | the canonicalized document carries every token exactly once, in any order |
| JcsMentions.EscapeOccurs | internal/jcs/jcs.go:323-326 | escaping a string neither hides nor makes a placeholder |
| JcsMentions.PrintOccurs | internal/jcs/jcs.go:323-326 | a placeholder occurs in a printed value exactly when one of its strings or names contains it |
| JcsMentions.CanonMentions | internal/jcs/jcs.go:323-326 | canonicalizing neither adds nor removes strings, and keeps numbers JSON numbers |
| JcsMark.DocCarries | internal/jcs/jcs.go:240-258 | the tokens of a document carry its text and its number literals in order |
| JcsMark.SpansAreOffenders | internal/jcs/jcs.go:260-285 | the scanner's literals are exactly the oversized ones among the numbers, in document order |
| JcsMark.CutoutIsStub | internal/jcs/jcs.go:138-146 | splicing the scanned spans is splicing token by token |
| JcsMark.DocSplices | internal/jcs/jcs.go:131-146 | splicing the text of a document writes the document with its big integers replaced by placeholder strings |
| JcsCanonicalize.MarkMarks | internal/jcs/jcs.go:131-146 | the marked document is well-formed, keeps every string, and means the labelled tree with placeholders in its holes |
| JcsCanonicalize.SplicedDocument | internal/jcs/jcs.go:138-148 | the spliced bytes parse to the marked document |
| JcsCanonicalize.CanonicalizedStub | internal/jcs/jcs.go:148-151 | the library's output on the spliced document is the canonical form cut at its big integers, with tokens in the cuts |
| JcsCanonicalize.CanonicalizedFill | internal/jcs/jcs.go:4-14 | filling the cuts with the literals is the canonical form with every big integer as written |
| JcsCanonicalize.FormOccurs | internal/jcs/jcs.go:361-363 | the placeholder occurs in that form exactly when a decoded string of the document contains it |
| JcsCanonicalize.RestoredForm | internal/jcs/jcs.go:131-156 | splicing, canonicalizing and restoring fails exactly when the document has no canonical form or mentions the placeholder, and otherwise gives the exact form |
| JcsCanonicalize.PlainForm | internal/jcs/jcs.go:124-129 | without big integers the result is the library's own |
| JcsCanonicalize.Canonicalize | internal/jcs/jcs.go:98-159 | for every input: not JSON is refused; otherwise the result is the canonical form of the original with integers beyond 2^53 exactly as written, with the report a sorted permutation of them, and it is refused exactly when there is no canonical form or big integers meet a string containing the placeholder; JcsOrder.CanonicalInOrder says what that form looks like |
| JcsMeaning.UnitsInjective | internal/jcs/jcs.go:22-24 | different UTF-8 names have different UTF-16 code units, so sorting by them never ties |
| JcsMeaning.SameCanon | internal/jcs/jcs.go:22-27 | two values have the same canonical form if and only if they are equal up to the order of members and the spelling of numbers |
| JcsMeaning.CanonicalBytesAgree | internal/jcs/jcs.go:98-113 | two documents that say the same, in whatever member order, white space and string spelling, have the same canonical bytes, and equal bytes mean they say the same |
| JcsMeaning.SameReflexive | internal/jcs/jcs.go:98-113 | white space and spelling alone never matter: a value says the same as itself |
| JcsMeaning.CanonicalizedTwice | internal/jcs/jcs.go:98-113 | canonicalizing canonical bytes gives them back |
| JcsFresh.FreshIsEnough | internal/jcs/jcs.go:289-303 | a placeholder that does not occur in a document spelled without escapes is in none of its strings |
| JcsFresh.DerivedPlaceholder | internal/jcs/jcs.go:295-310 | the placeholders and tokens that the code derives have the shape asked of them |
| JcsUnsafe.KeysInOrder | internal/jcs/jcs.go:419-423 | keys gathered in any order are listed once each, every one a prefix of the later ones or smaller at the first byte where they differ |
| JcsUnsafe.WalkUnsafeIntegers | internal/jcs/jcs.go:414-460 | the walk appends exactly the specified offenders, which JcsWalk.WalkListing characterizes |
| JcsWalk.WalkListing | internal/jcs/jcs.go:414-469 | the walk reports every place that holds an offending integer, once and nothing else, in the order of keys by bytes and elements by index, each with the literal that stands there and the dotted path that leads there |
| JcsUnsafe.WalkReports | internal/jcs/jcs.go:408-460 | for documents without repeated names the walk reports every integer beyond 2^53 - 1 once per occurrence |
| JcsUnsafe.AtLimitExactly | internal/jcs/jcs.go:39-68 | between the two limits lie exactly the integers of magnitude 2^53 |
| JcsUnsafe.ReportsDifferAtLimit | internal/jcs/jcs.go:39-68 | the walk's report is the scanner's and the integers of magnitude exactly 2^53 |
| Paging.FilterInPlace | internal/items/read.go:126-134 | overwriting the page from its front leaves exactly the kept rows in order |
| Paging.WalkPages | cmd/paging.go:93-149 | every request of the trace is the one the options and the pages before it call for (cursor of the last page, limit the smaller of the page limit and the rows still wanted, at least 1), every page is what fetching that request gave, the rows are those pages in walk direction, untrimmed, and the clamp is the last one the server made; they are the kept rows of one contiguous run that starts where the options say and ends at the cap, the end or the only page, with the cursors of its ends; a failure is the failure of the next request; it terminates however many pages are empty |
| Paging.LastClampExactly | cmd/paging.go:112-115 | the clamp that is reported is that of the last page the server made smaller than asked for, and none exactly if it made none smaller |
| Paging.PageSlice | cmd/paging.go:54-62 | an answered request is a slice starting or ending at its cursor, empty only at the end |
| Paging.ForwardExactly | cmd/paging.go:93-98 | unfiltered, a capped forward walk returns exactly the next min(cap, remaining) rows in order |
| Paging.BackwardExactly | cmd/paging.go:93-98 | unfiltered, a capped backward walk returns exactly the last min(cap, preceding) rows in listing order |
| Paging.ForwardResumes | cmd/paging.go:93-98 | a walk that continues from the returned cursor picks up with no gap and no repeat |
| Paging.BackwardResumes | cmd/paging.go:93-98 | the same backward |
| Paging.TurnsRound | cmd/paging.go:93-98 | a walk back from where a forward walk began ends right before it |
| Paging.NothingLost | internal/items/read.go:121-134 | a filtered walk from the start that ends without a cursor has returned every kept row |
| Waterfall.DropCount | internal/console/monitor.go:381-388 | what eviction keeps is within the hard cap |
| Waterfall.EvictionIsExact | internal/console/monitor.go:376-401 | eviction drops a prefix: each dropped event is aged or beyond the cap, and below the cap the oldest one left is not aged |
| Waterfall.EvictedShifts | internal/console/monitor.go:389-400 | cursor and window shift by the number dropped and stop at the oldest event |
| Waterfall.Monitor.constructor | internal/console/monitor.go:85-99 | the pane starts empty, without selection, newest first, with the events focused |
| Waterfall.Monitor.SetSelected | internal/console/monitor.go:237-249 | the selection is clamped to the buffer, -1 if it is empty |
| Waterfall.Monitor.MoveSelected | internal/console/monitor.go:230-235 | moves by the delta, clamped, unless the buffer is empty |
| Waterfall.Monitor.EvictAged | internal/console/monitor.go:376-401 | drops the aged prefix and what exceeds the cap and shifts cursor and window |
| Waterfall.Monitor.Append | internal/console/monitor.go:440-447 | appends, evicts, and follows the newest event if the cursor was live |
| Waterfall.Monitor.HandlePush | internal/console/monitor.go:431-448 | a push that is not a decodable stream event changes nothing, any other appends its row |
| Waterfall.Monitor.AppendOutageMarker | internal/console/monitor.go:362-374 | appends the marker in the same way |
| Waterfall.Monitor.Update | internal/console/monitor.go:112-192 | every key has the specified effect, which WaterfallScreen describes on the screen |
| Waterfall.Monitor.SlideWindow | internal/console/monitor.go:593-609 | the window slides just enough and stays in the buffer |
| Waterfall.Monitor.RenderWaterfall | internal/console/monitor.go:558-626 | the window after the slide and the indices shown from top to bottom, reversed in place when newest is first |
| Waterfall.ReverseInPlace | internal/console/monitor.go:622-626 | swapping from both ends reverses the list |
| Waterfall.WindowShowsCursor | internal/console/monitor.go:593-616 | after a render the window is in bounds, as full as it can be and contains the cursor; one that already did has not moved |
| Waterfall.HomeAndEnd | internal/console/monitor.go:171-186 | Home puts the cursor on the top row of the screen and End on the bottom row in either order |
| WaterfallScreen.DisplayedIsStretch | internal/console/monitor.go:593-626 | what is displayed is a stretch of the events in screen order, with the cursor in it |
| WaterfallScreen.KeysMoveOnScreen | internal/console/monitor.go:164-186 | in either order, once the screen is drawn again each navigation key has moved the cursor one or ten rows up or down the list displayed before, or to its end, stopping at the first and last row, and changed nothing else |
| WaterfallScreen.NeighboursOnScreen | internal/console/monitor.go:164-170 | Up goes to the row displayed above the cursor and Down to the one below |
| WaterfallScreen.OtherKeys | internal/console/monitor.go:116-192 | each other key changes one thing that is not the cursor; with the stream list focused no key moves it |
| WaterfallScreen.ReversedOrder | internal/console/monitor.go:129-132 | reversing shows the same events the other way round, and twice changes nothing |
| WaterfallScreen.RowsFillPane | internal/console/monitor.go:558-592 | the rows, the title with its blank line, the header and the detail panel fill the pane; there is at least one row |
| Waterfall.StepKeeps | internal/console/monitor.go:362-448 | every step keeps the buffer within the cap and a suffix of everything ever appended, and the selection valid |
| Waterfall.EveryRun | internal/console/monitor.go:112-448 | over every run of pushes, outages, keys and renders the invariant holds |
| Waterfall.StepPoints | internal/console/monitor.go:376-401 | without navigation a scrolled cursor stays on its event, or on the oldest once that is gone, and a live one on the newest |
| Waterfall.ScrolledStays | internal/console/monitor.go:34-49 | over every run without navigation a scrolled cursor stays on the same event as long as that event is not evicted |
| Waterfall.LiveFollows | internal/console/monitor.go:34-49 | over every run without navigation a live cursor stays on the newest event |
| OAuthRefresh.OAuthAuthorizer.constructor | internal/auth/resolve.go:109-121 | memory starts from the stored session |
| OAuthRefresh.OAuthAuthorizer.GetToken | internal/auth/resolve.go:163-196 | what the code does with the mutex held is one undisturbed call; OAuthOutcome.CallsAreTold says over every run what it returns |
| OAuthRefresh.StepKeeps | internal/auth/resolve.go:163-196 | every interleaved step keeps mutual exclusion, the agreement of memory and server, the stored session, and the explanation of what each caller was told |
| OAuthRefresh.RestsInAgreement | internal/auth/resolve.go:93-107 | over every interleaving, whenever the mutex is free the refresh token in memory is the server's current one, and the stored session equals memory if the latest save succeeded |
| OAuthRefresh.NeverReused | internal/auth/resolve.go:163-178 | no refresh token is presented after the server has rotated it |
| OAuthRefresh.ExpiryIsReal | internal/auth/resolve.go:179-183 | a caller is told the session expired only if the server ended it |
| OAuthRefresh.OneRefreshAtATime | internal/auth/resolve.go:93-107 | no two goroutines are past the mutex at once |
| OAuthRefresh.SessionSurvives | internal/auth/resolve.go:93-107 | nothing the goroutines do ends the session |
| OAuthRefresh.Linearizable | internal/auth/resolve.go:163-196 | every interleaving amounts to undisturbed calls one after another in the order the mutex was taken: memory is what they leave, so is the server unless an answer is on its way, and every goroutine got what its own call returns |
| OAuthOutcome.CallsAreTold | internal/auth/resolve.go:163-196 | over every run a call that returns has looked at the cached token once: unforced with time left it made no request and got that token, the server's current one; otherwise exactly one request of it reached the server and its result is SessionExpired iff it was carried out and the session had ended, TokenRateLimited iff it was rate limited, Transport iff it was not delivered, and the issued token iff it was granted |
| OAuthOutcome.MemoryIsLatest | internal/auth/resolve.go:184-196 | over every run, whenever the mutex is free the token in memory is the last one handed out, and the stored one the last that was in memory when a save succeeded |
| ConfigEdit.ReplaceTopLevelKey | internal/config/persist.go:82-140 | the scan with its flags and buffer computes the specified edit, and fails exactly on a line too long for the scanner |
| ConfigGuarantees.OneLineChanges | internal/config/persist.go:82-87 | exactly one line is replaced or inserted: the first top-level assignment, else right before the first header, else at the end |
| ConfigGuarantees.LookupNew | internal/config/persist.go:82-87 | looking the key up at top level then gives the new value as quoted |
| ConfigGuarantees.LookupOthers | internal/config/persist.go:82-87 | every other bare key's lookup is unchanged |
| ConfigGuarantees.OneKey | internal/config/persist.go:15-20 | a line assigns to one bare key at most |
| ConfigForms.LinesExactly | internal/config/persist.go:92-101 | the scanned lines hold no newline and, each followed by one, make up the file, but for a missing last newline |
| ConfigForms.ReturnsExactly | internal/config/persist.go:92-101 | the scanner takes exactly one return off the end of a line that has one |
| ConfigForms.TrimmedExactly | internal/config/persist.go:102-104 | trimming takes white space, and all of it, off both ends of a line |
| ConfigForms.AssignedExactly | internal/config/persist.go:18-20 | a line assigns to a bare key if and only if it is blanks, the key, blanks and an equals sign, whatever follows |
| ConfigForms.SpacesExactly | internal/config/persist.go:102-102 | lines are trimmed by exactly the characters of the Unicode white space property |
| ConfigForms.BlanksExactly | internal/config/persist.go:18-20 | the blanks of the pattern are space, tab, newline, form feed and return |
| ConfigGuarantees.SectionsUntouched | internal/config/persist.go:85-87 | everything from the first header the scan recognizes is untouched |
| ConfigGuarantees.HeaderRecognized | internal/config/persist.go:104-104 | a bracketed header with white space around it and a comment is recognized if and only if there is no comment or, trimmed, it ends in a bracket |
| ConfigGuarantees.SectionKept | internal/config/persist.go:85-87 | from any line starting with a bracket on, the file is untouched if and only if the edit is made at or before that line or replaces a line by itself |
| ConfigGuarantees.CommentedHeaderIsMissed | internal/config/persist.go:85-87 | below the header [verify] # note the assignment of that section is rewritten |
| ConfigGuarantees.NewLineAssigns | internal/config/persist.go:89-90 | the new line is an assignment to the key and never a header |
| ConfigGuarantees.UnquotesTo | internal/config/persist.go:142-166 | what a TOML reader makes of a quoted value: the repaired text, or nothing if it has a raw control character |
| ConfigForms.QuotesExactly | internal/config/persist.go:142-160 | five characters are escaped, each by a backslash and one more, and no other |
| ConfigGuarantees.ValueReadsBack | internal/config/persist.go:142-166 | the value reads back if and only if it is UTF-8 without control characters other than tab, newline and return |
| ConfigGuarantees.ControlIsLost | internal/config/persist.go:142-166 | a value with the control character 1 cannot be read back |
| ConfigGuarantees.EditedFile | internal/config/persist.go:133-139 | for every file: the new file's lines are the scanned lines with the one edit and it ends in a newline exactly if the old one did, except that a last line that is a lone carriage return is lost and leaves its newline |
| ConfigGuarantees.EditTwice | internal/config/persist.go:88-140 | for every file: the second edit fails if and only if the new line does not fit the scanner, and gives the same file if and only if it fits and, in the file as it was scanned, no line but the replaced one still ends in a carriage return |
| ConfigGuarantees.EditTwicePlain | internal/config/persist.go:88-140 | a file without carriage returns is unchanged by a second edit whenever the new line fits |
| ConfigGuarantees.ReturnsAreLost | internal/config/persist.go:88-140 | a comment that ends in two carriage returns loses one at each edit, so the second edit does not give the same file |
| ConfigGuarantees.LoneReturnIsLost | internal/config/persist.go:133-139 | the file team=1, newline, carriage return becomes the new line and a newline |
| ConfigGuarantees.ArrayLineIsTakenForHeader | internal/config/persist.go:85-87 | the new line is put before the line [1, 2] inside a top-level array that spans lines |

## Left out

- Hash functions: SHA-256 and double SHA-256 are parameters or absent; that the placeholder
  search ends is not modelled, the placeholder is a parameter with its shape (a capital T, then letters and digits).
- Floating point: widening, narrowing, writing and reading floats are function parameters
  with the properties they need stated (`WritesFloats`, `Faithful`, `Narrows`, `Separates`,
  `WritesNumbers`, `Stable`); the logarithm in the tree height is replaced by its meaning.
- Libraries: the CBOR serializer, the JSON decoder, base64, hex and the canonicalizer are
  small explicit models of RFC 8949 section 4.2.1, RFC 8259, RFC 4648 and RFC 8785; the
  canonicalizer's own source is not part of this model.  It is modelled as refusing
  repeated names, lone surrogates, strings that are not UTF-8 and numbers it cannot write.
- Depth limits: the JSON decoder's nesting limit and the machine's stack are not modelled.
- Error texts: errors carry their kind, and for refused subject data the path, but not
  their wording.
- Time and I/O: clocks, the network, files and the keychain appear as parameters of the
  steps; permissions of the written config file are not modelled.
- Base64: text in a base64 slot may be non-canonical when encoding, as in the program; the
  round trip then gives its canonical form.
- Paging.WalkPages: the collection is the same during one walk, so rows inserted or deleted
  between two requests are not modelled.
- OAuthRefresh.RestsInAgreement: no other client uses the session and no response is lost
  after the server has rotated a token; the retry of a request after a 401 is not modelled.
- Waterfall.Monitor.Update: stream subscriptions and the list cursor on the left side of
  the pane are not modelled.
- ConfigGuarantees.SectionsUntouched: says nothing of a section behind a header that the scan
  misses; SectionKept says exactly when such a section is kept.
- ConfigGuarantees.SectionKept: a header is any line that starts with a bracket; keys and
  values that span lines, where such a line may be no header, are not modelled.
- ConfigGuarantees.LookupNew: lookups know bare keys only, as the pattern does; quoted and
  dotted spellings of a key are other keys to the program.
- Everything else: commands, rendering, styling, forms, health checks, config loading,
  installation, upgrades and the lookups of outside services.
