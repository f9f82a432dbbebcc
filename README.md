# resip `ParserCategory` parameter store, modelled in Dafny

In the resiprocate SIP stack, every parsed header value (a URI, a name-addr,
a token, an auth challenge and so on) derives from `ParserCategory`. This
class owns the value's parameters in two ordered lists:

- **typed parameters** (`mParameters`): parameters whose name the parameter
  registry knows. Each has an enumerated tag (`ParameterTypes::Type`), and
  its value was decoded by the factory for that tag;
- **extension parameters** (`mUnknownParameters`): every other `;name=value`.
  Each keeps the name as written.

The class looks parameters up, creates them, replaces, removes and filters
them, parses a `;key[=value]` list from a byte cursor, writes the list back
out, and computes an order-independent XOR fingerprint of it. The parameter
syntax is the generic-param syntax of section 25 of RFC 3261.

The project has eight modules:

- `Wrappers`: `Option` and `Result`.
- `Bytes`: bytes, ASCII case folding and the terminator sets.
- `Seqs`: order-keeping filtering. Every erase-while-iterating loop is proved against it.
- `DataXor`: the byte-wise XOR of `Data` and folds over it.
- `Parameters`: the parameter datatypes, the collaborators kept abstract, and the pure list operations with their properties.
- `ParamParse`: the parameter parser as functions of a buffer and a position.
- `ParamEncode`: the encoder output and the hash as functions of the two lists.
- `Category`: the class `ParserCategory`. Its fields are the two lists (`seq`) and the header type. Its methods change these in place with the loops of the C++ code. The methods that search, erase, replace, parse, encode or hash are proved against the function in `Parameters`, `ParamParse` or `ParamEncode` that specifies them. The lifecycle methods and the creating accessors state the new lists directly.

The parameter registry (`ParameterTypes::getType`), the per-tag factories,
the value scanning of `UnknownParameter`, and each parameter's `encode` are
not part of this model. They are the fields of a `Codecs` value passed in:

- a factory builds a parameter of the tag it is given;
- a factory or scanner only moves the cursor forward, and never past the end
  of the buffer. The function subset types `Factory` and `ValueScanner`
  carry this contract.

## Model

| member | source | states |
|---|---|---|
| Category.ParserCategory.constructor | resip/stack/ParserCategory.cxx:29-42 | a new category has no parameters of either kind and the given header type |
| Category.ParserCategory.Copy | resip/stack/ParserCategory.cxx:44-52 | the copy has rhs's header type; it has copies of both lists, in order, exactly when rhs was parsed, and empty lists otherwise |
| Category.ParserCategory.Assign | resip/stack/ParserCategory.cxx:54-68 | self-assignment changes nothing; otherwise the old parameters are gone, the header type is rhs's, and both lists are copies of rhs's when rhs was parsed (empty otherwise) |
| Category.ParserCategory.Clear | resip/stack/ParserCategory.cxx:70-89 | both lists end up empty; the header type is kept |
| Category.ParserCategory.CopyParametersFrom | resip/stack/ParserCategory.cxx:91-104 | each list gains the other category's list appended in order; nothing already present is lost |
| Category.ParserCategory.GetParameterByEnum | resip/stack/ParserCategory.cxx:299-311 | the loop returns exactly `FindType`: the first index holding tag t, or none when no entry has it |
| Parameters.FindType | resip/stack/ParserCategory.cxx:299-311 | a found index holds tag t and no earlier index does; none is returned exactly when no entry has tag t |
| Category.ParserCategory.Exists | resip/stack/ParserCategory.cxx:137-143 | true exactly when some typed parameter has the tag |
| Category.ParserCategory.RemoveParameterByEnum | resip/stack/ParserCategory.cxx:335-352 | the erase loop leaves exactly `WithoutType(old list, t)`; the extension list and header type are unchanged |
| Parameters.WithoutType | resip/stack/ParserCategory.cxx:335-352 | an entry survives iff it was present and its tag is not t; afterwards a lookup of t finds nothing; the list never grows |
| Parameters.RemoveAbsentTypeIsNoop | resip/stack/ParserCategory.cxx:145-151 | removing a tag that is not present leaves the list identical |
| Parameters.RemoveTypeKeepsOrder | resip/stack/ParserCategory.cxx:339-351 | removal distributes over concatenation, so the survivors keep their relative order |
| Parameters.RemoveTypeSkipsInserted | resip/stack/ParserCategory.cxx:339-351 | inserting a parameter of tag t anywhere and then removing t gives the same list as removing t alone |
| Parameters.RemoveTypeKeepsUnique | resip/stack/ParserCategory.cxx:335-352 | if no tag occurred twice before a removal, none does after it |
| Seqs.FilterEraseStep | resip/stack/ParserCategory.cxx:171-183 | one step of an erase-while-iterating loop keeps "kept prefix = filter of examined prefix, rest = unexamined suffix" |
| Category.ParserCategory.RemoveParametersExcept | resip/stack/ParserCategory.cxx:167-184 | the loop leaves exactly `OnlyTypes(old list, allowed)`; the extension list is untouched |
| Parameters.OnlyTypes | resip/stack/ParserCategory.cxx:167-184 | an entry survives iff it was present and its tag is allowed; no tag outside the set can be found afterwards |
| Parameters.ExceptSingleton | resip/stack/ParserCategory.cxx:167-184 | filtering to {t}: t is present afterwards iff it was before, and no other tag is present |
| Parameters.ExceptKeepsOrder | resip/stack/ParserCategory.cxx:167-184 | filtering distributes over concatenation, so survivors keep their original order |
| Parameters.ExceptAllPresentIsNoop | resip/stack/ParserCategory.cxx:167-184 | when every tag present is allowed, the list is unchanged |
| Category.ParserCategory.SetParameter | resip/stack/ParserCategory.cxx:313-333 | the loop leaves exactly `SetParam(old list, p)`; the extension list is untouched |
| Parameters.SetParam | resip/stack/ParserCategory.cxx:313-333 | p ends up last; the length is the same when p's tag was present and grows by one (p appended) when it was not; membership of every parameter of another tag is unchanged |
| Parameters.SetParamKeepsOtherTags | resip/stack/ParserCategory.cxx:318-332 | apart from p's tag, the list after setParameter is the list before, in the same order |
| Parameters.SetParamKeepsUnique | resip/stack/ParserCategory.cxx:313-333 | on a list with one entry per tag at most, the invariant is kept and a lookup of p's tag then finds p, at the end |
| Parameters.UniqueAppend | resip/stack/ParserCategory.cxx:330-332 | appending a parameter whose tag is absent keeps the tags distinct, and a lookup of that tag finds it |
| Parameters.UniqueErase | resip/stack/ParserCategory.cxx:321-324 | erasing one entry of a list with distinct tags keeps them distinct and leaves no entry of the erased tag |
| Parameters.SetParamShadowedByDuplicate | resip/stack/ParserCategory.cxx:318-327 | on two parameters of one tag (which the parser can produce), setParameter deletes the first and keeps the second, giving [second, p]; a later lookup then finds the stale second one, not p |
| Category.ParserCategory.GetParameterByData | resip/stack/ParserCategory.cxx:354-366 | the loop returns exactly `FindName`: the first extension parameter whose name equals the key ignoring case |
| Parameters.FindName | resip/stack/ParserCategory.cxx:354-366 | a found index matches the key ignoring case and no earlier one does; none is returned exactly when nothing matches |
| Bytes.EqualNoCaseIsEquivalence | resip/stack/ParserCategory.cxx:360 | the case-insensitive comparison is reflexive, symmetric and transitive |
| Bytes.EqualNoCase | resip/stack/ParserCategory.cxx:360 | names equal ignoring case have the same length, and equal names are equal ignoring case |
| Bytes.EqualNoCaseForgivesOnlyLetterCase | resip/stack/ParserCategory.cxx:360 | only the case of ASCII letters is forgiven: every other byte of two names equal ignoring case matches exactly |
| Bytes.CaseDistinguishesOnlyExactEquality | resip/stack/ParserCategory.cxx:375 | "MSGR" and "msgr" are equal ignoring case but differ exactly, so the requires of RemoveByNameMissesOtherCase can be met |
| Category.ParserCategory.ExistsExtension | resip/stack/ParserCategory.cxx:160-165 | true exactly when some extension parameter's name matches ignoring case |
| Category.ParserCategory.RemoveParameterByData | resip/stack/ParserCategory.cxx:368-385 | the loop leaves exactly `WithoutName(old list, key)`; the typed list is untouched |
| Parameters.WithoutName | resip/stack/ParserCategory.cxx:368-385 | an entry survives iff it was present and its name is not exactly the key (case-sensitive); the list never grows |
| Parameters.RemoveNameKeepsOrder | resip/stack/ParserCategory.cxx:372-384 | removal by name distributes over concatenation, so the survivors keep their relative order and their number of occurrences |
| Parameters.RemoveAbsentNameIsNoop | resip/stack/ParserCategory.cxx:368-385 | removing a name no entry has exactly leaves the list identical |
| Parameters.RemoveByNameMissesOtherCase | resip/stack/ParserCategory.cxx:354-385 | an entry whose name differs from the key only in case survives removal and is still found by lookup |
| Category.ParserCategory.ParamExtensionConst | resip/stack/ParserCategory.cxx:111-122 | fails with MissingParameter(name) exactly when no name matches; otherwise gives the value of the first entry whose name matches ignoring case |
| Category.ParserCategory.ParamExtension | resip/stack/ParserCategory.cxx:124-135 | returns the index of the first match; when there was none, exactly one empty-valued entry with that name is appended and returned; afterwards `exists` holds; the typed list is untouched |
| Parameters.AppendedNameIsFound | resip/stack/ParserCategory.cxx:128-133 | a name appended because lookup missed it is found at the new last index |
| Category.ParserCategory.ParamQop | resip/stack/ParserCategory.cxx:389-403 | returns the first qop parameter; when there is none, appends exactly one empty qop parameter marked quoted and returns it; afterwards qop exists |
| Parameters.AppendedTypeIsFound | resip/stack/ParserCategory.cxx:396-401 | a tag appended because lookup missed it is found at the new last index |
| Category.ParserCategory.ParamQopConst | resip/stack/ParserCategory.cxx:405-418 | fails with MissingParameter("qop") exactly when no qop parameter exists; otherwise gives the value of the first qop parameter |
| Category.ParserCategory.ErrorContext | resip/stack/ParserCategory.cxx:452-464 | "Request/Status line" for a start line, the header's name otherwise |
| Category.ParserCategory.ParseParameters | resip/stack/ParserCategory.cxx:186-222 | the loop appends exactly the run's typed and extension parameters to the two lists and leaves the cursor at the run's end |
| Category.ParserCategory.ParseOneParameter | resip/stack/ParserCategory.cxx:191-220 | one iteration stops (nothing changed) exactly when ParseStep stops; otherwise it appends exactly the item ParseStep reads and moves to its end |
| ParamParse.SkipWhitespace | resip/stack/ParserCategory.cxx:192 | stays in the buffer and lands on a non-whitespace byte or the end |
| ParamParse.SkipWhitespaceSkipsOnlyWhitespace | resip/stack/ParserCategory.cxx:192 | every byte passed over is whitespace |
| ParamParse.SkipToOneOf | resip/stack/ParserCategory.cxx:199 | stays in the buffer and lands on a terminator or the end |
| ParamParse.SkipToOneOfSkipsNoTerminator | resip/stack/ParserCategory.cxx:199 | no byte passed over is a terminator |
| ParamParse.KeyHasNoTerminator | resip/stack/ParserCategory.cxx:197-199 | the key holds none of ` \t\r\n;=?>` and ends at one of them or at the end of the buffer |
| ParamParse.ParseStep | resip/stack/ParserCategory.cxx:191-220 | an iteration stops exactly when the next non-whitespace byte is not `;`; otherwise it moves strictly past the `;` and the key, never past the end |
| ParamParse.ParseStepItem | resip/stack/ParserCategory.cxx:201-214 | an empty key reads nothing; a non-empty key reads exactly one parameter: typed, with the registry's tag, when the registry knows the key, and an extension parameter named by the key when it returns Unknown |
| ParamParse.ParseRun | resip/stack/ParserCategory.cxx:189-222 | the loop ends within the buffer, at or after its start; input that does not begin with `;` (after whitespace) leaves the position where the iteration began and adds nothing |
| ParamParse.ParseRunStopsBeforeNonSeparator | resip/stack/ParserCategory.cxx:216-220 | where the loop stops, the next non-whitespace byte is not `;` |
| ParamParse.ParseRunSortsByRegistry | resip/stack/ParserCategory.cxx:203-213 | every typed parameter added has a registry tag (never Unknown); every extension parameter added has a non-empty name the registry does not know |
| ParamParse.ParseRunBoundedBySeparators | resip/stack/ParserCategory.cxx:194-215 | the parser adds no more parameters than there are `;` in the text it consumed |
| ParamParse.EmptyKeyAddsNothing | resip/stack/ParserCategory.cxx:201 | a `;` with an empty key adds nothing and parsing continues after it |
| Category.ParserCategory.EncodeParameters | resip/stack/ParserCategory.cxx:226-290 | both loops together produce exactly `Encoding` of the two lists |
| ParamEncode.TypedPieces | resip/stack/ParserCategory.cxx:272-280 | the typed pass without the space: at least one byte per parameter, and it begins with `;` when there is a parameter |
| ParamEncode.UnknownPieces | resip/stack/ParserCategory.cxx:283-288 | the extension pass: at least one byte per parameter, and it begins with `;` when there is a parameter |
| ParamEncode.TypedPass | resip/stack/ParserCategory.cxx:272-280 | the typed pass is the pieces plus at most one byte (the space, only when spaced and non-empty), and begins with `;` when there is a parameter |
| ParamEncode.Encoding | resip/stack/ParserCategory.cxx:271-288 | an empty store encodes to the empty string |
| ParamEncode.EncodingShape | resip/stack/ParserCategory.cxx:272-280 | with typed parameters, the output is `;`, then one space exactly when an extension named msgr (any case) exists, then the first typed encoding, then the other typed pieces, then the extension pass |
| ParamEncode.EncodingNoTyped | resip/stack/ParserCategory.cxx:283-288 | with no typed parameters, the output is the extension pass alone, with no space even when msgr is present |
| ParamEncode.TypedPiecesFirst | resip/stack/ParserCategory.cxx:272-280 | the typed pass begins with `;` and the first parameter's encoding |
| ParamEncode.TypedPiecesConcat | resip/stack/ParserCategory.cxx:230-282 | the typed pass writes the parameters in list order, each as `;` and its encoding |
| ParamEncode.UnknownPiecesConcat | resip/stack/ParserCategory.cxx:283-288 | the extension pass writes the parameters in list order, each as `;` and its encoding |
| ParamEncode.TypedPassStep | resip/stack/ParserCategory.cxx:272-280 | each typed parameter adds `;`, the space only for the first one when msgr is present, and its encoding |
| Category.ParserCategory.CommutativeParameterHash | resip/stack/ParserCategory.cxx:421-450 | both loops together produce exactly `Hash` of the two lists |
| ParamEncode.TypedHashPiece | resip/stack/ParserCategory.cxx:429-436 | an lr parameter contributes nothing; any other typed parameter contributes exactly its encoding |
| ParamEncode.UnknownHashPiece | resip/stack/ParserCategory.cxx:443-446 | an extension parameter contributes its name immediately followed by its value, with nothing between them |
| ParamEncode.Hash | resip/stack/ParserCategory.cxx:421-450 | an empty store hashes to the empty buffer |
| ParamEncode.OnlyLrHashesEmpty | resip/stack/ParserCategory.cxx:427-438 | a store whose only parameters are lr parameters hashes to the empty buffer |
| ParamEncode.HashIsCommutative | resip/stack/ParserCategory.cxx:421-450 | reordering either list (any permutation) leaves the hash unchanged |
| ParamEncode.HashIgnoresLr | resip/stack/ParserCategory.cxx:429 | removing every lr parameter leaves the hash unchanged |
| ParamEncode.TypedFoldIgnoresLr | resip/stack/ParserCategory.cxx:427-438 | the typed half of the hash is the same with or without the lr parameters |
| ParamEncode.AddingLrKeepsHash | resip/stack/ParserCategory.cxx:427-438 | inserting an lr parameter anywhere leaves the hash unchanged |
| DataXor.Xor | resip/stack/ParserCategory.cxx:436 | the result is as long as the longer operand and each byte is the XOR of the operands' bytes (zero past an operand's end) |
| DataXor.XorCommutative | resip/stack/ParserCategory.cxx:436 | the XOR of two buffers does not depend on their order |
| DataXor.XorAssociative | resip/stack/ParserCategory.cxx:446 | the XOR of three buffers does not depend on grouping |
| DataXor.XorEmpty | resip/stack/ParserCategory.cxx:436 | XOR with the empty buffer is the identity |
| DataXor.XorSelf | resip/stack/ParserCategory.cxx:446 | a buffer XORed with itself gives zero bytes of its length: a contribution present twice cancels only up to trailing zeros, so the hash still records the longest such contribution's length |
| DataXor.XorFoldPermutation | resip/stack/ParserCategory.cxx:427-447 | folding XOR over two lists with the same multiset of elements gives the same result |
| DataXor.XorFoldRemove | resip/stack/ParserCategory.cxx:427-447 | an element can be taken out of any position of the fold and XORed in last |

## Left out

- `LazyParser` is not part of this model: `checkParsed`/`isParsed`, and the deferred parse they trigger. The copy constructor and `Assign` take the other category's parse state as a `rhsParsed` argument. The other accessors assume it is parsed.
- Logging (`InfoLog`/`DebugLog`) is not modelled. The strict accessors return `Failure(MissingParameter(...))` where the code throws.
- The `#if 0` branch of `encodeParameters` is dead code and is not modelled. Only the live branch is.
- `ParseBuffer` is a byte sequence plus a position. Its `reset(start)` is returning the iteration's start position. Its error reporting is not part of this model.
- The following are abstract fields of `Codecs`, not modelled further: `ParameterTypes::getType`, `ParameterFactories`, the value scanning of `UnknownParameter`, and each parameter's `encode`. Their contracts are only that factories give the requested tag and that cursors move forward within the buffer. Because the encoders are abstract, the parse-then-encode round trip is not stated.
- The value terminators ` \t\r\n;?>` are only the set passed to the abstract factory and scanner. The model does not promise where a value ends, beyond the cursor moving forward within the buffer.
- The factories and the value scanner are modelled as never failing. In the code their calls are unguarded, so an exception they throw would leave `parseParameters` with the parameters read so far already appended. The model has no such path.
- `isEqualNoCase` is not part of this model. `Bytes.EqualNoCase` assumes it compares equal lengths byte by byte after ASCII-only lower-casing.
- The registry's case-insensitive matching of known names belongs to `getType` and is not modelled.
- `Data::operator^=` is not part of this model. XOR is defined as byte-wise over the longer length, with missing bytes treated as zero. Its commutativity and associativity are proved for that definition.
- The accessors generated from `ParserCategory.cxx.ixx` are not part of this model. Only the hand-written qop accessors are.
- `Headers::getHeaderName` is not part of this model. `HeaderType` carries the header's name directly.
- Memory management (`delete`, `clone`) and the `ostream`/`DataStream` plumbing are not modelled. Lists are value sequences, and a clone is a value copy, so aliasing between categories cannot arise.
- The non-const accessors return the index of the parameter instead of a reference to its value. Later writes through that reference are not modelled.
- `parseParameters` termination needs no fuel: every iteration that continues moves the cursor strictly forward.
- Encoding: the code tests for the msgr extension only in the typed pass, so the extra space can appear at most once, before the first typed parameter. The model follows the code. The code's `msgr` lookup also ignores case, and the model follows that too.
