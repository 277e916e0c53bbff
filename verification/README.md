# Verification of the provider adapter SDK core

This project models the decision-making core of the provider adapter SDK in Dafny and proves what the SDK promises about it:

- **Numbers** (`Decimal`, `Numbers`, `Exactness`, `Notation`). JSON number texts, the rational values they spell, and the canonical
  spelling that is hashed. Values are reals; a power of ten is a move of the decimal point (`Shift`). The rewriter works
  on characters and in 64-bit arithmetic, as the Go code does.
- **Trees** (`JsonTree`). Decoded values, `parameterEqual`, and the canonical tree. `Meaning` replaces every number text
  by the rational it spells and is the reference both notions of equality are compared with.
- **Reading** (`Grammar`, `Decoder`, `Reader`, `Acceptance`). The token decoder of `encoding/json` as a class with a
  cursor, a state and a stack; the bounded recursive reader on top of it; and the RFC 8259 grammar as syntax trees.
- **Writing and hashing** (`Encoder`, `Lexing`, `Rendering`, `Digests`, `Storage`, `Discovery`). The sorted, escaped text
  of a tree down to characters, a lexer written from RFC 8259 that reads it back, the text that is hashed for a dispatch,
  what storing the numbers of a request in plain decimal notation does to it, and the text that is hashed for a discovery
  request.
- **Ceilings and rules** (`Outcomes`, `Limits`, `Ceilings`, `Kinds`, `Satisfiability`, `Rules`, `Authorizations`,
  `Forms`). Validation and matching of parameter limits, which valid limits any message can satisfy, selectors, the
  intersection of the ceilings of all applicable rules, and the forms of the texts that guards ask for.
- **Replay protection** (`Replay`). `authenticate` with its evicting nonce cache, as a class and over whole runs.
- **Exact revalidation** (`Discovery`). Requests, and pages that must partition the requested identities.

Loops and objects that Go updates are methods and classes; each is proved equal to a function or predicate, and the
theorems are lemmas about those. Clock readings and hash functions are parameters; a time that is hashed carries the text
it is written as. A Go call that may panic returns `Ran(result)` or `Panicked`. Maps are visited in an arbitrary order;
where the order decides how a call ends, the specification is the set of all endings (`CanEnd`, `CanValidate`, `CanMatch`,
and for lists of rules `CanBeWithin` and `CanValidateRules`).

## What the proofs bring out

- The rewriter ignores the error of `strconv.Atoi`, which saturates. A canonical text has the same value if and only if
  the significand is zero or the exponents stay within 64 bits (`CanonicalExact`); beyond that, different values receive
  one text (`SaturationMergesValues`). Every number the bounded reader accepts is on the safe side (`AcceptedBounds`).
- The comment above `canonicalDiscoveryNumbers` promises that the decimal spelling chosen by PostgreSQL JSONB cannot
  change the identity of a request. Written in plain decimal notation and within 64 KiB, an accepted request is accepted
  again if and only if every number then has at most 128 characters, a length given by a formula on the accepted text,
  and both a dispatch and a discovery request are then hashed as the same text (`StoredKeepsHash`,
  `StoredKeepsRequestDigest`). `1e128` is accepted but has 129 digits (`PlainMayBeRefused`).
- The canonical text itself is only hashed and never read back. It need not be acceptable: `10e128` becomes `1e129`
  (`ExponentMayGrow`), and a text of 128 characters with a decimal point can become longer because the exponent is written
  out (`LengthMayGrow`). It is accepted exactly when the trimmed digits and their exponent leave room
  (`CanonicalAcceptedIff`, and `CanonicalRoundTrip` for trees).
- The comment in `compareNumber` says that its arguments were validated. Validation decodes a bound, which skips
  blanks, while `big.Rat` does not: a bound such as `" 0 "`, put in place by Go code, passes the decoder, and comparing
  with it panics. Validation of a field panics exactly when a padded bound meets the other bound or a first allowed value
  of the type (`CheckFieldExact`). A ceiling that passes validation panics on some message if and only if some bound is
  padded (`ValidatedPanicsIffPadded`), and such ceilings exist (`PaddedBoundPassesValidation`). Bounds decoded from JSON
  are never padded, and then there is one result, whatever the order of the fields (`UnpaddedMatches`).
- A ceiling that passes validation need not be satisfiable. Some message is accepted if and only if every required field
  has bounds without blanks and, when it lists allowed values, one that is nested less than the full depth of 16
  (`SatisfiableIff`). A required array whose only allowed value has depth 16 passes validation, but as a member of a
  message it lies one level deeper and is refused (`DeepRequiredNeverAccepted`); a required field with a padded minimum is
  refused when absent and panics when present (`PaddedRequiredNeverAccepted`).
- Tightening a ceiling admits nothing new, except that a message on whose padded bound the ceiling before panicked may be
  accepted once the bound has lost its blanks (`TighteningMatchesNothingNew`, `TighteningMayEndPanics`).
- Replayed nonces are said to fail closed. Nonces are kept for three minutes but the time window spans four, so a request
  signed more than a minute ahead of the server clock can be accepted twice, and no other can. When calls may wait up to
  `w` for the lock, the minute shrinks by `w`: an accepted call has a continuation that accepts its request again exactly
  then (`SingleAcceptance`, `ReplayPossibleIff`).

## Model

| member | source | states |
|---|---|---|
| Numbers.TakeApart | discovery.go:113-127 | Stripping sign, exponent and decimal point leaves all digits and the exponent that belongs to them. |
| Numbers.TakeExponent | discovery.go:119-123 | Cutting at the exponent mark leaves the text before it and the saturated exponent, the error ignored. |
| Numbers.TakePoint | discovery.go:124-127 | Removing the decimal point joins the digits and lowers the exponent by the number of places. |
| Numbers.CanonicalNumber | discovery.go:112-138 | The step-by-step rewriting of a number text yields the specified canonical text, which is itself a JSON number. |
| Exactness.ValueIsTrimmed | discovery.go:120-134 | Folding the decimal point into the exponent and trimming zeros at both ends keeps the exact rational value. |
| Exactness.MachineExponentIsTrue | discovery.go:119-133 | The 64-bit exponent equals the true one if and only if the exponent text and the final exponent fit 64 bits. |
| Exactness.CanonicalExact | discovery.go:112-138 | The canonical text has the same value as the text if and only if the text is a zero or its exponents fit. |
| Exactness.SameValueIffSameCanonical | discovery.go:108-138 | Two fitting texts have equal values if and only if their canonical texts are identical. |
| Exactness.CanonicalIdempotent | discovery.go:112-138 | Rewriting a canonical text changes nothing. |
| Exactness.IntegerIffCanonicalExponent | constraints.go:246-252 | The value is an integer if and only if the canonical text has no negative exponent. |
| Exactness.AcceptedBounds | constraints.go:329-338 | A number the reader accepts fits; its canonical exponent lies in -249..251 and its digits number at most 128. |
| Exactness.CanonicalAcceptedIff | discovery.go:112-138 | The canonical text of an accepted number is accepted if and only if the trimmed digits and their exponent leave room. |
| Exactness.SaturationMergesValues | discovery.go:121 | Beyond 64 bits two different values share one canonical text. |
| Exactness.CompareIsByValue | constraints.go:263-267 | Comparing the cross-multiplied integer numerators of two texts is comparing their exact rational values. |
| Exactness.CompareIsTotalOrder | constraints.go:263-267 | The comparison is antisymmetric and transitive, and on fitting texts it ties exactly when the canonical texts are identical. |
| Notation.WholeValue | constraints.go:263-267 | Digits have the value they spell. |
| Notation.PointValue | constraints.go:263-267 | Moving the decimal point behind the last digit gives the number that all digits spell. |
| Notation.MinusValue | discovery.go:115-118 | A minus sign negates the value, and is written in front of the canonical text unless the value is zero. |
| Notation.ExponentSigns | discovery.go:119-121 | A plus sign before an exponent changes neither value, comparison nor canonical text; an exponent moves the point of the significand as many places as its digits say, after a minus sign the other way. |
| Notation.AcceptedForms | constraints.go:329-338 | Every number of at most 128 characters is accepted whose exponent, with either sign, is at most 128, and no other. |
| JsonTree.CanonicalDiscoveryNumbers | discovery.go:110-149 | The rewriting in place, by the kind of the value, yields the canonical tree. |
| JsonTree.RewriteMembers | discovery.go:139-142 | Overwriting the members one by one yields the canonical members, for every order of members. |
| JsonTree.RewriteElements | discovery.go:143-146 | Overwriting the elements in sequence yields the canonical elements. |
| JsonTree.ParameterEqualIsSameMeaning | constraints.go:269-300 | `parameterEqual` holds exactly when both trees stand for the same value. |
| JsonTree.ParameterEqualIsEquivalence | constraints.go:269-300 | `parameterEqual` is reflexive, symmetric and transitive on all trees, numbers being compared exactly. |
| JsonTree.ParameterEqualIffSameCanon | discovery.go:110-149 | On trees whose numbers fit, `parameterEqual` is identity of canonical trees. |
| JsonTree.CanonKeepsMeaningIffFits | discovery.go:108-149 | The canonical tree stands for the same value if and only if every number in the tree fits. |
| JsonTree.CanonIdempotent | discovery.go:110-149 | A canonical tree is its own canonical tree. |
| Grammar.FlattenInjective | constraints.go:342-385 | The lexemes of a value are self-delimiting and determine its syntax tree. |
| Decoder.Decoder.Token | constraints.go:324-327 | One call of the token decoder, separators included, is the specified state transition. |
| Decoder.Decoder.More | constraints.go:346-371 | Reports whether another element comes before the end of the container. |
| Reader.NumberWithinBounds | constraints.go:329-338 | Accepts exactly the numbers of at most 128 characters with an exponent within 128 of zero. |
| Reader.ReadParameterValue | constraints.go:320-388 | Reading one value through the decoder agrees with the grammar-directed reader and leaves the decoder ready for what follows. |
| Reader.ReadMember | constraints.go:346-362 | One round over members: a new key, a colon and a value, or the whole object is refused. |
| Reader.ReadObject | constraints.go:344-368 | The loop over members collects them in a map and refuses a repeated key. |
| Reader.ReadArray | constraints.go:369-382 | The loop over elements appends them in order. |
| Reader.DecodeParameterJSON | constraints.go:304-318 | One value within the size bounds and nothing after it. |
| Acceptance.ReadComplete | constraints.go:320-388 | Every well-formed text is read, with whatever follows it left over. |
| Acceptance.ReadSound | constraints.go:320-388 | Whatever is read is the text of a well-formed syntax tree that denotes the result. |
| Acceptance.DecodeExact | constraints.go:302-388 | A message decodes to a tree exactly when its lexemes write that tree down, keys distinct, depth at most 16, numbers in bounds. |
| Encoder.AscendingUnique | discovery.go:99 | A set of keys has one ascending order, so the printed order is determined. |
| Encoder.BelowIff | discovery.go:99 | A key comes before another if it is a proper prefix of it or has the smaller character where they first differ. |
| Encoder.PrintedInOrder | discovery.go:99 | The members of an object are printed in this order of their keys. |
| Encoder.PrintedDenotes | discovery.go:99 | The printed text denotes the tree it was printed from. |
| Encoder.MarshalInjective | outbound.go:95 | Different trees are printed as different lexemes. |
| Rendering.WrittenInjective | outbound.go:95 | The characters written for a text determine its syntax tree, escapes and adjacent numbers included. |
| Lexing.NumberIffCompletes | constraints.go:324-338 | The number texts of the model are those that the grammar of RFC 8259, section 6, accepts character by character. |
| Rendering.LexWritten | outbound.go:95 | A lexer written from RFC 8259 reads the characters written for a text as exactly its lexemes. |
| Rendering.EscapeShape | outbound.go:95 | Characters are written as themselves, as two characters, or with six, in lower case, for the other control characters, `<`, `>`, `&` and the two line separators. |
| Digests.DecodedReadable | constraints.go:302-388 | A decoded tree keeps the depth and number bounds, and all its numbers fit the rewriter. |
| Digests.MarshalRoundTrip | discovery.go:98-99 | Reading the printed text of a tree gives it back if and only if the tree keeps the bounds of the reader. |
| Digests.CanonTreeAcceptedIff | discovery.go:110-149 | The canonical tree of an accepted tree is accepted if and only if every number leaves room for its canonical spelling. |
| Digests.CanonicalRoundTrip | discovery.go:98-109 | A decoded tree, printed canonically, reads back if and only if every decoded number leaves room for its canonical spelling. |
| Digests.ExponentMayGrow | discovery.go:130-137 | The accepted text 10e128 has a canonical text whose exponent the reader refuses. |
| Digests.LengthMayGrow | discovery.go:124-137 | An accepted text with a small exponent has a canonical text of more than 128 characters. |
| Storage.PlainExact | discovery.go:108-109 | Writing a number in plain decimal notation keeps its exact value. |
| Storage.PlainAcceptedIff | constraints.go:329-338 | The plain spelling is accepted if and only if its length, a formula on the original text, is at most 128. |
| Storage.PlainKeepsCanonical | discovery.go:108-138 | The plain spelling of a fitting number has the same canonical text. |
| Storage.StoredKeepsHash | discovery.go:98-109 | An accepted request stored with plain numbers, its members in any order, is accepted again if and only if they are short enough, and is then hashed alike. |
| Storage.PlainMayBeRefused | discovery.go:108-109 | The accepted text 1e128 is refused when written out. |
| Digests.SameTextIffParameterEqual | outbound.go:84-100 | Two accepted requests are hashed as the same characters if and only if they are `parameterEqual`. |
| Digests.DigestIdentifiesValue | outbound.go:87-101 | A digest exists exactly for what decodes; equal values share it, and different values share it only by a hash collision. |
| Digests.HashedTextDenotes | outbound.go:87-99 | What is hashed for an accepted request is a JSON text, and the text denotes the canonical tree of the request. |
| Digests.OtherPhases | outbound.go:88-90 | Every other phase has the legacy digest. |
| Limits.ValidateField | constraints.go:147-184 | The checks of one field, in order, with the panic of an unparsable bound. |
| Limits.CheckFieldExact | constraints.go:147-184 | For every field: the check panics exactly when a good padded bound meets the other bound or a first allowed value of the type, and else decides whether the field is good. |
| Limits.MatchesField | constraints.go:209-225 | The checks of one supplied value, with the scan over allowed values. |
| Limits.InRangeExact | constraints.go:230-236 | With good bounds, the range check panics exactly when it compares with a padded bound, and else decides inclusion in the exact inclusive range. |
| Limits.MatchFieldExact | constraints.go:209-225 | For a good field: matching panics exactly when a value of the type is compared with a padded bound, and else means right type, in range, and equal in meaning to some allowed value when any are listed. |
| Kinds.KindIsConstructor | constraints.go:238-261 | A ceiling of one bare field accepts exactly the messages whose member was decoded as its kind; an integer is a number with an integral value. |
| Kinds.ListedKinds | constraints.go:174-184 | Objects and arrays need a listed value of their kind and accept exactly what has its meaning. |
| Kinds.KindsPartition | constraints.go:238-261 | A null is of no kind, and everything else is of exactly one of five, numbers sometimes also an integer. |
| Kinds.OnlyKinds | constraints.go:151-155 | A field of any other kind is refused. |
| Kinds.KeyBounds | constraints.go:148-150 | A key has 1 to 256 bytes. |
| Kinds.ListBounds | constraints.go:148-173 | A list has 1 to 64 values. |
| Outcomes.CanEndIff | constraints.go:147-184 | A loop over a map passes exactly when every round passes, and any round that ends the call can be the one that ends it. |
| Limits.ParameterLimits.Validate | constraints.go:143-186 | Ends as some visiting order of the fields would end it. |
| Limits.ValidateExact | constraints.go:143-186 | Validation can accept exactly when every field is good and none panics, and can refuse or panic exactly when some field is refused or panics, in whatever order fields are visited. |
| Limits.ParameterLimits.Matches | constraints.go:188-228 | Ends as some visiting orders would end it; a result says whether the declared meaning of the ceiling admits the message. |
| Limits.MatchesDecides | constraints.go:188-228 | Every result matching can have says whether the ceiling admits the message: closed object, required fields, types, ranges, lists. |
| Limits.MatchesPanicsIff | constraints.go:188-228 | Matching can panic exactly when validation can, or when a closed message supplies a value that is compared with a padded bound. |
| Limits.MatchesAcceptsIff | constraints.go:188-228 | Matching can accept exactly the admitted messages on which it cannot panic. |
| Limits.UnpaddedMatches | constraints.go:188-228 | Without padded bounds matching has one possible ending, whatever the orders: whether the ceiling admits the message. |
| Satisfiability.SatisfiableIff | constraints.go:143-228 | A ceiling that can pass validation can accept some message if and only if every required field is unpadded and, when it lists values, lists one that can stand a level deeper. |
| Satisfiability.TreeSatisfiableIff | constraints.go:193-228 | Apart from the bounds on messages, it can accept some decoded tree if and only if every required field is unpadded. |
| Satisfiability.ReachableIff | constraints.go:209-225 | A good field accepts some value that can stand in a message if and only if it lists no values or one nested less than the full depth. |
| Satisfiability.PaddedRequiredNeverAccepted | constraints.go:158-225 | Some ceiling with a required padded field passes validation and accepts no message. |
| Satisfiability.DeepRequiredNeverAccepted | constraints.go:176-225 | Some unpadded ceiling with a required value of depth 16 passes validation and accepts no message. |
| Satisfiability.DepthAndSizeBounds | constraints.go:302-323 | Values nested 16 deep are read and deeper ones refused; messages have 1 to 65536 bytes. |
| Ceilings.ValidLimitsSatisfiable | constraints.go:97-110 | The declared meaning of every good ceiling, without panics and the bounds on messages, accepts some object tree. |
| Ceilings.TighteningAdmitsNothingNew | constraints.go:97-110 | By the declared meaning, moving bounds inwards, shortening or introducing a list, requiring a field or dropping an optional one never admits more. |
| Ceilings.AdmittedMatches | constraints.go:188-228 | On an admitted message a valid ceiling has one possible ending: it panics if a supplied field is padded, and else accepts. |
| Ceilings.TighteningMatchesNothingNew | constraints.go:188-228 | What a tightened ceiling accepts, a valid ceiling before accepted, or panicked on exactly when a supplied field was padded; it never refused it. |
| Ceilings.TighteningMayEndPanics | constraints.go:188-267 | Removing the blanks of a bound tightens a ceiling and can turn a panic into acceptance. |
| Ceilings.EqualParametersSameAdmission | constraints.go:188-228 | Parameters that are `parameterEqual`, and so are hashed alike, are admitted by the same ceilings. |
| Ceilings.EqualParametersSameEndings | constraints.go:188-228 | Matching can end on them in the same ways, panics included. |
| Ceilings.CheckedFieldPanicsIffPadded | constraints.go:230-267 | A good field whose check does not panic panics on some value if and only if a bound carries blanks. |
| Ceilings.ValidatedPanicsIffPadded | constraints.go:188-267 | A ceiling that can pass validation can panic on some message if and only if some bound carries blanks. |
| Ceilings.PaddedBoundPassesValidation | constraints.go:158-165 | Some ceiling with a padded bound passes validation. |
| Rules.ValidateCapabilitySelection | capability_selection.go:24-42 | Accepts absence, or 1 to 64 valid identities without a repeated reference. |
| Forms.SelectorForm | capability_selection.go:17-22 | A selector is valid if its reference is one lower-case letter or digit and up to 127 more characters of an alphabet, and its digest `sha256:` and 64 lower-case hexadecimal digits. |
| Rules.LookupIsScan | capability_selection.go:27-62 | A list with distinct references is a partial function: being listed is being looked up. |
| Rules.MatchesCapabilities | capability_selection.go:44-62 | The scan agrees with lookup of the reference in the selection. |
| Rules.ValidateResourceSelection | constraints.go:60-74 | Accepts absence, or nonempty, well-formed, distinct identities without prefixes. |
| Forms.ResourceIDForm | constraints.go:68 | An exact identity is nonempty, left alone by trimming, and without NUL, CR and LF. |
| Forms.TrimSpaceDecides | constraints.go:68 | A text is blank if trimming leaves nothing, and trimmed if trimming leaves it alone. |
| Rules.MatchesResources | constraints.go:76-95 | Byte-exact membership when identities are given, else some prefix, else everything. |
| Rules.MatchesAuthorizationRule | capability_selection.go:64-72 | All selectors of the rule match. |
| Rules.CheckRule | constraints.go:129-139 | One rule ends as its selection decides, and as its ceiling can end if it applies. |
| Rules.CheckRuleExact | constraints.go:129-139 | It can pass exactly when it permits and its ceiling cannot panic, and can panic exactly when it applies and its ceiling can. |
| Rules.ParametersWithinCapabilityRules | constraints.go:125-141 | Ends at the first rule that does not pass; a result says that no rule has a malformed selection and every applicable ceiling admits the parameters. |
| Rules.WithinExact | constraints.go:125-141 | The loop can pass exactly when every rule passes, and can panic exactly at an applicable ceiling that panics and that only passing rules precede. |
| Rules.ParametersWithinRules | constraints.go:112-123 | Refuses when some rule selects capabilities, and else ends as the loop can end for any capability whatever. |
| Rules.RulesIntersect | constraints.go:125-141 | On a concatenation the results are conjoined; order and repetition are irrelevant. This holds of any condition per rule: that the loop computes one is ParametersWithinCapabilityRules. |
| Authorizations.ValidateRule | protocol.go:147-178 | One rule ends as the checks before its ceiling, the ceiling, and the checks after it can end, in this order. |
| Authorizations.ValidateRuleExact | protocol.go:147-178 | It can pass exactly when it is good, its identifier is new and its ceiling cannot panic; it can panic exactly when the checks before the ceiling pass and validating that can panic. |
| Authorizations.ValidateRules | protocol.go:146-179 | The loop over rules ends at the first rule that does not pass, given the identifiers before it. |
| Authorizations.EffectsAre | protocol.go:154-173 | A rule with nothing else in it is good with exactly five effects, and with a ceiling with exactly two. |
| Authorizations.ValidateRulesExact | protocol.go:146-179 | It can pass exactly when all rules are good with distinct identifiers and none panics, and can panic exactly at a panicking rule that only passing rules precede. |
| Authorizations.Validate | protocol.go:126-181 | Ends as some order of fields would end it; a result says whether identity, scope and rules are good and identifiers distinct. |
| Authorizations.ValidateAuthorizationExact | protocol.go:126-181 | It can pass exactly when identity and rules pass, and can panic exactly when the identity is good and the rules panic. |
| Authorizations.WithinIsEveryApplicableCeiling | constraints.go:125-141 | For a valid authorization and capability, the result is that every ceiling of an applicable rule accepts the parameters. |
| Authorizations.EqualParametersSameDecision | constraints.go:125-141 | Neither the decision over a list of rules nor the ways it can end depend on the spelling of the parameters. |
| Authorizations.ValidateAuthorizationFeatures | constraints.go:22-31 | Accepts exactly known features without repetition. |
| Authorizations.CheckAuthorizationSupport | constraints.go:35-58 | Ends as validation can end, and else accepts exactly when the features are good and every constraint used anywhere is declared. |
| Authorizations.SupportedByName | constraints.go:42-56 | Each kind of constraint used anywhere needs its feature, by its name. |
| Replay.MessageInjective | protocol.go:412-420 | Without line feeds in the headers, a signed message stands for one timestamp, nonce and body. |
| Replay.OneSignature | protocol.go:422-430 | Of requests that differ only in their signature at most one is verified, at any times. |
| Replay.SignatureBinds | protocol.go:412-430 | Verified requests with one signature are the same request, unless two different messages collide under the keyed hash. |
| Replay.VerifiedInterval | protocol.go:422-430 | A properly signed request is verified from two minutes before to two minutes after its signing time, both included, in nanoseconds. |
| Replay.VerifiedIsComplete | protocol.go:422-430 | Without a readable time or with a blank nonce nothing is verified. |
| Replay.HTTPHandler.constructor | http.go:160-162 | A new handler has an empty cache that agrees with the empty history. |
| Replay.HTTPHandler.Authenticate | http.go:231-253 | Accepts exactly a verified request whose nonce was not accepted within the last three minutes of the complete history, and keeps cache and history in agreement. |
| Replay.HTTPHandler.EnterNonce | http.go:240-252 | The section under the lock: evict, refuse a kept nonce, else record it; the invariant is kept. |
| Replay.HTTPHandler.EvictOld | http.go:242-247 | Deletes exactly the entries recorded before the cutoff. |
| Replay.SectionRefines | http.go:240-252 | One locked section decides as if nothing had ever been forgotten and keeps the invariant. |
| Replay.RunRefines | http.go:240-252 | After every run the cache holds exactly the nonces accepted since the cutoff, and equal nonces are more than three minutes apart. |
| Replay.OutcomesAgree | http.go:240-252 | Every call of every run is decided as the unbounded history would decide it. |
| Replay.AcceptancesApart | http.go:240-252 | A nonce is accepted again only when its record is more than three minutes old. |
| Replay.ReplayBound | http.go:231-253 | A request accepted twice was signed more than a minute, less the wait for the lock, ahead of its first record. |
| Replay.SingleAcceptance | http.go:236-252 | If no call waits longer than w for the lock, a request signed at most a minute less w ahead of its first record is accepted at most once in any run. |
| Replay.CallRefines | http.go:231-253 | One verified call is decided by the history alone and keeps cache and history in agreement. |
| Replay.ReplayPossibleIff | protocol.go:422-426 | Of a run that ends in an acceptance and waits at most w, some continuation accepts the same request again if and only if it was signed more than a minute less w ahead of its record. |
| Discovery.ValidDiscoveryIDs | discovery.go:213-222 | Accepts exactly well-formed identities without repetition. |
| Discovery.ValidateRequest | discovery.go:54-89 | Accepts exactly the good requests: identity, coordinates, bounds, unambiguous configuration, exact mode without search. |
| Discovery.RequestTextBinds | discovery.go:91-106 | Two valid requests are hashed as one text exactly when they agree in every coordinate and in the written time, and their configurations are `parameterEqual`. |
| Discovery.RequestTextDenotes | discovery.go:36-51 | The hashed text is a JSON text of an object with these keys in this order, empty ones omitted, and the coordinates as their values. |
| Discovery.RequestDigestIs | discovery.go:94-106 | A digest exists exactly for valid requests whose time can be written, and is `sha256:` with the hash of that text. |
| Forms.DiscoveryTextForm | discovery.go:224-226 | A discovery text is nonempty, within its bytes, left alone by trimming, and without control characters. |
| Forms.CharLengthIsLeast | discovery.go:224-226 | A character counts as many bytes as the shortest UTF-8 sequence that can hold it. |
| Forms.SpaceIsWhiteSpace | discovery.go:224-226 | The characters trimmed are those with the Unicode property White_Space. |
| Discovery.StoredKeepsRequestDigest | discovery.go:91-109 | A request whose configuration was stored with plain numbers stays valid if and only if these are short enough, and then keeps its digest. |
| Discovery.ValidatePage | discovery.go:166-211 | Accepts exactly, for an otherwise good page, at times from 30 seconds before the later of observation and request up to the maximum age after the earlier, that end excluded; found and missing identities must be a permutation of the requested ones or, in a search, distinct. |
| Discovery.CheckTimes | discovery.go:174-176 | The times are in order exactly from 30 seconds before the later one up to, not including, the maximum age after the earlier one. |
| Discovery.ValidateIdentities | discovery.go:180-210 | The loops over the set of seen identities decide that permutation. |
| Discovery.PartitionIff | discovery.go:180-210 | Being a permutation of the requested identities is being a duplicate-free, disjoint split of exactly them. |

## Left out

- Storage: what PostgreSQL does beyond writing numbers out and dropping the order of members is not modelled; places behind the decimal point are kept as written.
- Messages as characters: a received message is given as lexemes with a size in bytes that is not tied to them; repair of invalid UTF-8 and parsing of RFC 3339 times are library behaviour. `Lexing` reads what the encoder writes; escaped surrogates, which it never writes, are not read.
- SHA-256, HMAC and hexadecimal output: function parameters; the theorems are about the text that goes in.
- Error messages: a call reports acceptance, rejection or a panic. The state of the decoder after an error is specified but never used.
- CanonicalDiscoveryNumbers: Go overwrites the freshly decoded maps and slices; the model reassigns a local map or sequence, so sharing between trees is not captured.
- SatisfiableIff: the size of a message is not tied to its lexemes. For a ceiling whose required fields list many long values, the accepted message it gives may exceed 64 KiB.
- ValidLimitsSatisfiable: it speaks of the declared meaning on trees; SatisfiableIff speaks of the calls.
- TighteningAdmitsNothingNew: it speaks of the declared meaning; TighteningMatchesNothingNew speaks of the calls.
- SetString: `big.Rat` also parses texts that are not JSON numbers; validation rejects every bound of that kind before it is compared. It also refuses some very large exponents, on which `compareNumber` would panic: results about comparison on all texts and trees mean the exact comparison there. Decoded trees are far from that (`AcceptedBounds`).
- ValidateRequest: the separate checks for valid JSON and at most 64 KiB of configuration are implied by its decoding and not repeated; whether a capability is valid and its digest are fields.
- Concurrency of `authenticate`: the section under the mutex is one atomic step, and clock readings are arguments that do not decrease under the lock. Reading the body and comparing release and manifest headers is one boolean.
- `JSONDigest` and `ActionDigest`: they go through floating point and the library encoder. The other dispatch phases call a legacy digest that is a parameter.
- `AuthorizationDigest`, manifests, schemas, signatures of publishers, HTTP routing and transport, credential lifetimes, action authority, capability effects and rendering: independent guards, plumbing or finite tables.
