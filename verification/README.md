# Verification of the constituent server and its token stack

A Dafny model of nine parts of the server and of the libraries it carries, with proofs about every input, every run and
every interleaving of steps. `dafny verify dfyconfig.toml` checks all of it.

| part | files | main results |
|---|---|---|
| picojson's printer and parser | `JsonValue`, `JsonPrinter`, `JsonGrammar`, `JsonParser`, `JsonUnicode`, `JsonDocument`, `JsonDocumentProofs`, `JsonRoundTrip` | exactly which texts are read, and as what; parsing undoes printing, exactly up to the depth budget; escapes are UTF-8; the cursor refines an index |
| token-bucket rate limiter | `RateLimits` | the window bound, refinement of the ideal bucket, at least half of its hits, rejected hits are invisible |
| base64 and base64url | `Base64`, `Base64Proofs` | round trips, the law of bits, exact acceptance, canonicity |
| compact JSON Web Tokens | `Jwt`, `JwtProofs`, `JwtLogin` | sign, decode and verify end to end; exactly which texts are accepted under which secret |
| connection pool | `ConnectionPool` | conservation, no lost wakeup, no connection handed out twice, the pigeonhole |
| asynchronous log | `Logger` | conservation, clean exit, exactly when a stop is missed |
| pages of constituents | `Constituents`, `Pagination` | walks over a changing table are ordered, complete, sound and finite |
| migrations | `Migrations`, `MigrationProofs` | exactly once under crashes, and exactly when order is lost |
| device login | `Challenge` | challenges are spent once; ten seconds to answer; failed calls are invisible |

`Bytes`, `Sequences` and `Wrappers` hold the byte strings, a lemma on concatenation and the result types that the parts share.

## How the model is built

Code that changes things in place is a class whose methods change the same fields; code that loops is a method that loops.
Each such method is proved equal to a function of its inputs and the old state, and the theorems are lemmas about those
functions and about runs made of them. Concurrent code is a set of atomic steps, one for each stretch under a mutex or each
atomic access, and a run is any sequence of enabled steps. A database is its committed rows; a statement or a transaction is
one step, or several steps on a private copy where a crash between them matters; the two statements of a page request are two
steps.

What the model takes as given:

- A `char` is an unsigned byte. 64-bit and 32-bit limits appear where the code depends on them: JSON integers, the `tokens`
  column, serial ids. Bit operations on disjoint bits are written as arithmetic.
- Clocks, random bytes, HMAC and Ed25519 are parameters. HMAC may fail. The rate limiter's statement reads one clock, and so
  do the application and the database in the login model.
- The JSON layer below tokens is a parameter; theorems about signed tokens ask that it reads back the two objects that were
  written. For picojson this is proved. For nlohmann JSON, which the server build selects, it stays an assumption.
- Random public ids do not repeat, and a connection that fails is a crash.

Where the code does other than one would expect from its names or comments, the model follows the code:

- `parse_object_start` refuses at depth 0 but does not spend depth, so only arrays count against `DEFAULT_MAX_DEPTHS`.
- `base64url` is completed with `%3d`, three characters a fill, not with `=`.
- `cur()` may step over a line break without counting it in `line_`; the line count holds for `getc` and `ungetc`.
- The flag store and the notification in `log::shutdown` are outside the mutex, so shutdown may wait for ever. The model
  shows such a run, the exact condition on runs, and that nothing but a later line or a spurious wakeup ends the wait.
- Deleting an account deletes its constituents and its user in two transactions; a constituent added in between makes the
  second one fail as a whole.
- A first page starts below 2^31-1, so a row with that id is never listed.
- A response without a stored challenge is an empty optional's exception in the code; the model calls it `NotChallenged`.

## Model

| member | source | states |
|---|---|---|
| `JsonDocumentProofs.ReadsExactlyDocuments` | dependencies/jwt-cpp/picojson/picojson.h:876-928 | The texts that are read are exactly white space and a document that fits the budget, with anything behind it: which white space, escapes, numbers, commas and brackets there may be is given by literal characters. The value is what the document means, and reading stops behind it; every other text fails |
| `JsonDocumentProofs.EveryRenderingIsRead` | dependencies/jwt-cpp/picojson/picojson.h:996-1027 | However a tree is written, with any runs of space, tab, line feed and carriage return around every token, any escapes and any order of members, parsing gives the tree and the text behind it exactly when every container has fewer than 100 array ancestors, and fails otherwise |
| `JsonDocumentProofs.DocumentRead` | dependencies/jwt-cpp/picojson/picojson.h:820-928 | The same for any budget and with repeated keys, of which the last one stays; a value that is replaced needs the budget too |
| `JsonDocumentProofs.DocumentFound` | dependencies/jwt-cpp/picojson/picojson.h:820-928 | Whatever text is read, the document in it can be found |
| `JsonDocumentProofs.ForeignStartFails` | dependencies/jwt-cpp/picojson/picojson.h:876-928 | Behind white space, the end of the text or a character that starts no value makes parsing fail |
| `JsonDocumentProofs.PiecesRead` | dependencies/jwt-cpp/picojson/picojson.h:779-818 | A string literal, each character written plainly, by its short escape or as a `\u` escape in either case, is read as what it means |
| `JsonDocumentProofs.PiecesFound` | dependencies/jwt-cpp/picojson/picojson.h:779-818 | Nothing else is read as a string literal: no control character, unknown escape, unpaired surrogate or missing quote |
| `JsonDocumentProofs.DoubleRead` | dependencies/jwt-cpp/picojson/picojson.h:898-926 | A number with a fraction, an exponent or too many digits for 64 bits is kept as the text of a double |
| `JsonDocumentProofs.NumberFound` | dependencies/jwt-cpp/picojson/picojson.h:898-926 | Nothing else is read as a number: digits within 64 bits are an integer, and a double has a digit, a point only in front of its fraction and digits in its exponent |
| `JsonDocumentProofs.FitsAsMeant` | dependencies/jwt-cpp/picojson/picojson.h:996-1027 | Without repeated keys the budget that a text needs is that of its tree |
| `JsonRoundTrip.BodyIsDocument` | dependencies/jwt-cpp/picojson/picojson.h:581-644 | What is printed is the text of a document |
| `JsonRoundTrip.PrintedMeans` | dependencies/jwt-cpp/picojson/picojson.h:581-644 | That document is a legal one, means the printed tree and repeats no key |
| `JsonRoundTrip.EscapeIsPiece` | dependencies/jwt-cpp/picojson/picojson.h:529-557 | The escape printed for a byte is one that means this byte |
| `JsonRoundTrip.EscapeExactly` | dependencies/jwt-cpp/picojson/picojson.h:529-557 | Which bytes are printed in one, two and six characters, and with which hexadecimal digits |
| `JsonRoundTrip.IntTextExactly` | dependencies/jwt-cpp/picojson/picojson.h:486-491 | An integer is printed in decimal without superfluous zeros or signs |
| `JsonRoundTrip.IndentExactly` | dependencies/jwt-cpp/picojson/picojson.h:574-579 | A break is a line feed and two spaces per level |
| `JsonRoundTrip.ArrayShape` | dependencies/jwt-cpp/picojson/picojson.h:586-608 | Where pretty text of an array breaks its lines, and that compact text has no white space |
| `JsonRoundTrip.ObjectShape` | dependencies/jwt-cpp/picojson/picojson.h:609-636 | The same for objects, with one space behind the colon of pretty text |
| `JsonRoundTrip.EmptyShape` | dependencies/jwt-cpp/picojson/picojson.h:586-636 | Empty brackets have nothing between them |
| `JsonRoundTrip.ParseUndoesPrint` | dependencies/jwt-cpp/picojson/picojson.h:581-644 | For every non-floating tree and every indentation, parsing the printed text gives the tree back exactly when every container has fewer than 100 array ancestors and fails otherwise; at most the final line break of a pretty print is left unread |
| `JsonRoundTrip.BodyRoundTrip` | dependencies/jwt-cpp/picojson/picojson.h:876-928 | The same for any depth budget and any following text: the parser stops exactly where the printed value ends |
| `JsonRoundTrip.PrettyMeansCompact` | dependencies/jwt-cpp/picojson/picojson.h:574-644 | Pretty and compact text of a tree are read alike, in success and in failure |
| `JsonRoundTrip.PrintIsInjective` | dependencies/jwt-cpp/picojson/picojson.h:581-644 | Two trees of any depth that print alike are the same tree |
| `JsonRoundTrip.ReprintIsStable` | dependencies/jwt-cpp/picojson/picojson.h:1104-1131 | Whatever non-floating value a text was read as, printing that value and reading it again gives the same value |
| `JsonRoundTrip.ParsedTreesAreWellFormed` | dependencies/jwt-cpp/picojson/picojson.h:820-854 | Whatever the text, what the parser builds has 64-bit integers and sorted distinct keys and fits the depth budget |
| `JsonRoundTrip.StringRoundTrip` | dependencies/jwt-cpp/picojson/picojson.h:779-818 | Reading a printed string gives back every byte of it, for arbitrary bytes, and stops after its quote |
| `JsonValue.FitsMeansFewArrayAncestors` | dependencies/jwt-cpp/picojson/picojson.h:996-1027 | The depth budget suffices exactly when no container has as many array ancestors as the budget; objects do not spend it |
| `JsonValue.PutUpdatesMap` | dependencies/jwt-cpp/picojson/picojson.h:1019-1023 | `o[key]` keeps keys sorted and distinct, stores the value and changes no other key |
| `JsonValue.PutLast` | dependencies/jwt-cpp/picojson/picojson.h:1019-1023 | A key above all others is appended, so sorted members rebuild themselves in order |
| `JsonPrinter.SerializeStr` | dependencies/jwt-cpp/picojson/picojson.h:559-564 | The loop through the output iterator appends exactly the quoted, escaped text |
| `JsonPrinter.WriteIndent` | dependencies/jwt-cpp/picojson/picojson.h:574-579 | Appends a line break and two spaces per level |
| `JsonPrinter.Serialize` | dependencies/jwt-cpp/picojson/picojson.h:581-644 | Appends the text of the tree, and a line break only at indentation 0 |
| `JsonPrinter.SerializeArray` | dependencies/jwt-cpp/picojson/picojson.h:586-608 | The array loop appends the bracketed, separated items |
| `JsonPrinter.SerializeObject` | dependencies/jwt-cpp/picojson/picojson.h:609-636 | The object loop appends the braced members |
| `JsonParser.CursorRefinesIndex` | dependencies/jwt-cpp/picojson/picojson.h:652-688 | Under any sequence of `getc` and `ungetc` the lazy cursor reads what a plain index with one-step undo reads, and `line_` stays one plus the line breaks before `cur_` |
| `JsonParser.NewlinesExactly` | dependencies/jwt-cpp/picojson/picojson.h:661-674 | The lines counted are the line feeds |
| `JsonParser.Input.GetC` | dependencies/jwt-cpp/picojson/picojson.h:661-674 | Moves the index by one or reports the end of the text; never reads past it |
| `JsonParser.Input.UngetC` | dependencies/jwt-cpp/picojson/picojson.h:675-677 | Undoes one read; a second call changes nothing |
| `JsonParser.Input.Cur` | dependencies/jwt-cpp/picojson/picojson.h:678-685 | Leaves the cursor on the next unread character; the line count is still right exactly when it did not step over a line break |
| `JsonParser.Input.SkipWs` | dependencies/jwt-cpp/picojson/picojson.h:689-697 | Leaves exactly the text from the first character that is not white space |
| `JsonParser.Input.Expect` | dependencies/jwt-cpp/picojson/picojson.h:698-705 | Takes the expected character after white space, or nothing but the white space |
| `JsonParser.Input.Match` | dependencies/jwt-cpp/picojson/picojson.h:706-714 | Succeeds exactly when the text goes on with the pattern |
| `JsonParser.ParseQuadHex` | dependencies/jwt-cpp/picojson/picojson.h:717-737 | Reads four hexadecimal digits or fails |
| `JsonParser.ParseCodePoint` | dependencies/jwt-cpp/picojson/picojson.h:739-777 | Appends the UTF-8 bytes of one escape or of a surrogate pair, or fails |
| `JsonParser.PushUtf8` | dependencies/jwt-cpp/picojson/picojson.h:760-775 | Pushes one to four bytes |
| `JsonParser.ParseString` | dependencies/jwt-cpp/picojson/picojson.h:779-818 | Reads a string literal to its closing quote; control characters and unknown escapes fail |
| `JsonParser.ParseContext.ParseArrayStart` | dependencies/jwt-cpp/picojson/picojson.h:996-1002 | Refuses at depth 0, otherwise spends one |
| `JsonParser.ParseContext.ParseObjectStart` | dependencies/jwt-cpp/picojson/picojson.h:1013-1018 | Refuses at depth 0, spends nothing |
| `JsonParser.ParseArray` | dependencies/jwt-cpp/picojson/picojson.h:820-835 | The loop over items; every recursive call gets a strictly shorter text |
| `JsonParser.ParseObject` | dependencies/jwt-cpp/picojson/picojson.h:837-854 | The loop over members; a repeated key overwrites |
| `JsonParser.ParseNumber` | dependencies/jwt-cpp/picojson/picojson.h:856-874 | Takes the longest run of number characters |
| `JsonParser.ParseValueInto` | dependencies/jwt-cpp/picojson/picojson.h:876-928 | The recursive descent on the mutable cursor and context computes the grammar function, so it terminates on every text |
| `JsonParser.Parse` | dependencies/jwt-cpp/picojson/picojson.h:1104-1131 | The entry point: value and unread text on success; the error text is empty exactly then, and otherwise names a line and quotes the rest of it from some place of the cursor |
| `JsonParser.QuoteLine` | dependencies/jwt-cpp/picojson/picojson.h:1108-1116 | The error loop quotes the rest of the line without control characters |
| `JsonParser.QuotedLine` | dependencies/jwt-cpp/picojson/picojson.h:1108-1116 | The quotation ends with the line |
| `JsonParser.ErrorTextExactly` | dependencies/jwt-cpp/picojson/picojson.h:1106-1117 | The text of a syntax error: the number of the line, then the rest of it |
| `JsonParser.QuotedLeavesOut` | dependencies/jwt-cpp/picojson/picojson.h:1108-1116 | The quotation leaves out control characters and nothing else |
| `Bytes.LessExactly` | dependencies/jwt-cpp/picojson/picojson.h:1019-1023 | Keys and migration names are ordered by the first byte that differs, a proper prefix first |
| `JsonUnicode.EscapesAreScalars` | dependencies/jwt-cpp/picojson/picojson.h:739-777 | The `\u` escapes accepted are exactly those of Unicode scalar values, in either case of the digits; unpaired surrogates are rejected (section 7 of RFC 8259) |
| `JsonUnicode.EscapeBecomesUtf8` | dependencies/jwt-cpp/picojson/picojson.h:739-777 | In a string literal the escape of a scalar value contributes its UTF-8 bytes, from which the scalar is recovered |
| `JsonUnicode.Utf8Decodes` | dependencies/jwt-cpp/picojson/picojson.h:760-775 | The bytes pushed are valid UTF-8 and decode to the scalar (sections 3 and 4 of RFC 3629) |
| `JsonUnicode.QuadHexExact` | dependencies/jwt-cpp/picojson/picojson.h:717-737 | A number is read from exactly its four digits |
| `RateLimits.RateLimitsService.Hit` | src/app/services/rate_limits.cpp:5-34 | One hit: accepted, rejected by the check and rolled back, or failed and rolled back |
| `RateLimits.FirstHit` | src/app/services/rate_limits.cpp:11-15 | The first hit of a key is accepted with a full bucket less one, for every limit of at least one |
| `RateLimits.LaterHit` | src/app/services/rate_limits.cpp:16-27 | What a later hit does, by how many whole tokens were earned since the last refill: when it is accepted, what is stored, and that the time moves only when something was earned |
| `RateLimits.OddPeriods` | src/app/services/rate_limits.cpp:16-20 | A period of no seconds divides by zero; with a negative one a hit only loses tokens |
| `RateLimits.TokensStayInRange` | src/migrations/register_migrations.cpp:52-61 | Stored tokens stay in 0..limit-1 over every run, even when the clock goes back |
| `RateLimits.WindowBound` | src/app/services/rate_limits.cpp:11-28 | In every run, with any clock, the hits on a key accepted in a window of length D number at most limit + floor(limit*D/per_seconds) |
| `RateLimits.AcceptedFromFirst` | src/app/services/rate_limits.cpp:16-27 | The bound counted from the first accepted hit of the window |
| `RateLimits.AcceptedWithinPotential` | src/app/services/rate_limits.cpp:16-27 | Accepted hits are paid for out of tokens and unrefilled time, despite flooring and carry-over |
| `RateLimits.AcceptCostsAToken` | src/app/services/rate_limits.cpp:16-27 | An accepted hit costs at least a token of potential, seen from any instant |
| `RateLimits.AcceptCapsPotential` | src/app/services/rate_limits.cpp:16-27 | The cap bounds the potential after an accepted hit |
| `RateLimits.NeverBeatsIdealBucket` | src/app/services/rate_limits.cpp:16-27 | With a clock that does not go back, on every prefix the code has accepted no more than an exact continuous bucket |
| `RateLimits.BehindStep` | src/app/services/rate_limits.cpp:16-27 | The two coupled quantities, count and count plus level, are kept by every hit |
| `RateLimits.AtLeastHalfOfIdeal` | src/app/services/rate_limits.cpp:16-27 | With a clock that does not go back, on every prefix an exact continuous bucket has accepted at most 2n-2 hits where the code has accepted n >= 2, and as many where n <= 1 |
| `RateLimits.HalfOfIdealIsReached` | src/app/services/rate_limits.cpp:16-27 | For every n >= 2 there are a period and hits for which the ideal bucket accepts 2n-2 and the code n |
| `RateLimits.NotFarBehindStep` | src/app/services/rate_limits.cpp:16-27 | Every hit keeps the coupling by which the ideal bucket is ahead only by what refills rounded away |
| `RateLimits.RejectedHitsAreInvisible` | src/app/services/rate_limits.cpp:10-33 | Deleting every rejected hit changes no stored row and no later decision |
| `RateLimits.KeysAreIndependent` | src/app/services/rate_limits.cpp:11-15 | What happens to a key depends on its own row and hits only |
| `RateLimits.SpacedHitsPass` | src/app/services/rate_limits.cpp:16-20 | Hits at least per_seconds/limit apart are all accepted |
| `RateLimits.WindowBoundIsReached` | src/app/services/rate_limits.cpp:11-28 | The window bound is attained, for every limit, period and length |
| `RateLimits.EarnedHits` | src/app/services/rate_limits.cpp:16-27 | From an emptied row, some hits within any length spend all of the tokens earned in it: whole periods round nothing away |
| `RateLimits.UnearnedTimeIsKept` | src/app/services/rate_limits.cpp:21-27 | Hits too early to earn a token spend what is there, then are rejected, and never move the time from which the next token is counted |
| `Base64.Encode` | dependencies/jwt-cpp/jwt-cpp/base.h:179-226 | The 24-bit packing loop computes the encoding |
| `Base64.EncodeLast` | dependencies/jwt-cpp/jwt-cpp/base.h:199-225 | The last one or two bytes become two or three symbols and the fills |
| `Base64.Decode` | dependencies/jwt-cpp/jwt-cpp/base.h:228-272 | The decoding loop, with every index inside the text, computes the decoding or the right error |
| `Base64.DecodeFast` | dependencies/jwt-cpp/jwt-cpp/base.h:240-255 | The complete groups; stops at a character outside the alphabet |
| `Base64.DecodeLast` | dependencies/jwt-cpp/jwt-cpp/base.h:257-271 | The last group, by the number of fills |
| `Base64.Pad` | dependencies/jwt-cpp/jwt-cpp/base.h:279-289 | The fall-through switch appends the fills that complete the last group |
| `Base64.SymbolsAndIndices` | dependencies/jwt-cpp/jwt-cpp/base.h:32-100 | In both alphabets symbols and indices are inverse to each other |
| `Base64.FinalFillIsFirst` | dependencies/jwt-cpp/jwt-cpp/base.h:166-177 | The fill found is in the list, the text ends with it and with no earlier one; none is found exactly when the text ends with none |
| `Base64.Find` | dependencies/jwt-cpp/jwt-cpp/base.h:291-294 | The first occurrence, as `std::string::find` |
| `Base64Proofs.AlphabetsAndFills` | dependencies/jwt-cpp/jwt-cpp/base.h:32-100 | The two alphabets and fills, as literals (sections 4 and 5 of RFC 4648, with `%3d` for the second) |
| `Base64Proofs.EncodedBits` | dependencies/jwt-cpp/jwt-cpp/base.h:179-226 | The symbols, six bits each, carry the bits of the bytes in order, and then the zeros that complete the last symbol (section 4 of RFC 4648) |
| `Base64Proofs.DecodeUndoesEncode` | dependencies/jwt-cpp/jwt-cpp/base.h:179-272 | decode(encode(b)) = b for every byte string, in both alphabets (sections 4 and 5 of RFC 4648) |
| `Base64Proofs.DecodeUndoesTrimmedEncode` | dependencies/jwt-cpp/jwt-cpp/base.h:279-294 | decode(pad(trim(encode(b)))) = b although the fill is three characters long, and the trimmed text has only alphabet characters |
| `Base64Proofs.DecodeOutcome` | dependencies/jwt-cpp/jwt-cpp/base.h:228-272 | For every text, the bytes or which error: too much fill, then the size, then a character outside the alphabet |
| `Base64Proofs.EveryTextHasBody` | dependencies/jwt-cpp/jwt-cpp/base.h:166-177 | Every text is a body without a fill at its end and some fills |
| `Base64Proofs.CountBehind` | dependencies/jwt-cpp/jwt-cpp/base.h:166-177 | count_padding finds all fills behind such a body |
| `Base64Proofs.AcceptedTexts` | dependencies/jwt-cpp/jwt-cpp/base.h:228-272 | Exactly the texts of alphabet characters in groups of four, the last completed by at most two fills, are decoded |
| `Base64Proofs.EncodeUndoesDecode` | dependencies/jwt-cpp/jwt-cpp/base.h:257-271 | encode(decode(s)) = s exactly when the unused low bits of the last symbol are zero; otherwise it is s with those bits cleared (section 3.5 of RFC 4648) |
| `Base64Proofs.DecodedPadded` | dependencies/jwt-cpp/jwt-cpp/base.h:228-272 | The bytes of an accepted text are those of its symbols |
| `Base64Proofs.PaddingIsFills` | dependencies/jwt-cpp/jwt-cpp/base.h:166-177 | What count_padding counts is a run of fills, for every text |
| `Base64Proofs.PaddedExactly` | dependencies/jwt-cpp/jwt-cpp/base.h:279-289 | pad appends the fewest fills that complete the last group |
| `Base64Proofs.TrimmedExactly` | dependencies/jwt-cpp/jwt-cpp/base.h:291-294 | trim cuts any text at its first fill, and only there |
| `Base64Proofs.TrimmedIsCore` | dependencies/jwt-cpp/jwt-cpp/base.h:291-294 | trim cuts at the first fill |
| `Base64Proofs.GroupRoundTrip` | dependencies/jwt-cpp/jwt-cpp/base.h:186-197 | Three bytes survive the trip through four symbols, full or short |
| `Jwt.LookupAfterPut` | dependencies/jwt-cpp/jwt-cpp/jwt.h:3163-3187 | Setting a claim changes that claim and no other |
| `Jwt.EncodeSegment` | dependencies/jwt-cpp/jwt-cpp/jwt.h:3380-3386 | base64url without fills |
| `Jwt.DecodeSegment` | dependencies/jwt-cpp/jwt-cpp/jwt.h:3038-3041 | pad, then decode |
| `Jwt.Builder.Sign` | dependencies/jwt-cpp/jwt-cpp/jwt.h:3355-3368 | Signs a copied header, with the algorithm added only if absent, and leaves the builder as it was |
| `Jwt.Builder.SetHeaderClaim` | dependencies/jwt-cpp/jwt-cpp/jwt.h:3163-3166 | Updates one header claim |
| `Jwt.Builder.SetPayloadClaim` | dependencies/jwt-cpp/jwt-cpp/jwt.h:3184-3187 | Updates one payload claim |
| `Jwt.Builder.SetIssuedAt` | dependencies/jwt-cpp/jwt-cpp/jwt.h:3291-3291 | Stores the instant cut to whole seconds |
| `Jwt.Builder.SetExpiresAt` | dependencies/jwt-cpp/jwt-cpp/jwt.h:3270-3270 | Stores the instant cut to whole seconds |
| `Jwt.Split` | dependencies/jwt-cpp/jwt-cpp/jwt.h:3056-3062 | The three parts put together with dots are the token, and the first two have no dot |
| `Jwt.DecodeToken` | dependencies/jwt-cpp/jwt-cpp/jwt.h:3055-3070 | Cuts at the first two dots, decodes, parses; each failure in its order |
| `Jwt.VerifySignature` | dependencies/jwt-cpp/jwt-cpp/jwt.h:1422-1435 | The comparison loop accepts exactly the signature that signing gives |
| `Jwt.Verifier.constructor` | dependencies/jwt-cpp/jwt-cpp/jwt.h:3657-3679 | Installs the exp, iat and nbf checks |
| `Jwt.Verifier.ExpiresAtLeeway` | dependencies/jwt-cpp/jwt-cpp/jwt.h:3696-3699 | Replaces the exp check |
| `Jwt.Verifier.AllowAlgorithm` | dependencies/jwt-cpp/jwt-cpp/jwt.h:3828-3831 | Adds an algorithm under its name |
| `Jwt.Verifier.Verify` | dependencies/jwt-cpp/jwt-cpp/jwt.h:3848-3866 | Accepts exactly when algorithm, signature and all checks agree, in whatever order the checks run; otherwise reports an error that some check gave |
| `JwtProofs.SegmentRoundTrip` | dependencies/jwt-cpp/jwt-cpp/jwt.h:3380-3386 | A segment decodes to the bytes it was made of and has only letters, digits, "-" and "_" |
| `JwtProofs.SegmentBits` | dependencies/jwt-cpp/jwt-cpp/jwt.h:3380-3386 | A segment is base64url: six bits a character, the bits of the bytes in order and then fewer than six zeros (section 5 of RFC 4648) |
| `JwtProofs.DecodableHasNoDot` | dependencies/jwt-cpp/jwt-cpp/jwt.h:3038-3041 | Every segment that decodes is free of dots |
| `JwtProofs.SplitJoined` | dependencies/jwt-cpp/jwt-cpp/jwt.h:3056-3062 | Cutting takes joined segments apart again |
| `JwtProofs.DecodesExactly` | dependencies/jwt-cpp/jwt-cpp/jwt.h:3055-3070 | The constructor succeeds exactly on the tokens that have a consistent decoding, and finds it |
| `JwtProofs.DecodedTokensHaveTwoDots` | dependencies/jwt-cpp/jwt-cpp/jwt.h:3055-3070 | Every token that decodes has exactly two dots (section 7.1 of RFC 7515) |
| `JwtProofs.DecodeUndoesSign` | dependencies/jwt-cpp/jwt-cpp/jwt.h:3355-3368 | A signed token decodes to the same three segments, header, payload and signature |
| `JwtProofs.SignedTokenAccepted` | dependencies/jwt-cpp/jwt-cpp/jwt.h:3848-3866 | A signed token passes verification under its key exactly while it is in time, for every header without "alg"; with "alg", also exactly when it names the algorithm (section 4.1 of RFC 7519) |
| `JwtProofs.AcceptedExactly` | dependencies/jwt-cpp/jwt-cpp/jwt.h:3848-3866 | A text is accepted exactly when it decodes, names the algorithm, carries the hash of its first two segments under the secret and is in time |
| `JwtProofs.SignedElsewhere` | dependencies/jwt-cpp/jwt-cpp/jwt.h:1397-1435 | A token signed under one secret is accepted under another secret or hash of the same name exactly when it is in time, names the algorithm, and the other hash under the other secret gives the same signature on the same two segments |
| `JwtProofs.SignatureErrors` | dependencies/jwt-cpp/jwt-cpp/jwt.h:3848-3866 | Which error the signature check gives: no algorithm named, one that is not allowed, a hash that fails, another signature |
| `JwtProofs.SentHeaderExactly` | dependencies/jwt-cpp/jwt-cpp/jwt.h:3355-3368 | The header sent is the one that was set, with the name of the algorithm only if it had none |
| `JwtProofs.DecodeFailsInOrder` | dependencies/jwt-cpp/jwt-cpp/jwt.h:3055-3070 | Which error is reported for a text of three parts |
| `JwtProofs.TooFewDots` | dependencies/jwt-cpp/jwt-cpp/jwt.h:3056-3062 | A text is refused for its shape exactly when it has fewer than two dots |
| `JwtProofs.LookupIsMember` | dependencies/jwt-cpp/jwt-cpp/jwt.h:3163-3187 | A claim is looked up by its own name |
| `JwtProofs.DefaultChecksPass` | dependencies/jwt-cpp/jwt-cpp/jwt.h:3657-3679 | The three default checks together are: present dates are numbers and the time is within them, up to the leeway |
| `JwtProofs.DateErrors` | dependencies/jwt-cpp/jwt-cpp/jwt.h:3496-3524 | Which error each date check gives, by the type of the claim |
| `JwtProofs.ExpiresAtLeewayIsStrict` | dependencies/jwt-cpp/jwt-cpp/jwt.h:3496-3507 | With its own leeway the exp check also turns away tokens without an integer exp |
| `JwtProofs.NotBeforeLeewayIsStrict` | dependencies/jwt-cpp/jwt-cpp/jwt.h:3513-3524 | With a leeway of its own the iat or the nbf check turns away tokens without an integer in that claim |
| `JwtLogin.CreateAccessToken` | src/app/services/auth.cpp:63-70 | The token of a login |
| `JwtLogin.LoginTokenLastsAWeek` | src/app/services/auth.cpp:63-70 | A login token is accepted in its window and at no other time |
| `JwtLogin.LoginWindowIsAWeek` | src/app/services/auth.cpp:63-64 | From 1970 on the window holds every instant of the week but its last second, and none after the week; before 1970 both ends may be up to a second late |
| `JwtLogin.GoodFromTheStart` | src/app/services/auth.cpp:63-67 | A token is good at the instant it is made, exactly unless that is before 1970 and within a second |
| `JwtLogin.LoginTokenNamesTheUser` | src/app/middlewares/pre_request_middleware.cpp:44-49 | The subject of a decoded login token reads back as the user number |
| `JwtLogin.SubjectExactly` | dependencies/jwt-cpp/jwt-cpp/jwt.h:2871-2871 | The subject of a decoded token is its "sub" claim; which error there is without one |
| `JwtLogin.PicojsonSurvives` | dependencies/jwt-cpp/jwt-cpp/traits/kazuho-picojson/traits.h:71-75 | With picojson below, an object without floating-point numbers survives exactly when no container in it is too deep |
| `JwtLogin.PicojsonLogin` | dependencies/jwt-cpp/jwt-cpp/traits/kazuho-picojson/traits.h:16-76 | With picojson below, the login theorem needs no assumption about JSON |
| `ConnectionPool.Pool.constructor` | src/app/db/connection_pool.cpp:3-7 | Creates as many connections as the size says, none for a negative size |
| `ConnectionPool.Pool.EnterAcquire` | src/app/db/connection_pool.cpp:9-20 | Takes a connection or goes to sleep, in one step under the mutex |
| `ConnectionPool.Pool.ResumeAcquire` | src/app/db/connection_pool.cpp:12-20 | Tests the stack again before the time-out counts; takes a connection, throws, or sleeps on |
| `ConnectionPool.Pool.ReleaseGuard` | src/app/db/connection_pool.cpp:22-39 | Puts the connection back and wakes a sleeping thread whenever there is one; a moved-from guard does nothing |
| `ConnectionPool.AcquireAnswers` | src/app/db/connection_pool.cpp:9-20 | The connection that acquire returns, at once or after a wait, is the one its guard records and the one that leaves the stack; it throws exactly when none is idle at its deadline |
| `ConnectionPool.HandedOutOnce` | src/app/db/connection_pool.cpp:9-20 | After any run, a connection that is handed out was idle and owned by nobody, and is idle no longer |
| `ConnectionPool.ReleasedInBetween` | src/app/db/connection_pool.cpp:9-32 | In every run, between two steps that hand out the same connection there is one that puts it back |
| `ConnectionPool.PoolInvariant` | src/app/db/connection_pool.cpp:3-39 | After any interleaving, idle and owned connections are the initial ones, none lost or owned twice, and no wakeup is lost |
| `ConnectionPool.StepLosesNoWakeup` | src/app/db/connection_pool.cpp:9-32 | Each step keeps: while a thread sleeps unsignalled, idle connections are no more than signalled threads that have not run |
| `ConnectionPool.StepConserves` | src/app/db/connection_pool.cpp:9-32 | Each step keeps idle plus owned |
| `ConnectionPool.SleepersMeanExhaustion` | src/app/db/connection_pool.cpp:9-32 | If a thread still sleeps when all signalled ones have run, every connection is in use |
| `ConnectionPool.ThrowsOnlyWhenExhausted` | src/app/db/connection_pool.cpp:12-14 | acquire throws only at a moment when every connection is in use, after its time-out |
| `ConnectionPool.ThrowsExactlyWhenLate` | src/app/db/connection_pool.cpp:12-14 | In every run, acquire throws exactly when it comes back to an empty stack and its deadline has passed since it last went to sleep |
| `ConnectionPool.EnoughConnections` | src/app/db/connection_pool.cpp:9-20 | With no more threads than connections and one connection each, acquire neither waits nor throws, in any run |
| `ConnectionPool.LastReleasedIsTakenFirst` | src/app/db/connection_pool.cpp:16-31 | The connection released last is handed out first, and the stack is then as before |
| `ConnectionPool.FewOwners` | src/app/db/connection_pool.cpp:9-20 | The pigeonhole step |
| `Logger.Log.PushLine` | src/app/utils/log.cpp:48-55 | The locked part of enqueue |
| `Logger.Log.StoreStopFlag` | src/app/utils/log.cpp:60-65 | Stores the flag once, without the mutex |
| `Logger.Log.WaitOnce` | src/app/utils/log.cpp:16-16 | One test of the wait predicate |
| `Logger.Log.TakeQueue` | src/app/utils/log.cpp:18-19 | Swaps the queue out |
| `Logger.Log.LeaveMutex` | src/app/utils/log.cpp:20-21 | Reads the flag after the swap and unlocks |
| `Logger.Log.WriteLines` | src/app/utils/log.cpp:23-32 | The write loop writes the local queue in order, then returns exactly if the flag was seen |
| `Logger.Conservation` | src/app/utils/log.cpp:13-34 | In every interleaving, written lines, then the worker's, then the queued ones are the enqueued lines in order |
| `Logger.CleanExit` | src/app/utils/log.cpp:13-34 | When the worker has returned, it has written, once each and in order, every line enqueued before the flag was stored, and only enqueued lines |
| `Logger.LinesWakeTheWorker` | src/app/utils/log.cpp:48-58 | A worker asleep on a filled queue always has a notification on its way |
| `Logger.StopCanBeLost` | src/app/utils/log.cpp:60-67 | The stop notification can be lost: a run ends with the worker asleep, the flag stored and nobody left to wake it |
| `Logger.StopIsLostExactlyWhenMissed` | src/app/utils/log.cpp:60-67 | In every run in which the stop was announced, the worker is asleep, or about to be, exactly when the announcement fell between its test of the predicate and its sleep and nothing woke it afterwards |
| `Logger.LostStopIsForEver` | src/app/utils/log.cpp:13-34 | From then on, without a notification for a line or a spurious wakeup, whatever the run: no step of the worker is enabled, nothing is written, and only pushes happen |
| `Logger.StoppedWorkerAdvances` | src/app/utils/log.cpp:13-34 | If the announcement finds it anywhere else, the worker always has a next step, each brings it closer to returning, and producers cannot set it back |
| `Constituents.ConstituentsRepo.List` | src/app/repos/constituents.cpp:9-57 | The page below the cursor, or 400 for a cursor that matches no row of the user |
| `Constituents.ConstituentsRepo.LookUpCursor` | src/app/repos/constituents.cpp:14-29 | The id of the cursor row, 2^31-1 without a cursor, or 400 |
| `Constituents.ConstituentsRepo.QueryPage` | src/app/repos/constituents.cpp:31-56 | The rows of the page below an id, in order |
| `Constituents.ConstituentsRepo.Add` | src/app/repos/constituents.cpp:59-87 | Inserts under a fresh id and shows the row |
| `Constituents.ConstituentsRepo.EditRow` | src/app/repos/constituents.cpp:89-144 | Changes the given fields of the matching row only; 400 without fields, 404 without a row |
| `Constituents.ConstituentsRepo.Remove` | src/app/repos/constituents.cpp:146-158 | Deletes the matching row only; 404 without one |
| `Constituents.ConstituentsRepo.RemoveAllForUser` | src/app/repos/constituents.cpp:160-170 | Deletes exactly the rows of the user |
| `Constituents.ExistsExactly` | src/app/repos/constituents.cpp:17-24 | A cursor, an edit and a removal go by user and public id together |
| `Constituents.EditedExactly` | src/app/repos/constituents.cpp:89-144 | An edit changes the given fields of the matching row, each to its own value, and nothing else in any row |
| `Constituents.RemovedExactly` | src/app/repos/constituents.cpp:146-158 | After a removal the row is gone and every other row unchanged |
| `Constituents.WithoutUserExactly` | src/app/repos/constituents.cpp:160-170 | No row of the user is left and every other row is unchanged |
| `Constituents.PageExactly` | src/app/repos/constituents.cpp:31-41 | A page is the highest ids of the user below the cursor, descending, at most 100, with no gap |
| `Constituents.IdsBelowExactly` | src/app/repos/constituents.cpp:31-41 | The list below an id holds exactly the ids of the user below it, descending |
| `Constituents.IdsBelowSplit` | src/app/repos/constituents.cpp:31-41 | The list after one of its ids is the list below that id |
| `Pagination.WalkDescends` | src/app/repos/constituents.cpp:9-57 | A walk interleaved with any writers, also between the two statements of a request, shows strictly descending ids, none twice, and no cursor of it is refused |
| `Pagination.WalkIsComplete` | src/app/repos/constituents.cpp:9-57 | A finished walk has shown every row of the user present throughout, for ids below 2^31-1 |
| `Pagination.WalkShowsOnlyRows` | src/app/repos/constituents.cpp:9-57 | A walk shows nothing but rows that the user had at some point of it |
| `Pagination.RemovedIsNotShown` | src/app/repos/constituents.cpp:146-170 | A row that is removed before the walk comes down to it is never shown, unless its id is added again |
| `Pagination.LargestIdIsNeverShown` | src/app/repos/constituents.cpp:14-14 | The id 2^31-1 is never shown |
| `Pagination.WalkEnds` | src/app/repos/constituents.cpp:9-57 | No run has more requests than ids, whatever the writers do |
| `Pagination.QuietWalkIsTheList` | src/app/repos/constituents.cpp:9-57 | Without writers the pages of a finished walk are the whole descending list |
| `Pagination.StepUsesRequest` | src/app/repos/constituents.cpp:15-41 | Each request uses up an id, by showing it, or is the last, and writers give none back |
| `Migrations.Registry.Register` | src/migrations/register_migrations.cpp:4-68 | Appends the four migrations and sorts the registry by name |
| `Migrations.SortedSorts` | src/migrations/register_migrations.cpp:64-67 | Sorting distinct names gives the same migrations in strictly ascending order |
| `Migrations.SortedIsUnique` | src/migrations/register_migrations.cpp:64-67 | There is one such order, whatever the sorting algorithm |
| `Migrations.DeclaredInOrder` | src/migrations/register_migrations.cpp:4-62 | The four declared migrations are in order as they stand |
| `Migrations.DeclaredOnEmpty` | src/migrations/register_migrations.cpp:4-62 | On an empty database the four migrations run in the order of their names, each under its own |
| `Migrations.AppendsExactlyWhenLargest` | src/migrations/register_migrations.cpp:64-67 | A further migration leaves the others in place exactly when its name is above all of theirs |
| `Migrations.Connection.RunMigrations` | src/migrations/run_migrations.cpp:14-29 | The loop applies and records each missing migration, each in a transaction of its own |
| `MigrationProofs.ExactlyOnce` | src/migrations/run_migrations.cpp:14-29 | After any number of runs cut off at any step, the ledger is a prefix of the sorted registry and the schema is the effect of exactly those migrations in order; also when later registries append larger names |
| `MigrationProofs.CompletedRunConverges` | src/migrations/run_migrations.cpp:14-29 | From any such point one completed run reaches the same final state |
| `MigrationProofs.StepSound` | src/migrations/run_migrations.cpp:15-28 | What each step of a transaction keeps, and that a crash loses only the transaction |
| `MigrationProofs.MigrateAddsMissing` | src/migrations/run_migrations.cpp:17-26 | From any ledger, a complete run applies and records what is missing, in registry order |
| `MigrationProofs.OrderedExactlyWhenPrefix` | src/migrations/run_migrations.cpp:17-26 | The ledger ends in registry order exactly when it was a prefix of it before |
| `MigrationProofs.LateSmallerNameRunsLate` | src/migrations/run_migrations.cpp:17-26 | A migration added later under a smaller name runs after its successor |
| `Challenge.AuthService.RegisterWithDevice` | src/app/repos/auth.cpp:10-41 | Inserts a user and a device without a challenge, unless the key is taken; then nothing |
| `Challenge.AuthService.GenerateDeviceChallenge` | src/app/services/auth.cpp:30-46 | Gives the stored challenge again for 50 seconds, then stores a new one |
| `Challenge.AuthService.VerifyDeviceResponse` | src/app/services/auth.cpp:48-61 | Answers a response and clears the challenge exactly on a login |
| `Challenge.AuthService.RemoveAllForUser` | src/app/repos/auth.cpp:96-111 | Deletes the devices of the user and the user, or rolls back if other rows still refer to the user |
| `Challenge.LifeOfAChallenge` | src/app/services/auth.cpp:30-61 | What requests and responses are answered and store, by the age of the stored challenge: repeated below 50 seconds, good up to 60, then expired |
| `Challenge.LifeWithoutAChallenge` | src/app/services/auth.cpp:30-61 | Without a challenge a request stores one and a response is refused |
| `Challenge.OnlyItsChallenge` | src/app/repos/auth.cpp:74-94 | A request or a response touches at most the challenge of its own device |
| `Challenge.RegisterExactly` | src/app/repos/auth.cpp:10-41 | A device is registered, without a challenge, exactly when its key is new |
| `Challenge.RemoveUserExactly` | src/app/repos/auth.cpp:96-111 | Removing a user takes out the user and all its devices, or nothing |
| `Challenge.NoChangeWithoutReason` | src/app/services/auth.cpp:30-61 | A call that fails, a wrong response among them, or that repeats a challenge changes no row |
| `Challenge.FailedCallsAreInvisible` | src/app/services/auth.cpp:30-61 | In every run, deleting all such calls changes neither the final tables nor any later answer |
| `Challenge.ChallengesAreSpentOnce` | src/app/repos/auth.cpp:74-94 | In every run the two challenge columns are set and cleared together, every device has its user, no two share a key, and logins plus a stored challenge never outnumber the challenges stored |
| `Challenge.LoginsSpendChallenges` | src/app/services/auth.cpp:48-61 | The same count from any consistent table |
| `Challenge.TenSecondsToAnswer` | src/app/services/auth.cpp:34-55 | For 10 seconds and a nanosecond after a challenge is returned no response is answered "Challenge expired", whatever calls come between, although timestamps are cut to whole seconds |
| `Challenge.PromptAnswerDecides` | src/app/services/auth.cpp:48-61 | Within that time, whatever other devices do and however many wrong responses come first, the device is logged in exactly when its response signs the challenge it was given |
| `Challenge.TimeToAnswerIsTight` | src/app/services/auth.cpp:34-55 | One nanosecond later a response can be too late, in a run from empty tables |
| `Challenge.StoredIsGood` | src/app/utils/datetime.cpp:5-9 | Cutting a stored time to its second costs less than the margin |

## Left out

- JsonRoundTrip.ParseUndoesPrint: trees with floating-point numbers are not covered, because printing and reading doubles is left to the C library and loses digits.
- JsonPrinter.Serialize: for the same reason takes trees without floating-point numbers only.
- JsonPrinter.SerializeArray: for the same reason takes arrays without floating-point numbers only.
- JsonPrinter.SerializeObject: for the same reason takes objects without floating-point numbers only.
- JsonParser.Parse: does not say at which place of the text a failed parse stops, nor what partial value it leaves behind.
- Challenge.TenSecondsToAnswer: asks for a clock that does not go back between the two calls; with one that does, a new challenge can be stored with an old time.
- JwtProofs.SignedTokenAccepted: whole seconds are turned into clock ticks without the 64-bit overflow that dates centuries away would meet.
- Pagination.WalkIsComplete: a row that was added or removed on the way may or may not be shown, and the walk ends at an empty page; a client that stops at a short page asks one request less.
- Floating-point numbers: `strtod`, locale decimal points and printing of doubles. A decimal literal is recognised and kept as text; claims that hold one go through a rounding parameter.
- picojson's null and deny contexts, stream operators, `operator==` and the conversion of integers to doubles on access.
- Alphabets with several fills (`helper` in base.h) and the other signature algorithms.
- Claim checks for equality, audience and case-insensitive type; any check can be installed as a function, and acceptance is stated for all of them.
- nlohmann JSON, OpenSSL, httplib and libpqxx themselves; SQL errors other than those the code answers.
- The SQL text that `edit` builds, which covers three optional fields.
- Daylight saving, time zones and calendar arithmetic of `strptime` and `timegm`; a stored time is an integer cut to its second.
- Liveness and fairness of the pool and the log, the join in `shutdown`, and two callers of `shutdown` at once.
- Two calls at once on one device, and two migration runs at once.
- The language-model client, CORS, error and rate-limit middleware, environment loading and validators.
