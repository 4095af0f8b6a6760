# Verified model of the compatibility layer's core algorithms

This project models, in Dafny, the parts of the repository that carry real logic, and proves what they promise. Every file says in its first line what it models. Code that updates state is modelled as methods over arrays and class fields and proved against functions; the properties are then proved about those functions for every input, every run or every reachable state.

| modules | what they model |
|---|---|
| `JsonValue`, `JsonNumber`, `JsonString`, `JsonSyntax`, `JsonReader`, `JsonTokens`, `JsonAccepted` | the JSON reader: values, 64-bit integers, strings, the recursive grammar, the cursor-and-stack class, what any text that spells a value reads as, and what every accepted document has in common |
| `JsonGrammar`, `JsonLexemes`, `JsonEscapes` | the same texts told without the reader: which texts are accepted as trees of a grammar, what each token looks like, and what each escape means under a reference decoder for UTF-8 |
| `JsonFastWriter`, `JsonStyledWriter`, `JsonStyledMeaning`, `JsonLayout` | the two writers with their layout state, their round trips through the reader, and the lines they lay out |
| `WebPatchMatch`, `WebPatchRewrite`, `WebPatchPieces`, `WebPatchFires`, `WebPatchTransform`, `WebPatchPlan` | the pattern matcher, the counting and rewriting passes with their two shortcuts, what the rewritten text is made of, how often a gate fires against how often it was counted, and the decision which gates take part, told by their flags |
| `CallbackQueue`, `CallbackConsumers` | producers and nested drains of the callback queue, as a transition system, and the drain loop as a class; the same with any number of threads draining |
| `CegService`, `CegMeaning` | service calls, their helper process, stop, and the call files, as a transition system |
| `DefaultsText`, `DefaultsApply` | the settings text and its canonical form, and making one build's settings every build's |
| `ConfSchema`, `ConfRules`, `ConfRecord`, `ConfRead`, `ConfSpelled`, `ConfOutcome`, `ConfMeaning` | the descriptor reader: schema and the rules for values, packed record buffer, line machine, what each line and a whole file spells, what becomes of every file, and the rules over a directory |
| `CollapsePath`, `CollapsePathMeaning` | the in-place path tidying |
| `Backslashes`, `VdfToken` | two ways of doubling backslashes and the token reader that undoes them |
| `ShellWords`, `LaunchShell` | quoting a launch command, against the quoting rules of IEEE Std 1003.1-2017, Shell Command Language, section 2.2 |
| `FunctionStarts`, `FnCalls`, `FnEncodings`, `ImportStubs` | the function-starts table, the scan of machine code for a call against the instruction formats of the Arm A64 instruction set, and import stubs by address and by name |
| `SpawnEnv`, `SpawnEnvMeaning` | the environment handed to child processes |
| `Options`, `Numbers`, `Chars`, `Pieces` | an option type, the larger of two numbers, character classes, cutting and gluing text at a separator |

A text is a sequence of bytes, a byte written as the character with its code. Where C reads up to a terminator the model has the text without it; where the terminator matters (`CollapsePath`, `Backslashes`, `VdfToken`, `ConfRecord`, `SpawnEnv`) it is in the buffer. Integers are unbounded and every place where 64-bit wrap-around or truncation matters writes it out.

Calls into code that is not modelled are parameters: whether stream extraction of a double succeeds (`isDouble`), the number a text denotes for `strtod` (`num`), a sink's verdict on a record, which file operations fail (`Faults`), what freshly allocated memory reads (`garbage`), whether a command runs a tool (`runsTool`), the machine code (`Code`), the script text that defines the platform lists (`lists`).

## Where the code differs from what a reader would assume

The model follows the code. Each of these is proved, with the exact condition where there is one.

- JSON: besides what an integer prints as, leading zeros, "-0" and a minus without digits are read as integers (`JsonAccepted.LooseIntegers`); a comma before a closing brace is accepted exactly when the key before it is empty (`JsonAccepted.TrailingComma`); after a member and a comment any one token but the closing brace passes for the comma (`JsonAccepted.CommentForComma`).
- JSON: behind an escaped high surrogate any second escape passes for the low one, of which only the last ten bits are used, and a low surrogate alone is written as the three bytes of its number (the items of `JsonEscapes.BodyMeans`).
- JSON: StyledWriter cuts keys at NUL, so its text means the same as FastWriter's exactly when no key contains one (`JsonStyledMeaning.StyledMeansTheSame`).
- Both round trips hold up to 1000 nested levels and fail beyond with the nesting error, never otherwise (`JsonFastWriter.FastRoundTrip`).
- Overlapping gates: at every byte the leftmost match wins, and the table decides only between matches that begin at the same byte. No gate fires more often than it was counted (`WebPatchFires.FiresAtMostCounted`); one whose matches begin inside another's may fire less often, in any table order (`WebPatchTransform.OverlapStarvesAGate`).
- `Steam_BGetCallback` drains without a lock. With several threads in it no callback is lost or repeated (`CallbackConsumers.NoneLostOrRepeated`), but fresh memory may be dispatched: exactly when one callback is larger than another and no larger than what the memory's size field happens to read (`CallbackConsumers.FreshDispatchExactly`, with a run in `CallbackConsumers.AnotherConsumerBreaksIt`). Until then every copy fits its memory (`CallbackConsumers.OverrunNeedsFresh`); after it one may not (`CallbackConsumers.OverrunExactly`).
- A helper can still start after stop has set its flag, exactly when a call is then between its test of the flag and its start (`CegMeaning.LateStartExactly`), from any of those places even after stop has run to its end (`CegMeaning.OneLateHelper`), and never two (`CegMeaning.StopAdmitsAtMostOne`).
- A descriptor file that is cut short, by an over-long line or by a field before its first header, loses the headers that are open or follow; none is lost exactly when there are none such (`ConfMeaning.EveryHeaderEndsOnce`, `ConfMeaning.FieldFirstLosesHeaders`).
- A descriptor line that opens a bracket and never closes it, or that has no "=", is passed over without a word, and what follows a header's last bracket counts for nothing (`ConfSpelled.LineMeans`).
- `collapse_path` leaves a ".." component exactly when a directory spelled "..." survives resolution (`CollapsePathMeaning.LeavesDotDot`), and is idempotent exactly on paths that keep no directory spelled with two dots at its end (`CollapsePathMeaning.CollapseAgain`, two such paths in `CollapsePathMeaning.CollapseTwiceDiffers`).
- `branch_target` does not recognise CBNZ and TBNZ, which its comments name, nor BC.cond, and `fn_calls` takes BR for a return, jump tables included. Where it stops, its answer no covers all that can run exactly when nothing that runs is a BR, which may lead anywhere, one of the three with a target outside the stretch scanned, a branch to below the entry, or the jump it stopped at when that goes forwards (`FnCalls.FullFlowStaysInside`; `FnCalls.CallBehindAMissedBranch`, `FnCalls.CallBehindAJumpTable` and `FnCalls.CallBehindTheStop` are functions where one of these leads to the call). Where it runs to its cap it says no as well, which covers the 0x400 bytes scanned and nothing beyond (`FnCalls.RanOutMeansNoneInSpan`, `FnCalls.CallBeyondTheSpan`). A yes names a call that is reached when no jump and no return stands before it (`FnCalls.HitIsReached`), and otherwise perhaps one that never runs (`FnCalls.HitWithoutARun`).
- A compat launch loses every inserted-library list, except from a process that remembered neither variable: it hands the environment on as it is (`SpawnEnvMeaning.ChildIsClean`).
- An insert without a non-empty segment is handed on but not taken out again, except for compat launches (`SpawnEnvMeaning.InsertComesBackOut`).

## Model

| member | source | states |
|---|---|---|
| JsonValue.BeforeIsIrreflexive | steam-shim/jsoncpp.cpp:2698-2709 | The key order (bytes of the common length, then length) never puts a key before itself. |
| JsonValue.BeforeMeans | steam-shim/jsoncpp.cpp:2698-2709 | A key stands before another if and only if it is a proper beginning of it or has the smaller byte where the two first differ. |
| JsonAccepted.BeforeIsTransitive | steam-shim/jsoncpp.cpp:2698-2709 | The key order is transitive. |
| JsonAccepted.BeforeIsTotal | steam-shim/jsoncpp.cpp:2698-2709 | The key order is total, so `std::map` keeps one member per key. |
| JsonAccepted.PutKeepsOrder | steam-shim/jsoncpp.cpp:3458-3475 | Inserting or overwriting a member keeps an object a map in key order. |
| JsonAccepted.PutMeans | steam-shim/jsoncpp.cpp:3458-3475 | Afterwards the key has the value, and every member with another key is there exactly if it was before. |
| JsonValue.PutAppendsALaterKey | steam-shim/jsoncpp.cpp:3458-3475 | A key after all others goes to the end and disturbs nothing. |
| JsonValue.NormalIsIdempotent | steam-shim/jsoncpp.cpp:783-789 | The int/uint normalisation of decoded numbers is a normal form at every level of a tree. |
| JsonNumber.ReadInteger | steam-shim/jsoncpp.cpp:750-790 | The digit loop decodes an optional minus and digits to its exact value if and only if that fits 64 bits, leading zeros included, with no intermediate overflow; every other token goes to the double path. |
| JsonNumber.OverLimit | steam-shim/jsoncpp.cpp:769-778 | Once a tenth of the limit is reached, another digit oversteps it unless it is the last one and small enough: giving up there loses no token that fits. |
| JsonNumber.NatOfGrows | steam-shim/jsoncpp.cpp:764-780 | A prefix of a digit run never denotes more than the whole. |
| JsonNumber.IntTextDecodes | steam-shim/jsoncpp.cpp:750-790 | Decoding inverts printing for every integer from -2^63 to 2^64-1. |
| JsonNumber.DigitsDenote | steam-shim/jsoncpp.cpp:149-155 | The printed digits denote the printed value. |
| JsonNumber.IntTextIsShort | steam-shim/jsoncpp.cpp:135-155 | No integer text is longer than 20 characters, so with its terminator it needs at most 21 of the 25 bytes. |
| JsonNumber.UIntToString | steam-shim/jsoncpp.cpp:149-155 | Writing the digits backwards from the end stays inside the buffer and leaves exactly the digits and a terminator. |
| JsonNumber.ValueToString | steam-shim/jsoncpp.cpp:4143-4165 | Both overloads give the decimal text through the 25-byte buffer, the smallest negative number included. |
| JsonString.NothingToEscape | steam-shim/jsoncpp.cpp:4133-4141 | The two scans find out exactly whether some byte needs an escape. |
| JsonString.ValueToQuotedString | steam-shim/jsoncpp.cpp:4290-4351 | The unescaped shortcut and the escaping loop produce the same quoted text. |
| JsonString.DecodeString | steam-shim/jsoncpp.cpp:825-876 | The loop decodes a string body as the recursive reference does, and fails on the same bodies. |
| JsonEscapes.BodyMeans | steam-shim/jsoncpp.cpp:825-905 | A string body is decoded if and only if it is a sequence of plain bytes, two-character escapes, `\u` escapes outside the high surrogates and pairs of them, up to its end or a bare quote, and then to the bytes of those characters. |
| JsonEscapes.BytesMean | steam-shim/jsoncpp.cpp:834-871 | A `\u` escape, hexadecimal of either case, and a pair become one sequence that a reference UTF-8 decoder (lead byte, then six bits a byte) takes back to the code point; the two-character escapes, `\/` among them, become their character. |
| JsonEscapes.Utf8Decodes | steam-shim/jsoncpp.cpp:105-130 | Every code point up to 0x10FFFF is written as one sequence that decodes to it, of the shortest length. |
| JsonEscapes.Unicode4Means | steam-shim/jsoncpp.cpp:907-933 | Four characters are a code if and only if they are its hexadecimal digits, of either case. |
| JsonEscapes.SpelledStringReads | steam-shim/jsoncpp.cpp:634-644 | A quoted spelling is one string token, whatever follows, and decodes to the bytes of the characters spelled. |
| JsonEscapes.QuotedHasNoControls | steam-shim/jsoncpp.cpp:4290-4351 | No writer leaves a byte below a space in a quoted text, and one changes a text if and only if it has such a byte, a quote or a backslash. |
| JsonString.UnescapeInvertsEscape | steam-shim/jsoncpp.cpp:825-876 | Unquoting a quoted string gives the string back, for every byte string, NUL and control bytes included. |
| JsonString.UnescapeOne | steam-shim/jsoncpp.cpp:4299-4346 | Each escape reads back as its byte, whatever follows. |
| JsonString.Hex4Reads | steam-shim/jsoncpp.cpp:907-933 | Four written hexadecimal digits read back as their number. |
| JsonString.UpToNul | steam-shim/jsoncpp.cpp:4491-4491 | A key that goes through `c_str()` is cut at its first NUL, and only then changed. |
| JsonReader.Reader.GetNextChar | steam-shim/jsoncpp.cpp:967-971 | One character, or NUL without moving at the end. |
| JsonReader.Reader.SkipSpaces | steam-shim/jsoncpp.cpp:512-520 | The cursor stops at the first character that is no white space. |
| JsonReader.Reader.ReadNumber | steam-shim/jsoncpp.cpp:612-633 | The cursor passes digits, fraction and exponent, each optional. |
| JsonReader.Reader.ReadString | steam-shim/jsoncpp.cpp:634-644 | The cursor passes the closing quote, skipping escaped characters, or reports a missing one. |
| JsonReader.Reader.Match | steam-shim/jsoncpp.cpp:522-531 | A literal is consumed whole or not at all. |
| JsonReader.Reader.ReadCStyleComment | steam-shim/jsoncpp.cpp:587-594 | A block comment ends at its first closing mark, or the text ends. |
| JsonReader.Reader.ReadCppStyleComment | steam-shim/jsoncpp.cpp:596-610 | A line comment ends with its line, either kind of line end. |
| JsonReader.Reader.ReadComment | steam-shim/jsoncpp.cpp:533-571 | Either comment, or an error token. |
| JsonReader.Reader.ReadToken | steam-shim/jsoncpp.cpp:441-510 | The cursor version of the tokenizer agrees with the recursive one on token and remaining text. |
| JsonReader.Reader.SkipCommentTokens | steam-shim/jsoncpp.cpp:431-439 | The first token that is no comment. |
| JsonReader.Reader.ReadValue | steam-shim/jsoncpp.cpp:347-429 | With cursor, node stack and depth counter it does what the recursive reader does: same value, same remaining text, same failure, same nesting error; the values below on the stack and the depth come back unchanged. |
| JsonReader.Reader.ReadArray | steam-shim/jsoncpp.cpp:702-738 | The same for arrays. |
| JsonReader.Reader.ReadObject | steam-shim/jsoncpp.cpp:646-700 | The same for objects, duplicate keys and the odd separators included. |
| JsonReader.Reader.Parse | steam-shim/jsoncpp.cpp:305-345 | Parsing a document equals the recursive reader on it, from any earlier state of the reader. |
| JsonSyntax.ReadToken | steam-shim/jsoncpp.cpp:441-510 | A token always consumes text, except the end of the stream; this bounds the reader's recursion. |
| JsonSyntax.ReadValue | steam-shim/jsoncpp.cpp:347-429 | An accepted value consumes text. |
| JsonLexemes.TokensMean | steam-shim/jsoncpp.cpp:441-644 | Past white space, a text is read as a token if and only if it begins with that token as the grammar of its kind spells it: numbers, strings, literals, punctuation and both kinds of comment. |
| JsonLexemes.SpacesMean | steam-shim/jsoncpp.cpp:512-520 | The white space of RFC 8259, section 2, is skipped, and nothing else. |
| JsonLexemes.FractionsAreDoubles | steam-shim/jsoncpp.cpp:750-775 | A number with a fraction or an exponent never takes the integer path. |
| JsonGrammar.AcceptsExactlyTrees | steam-shim/jsoncpp.cpp:347-738 | A value is read from a text, leaving a rest, if and only if a tree of the grammar (with the odd separators of objects, and comments where they pass) within the nesting limit spells it at the front of the text. |
| JsonGrammar.TreeIsRead | steam-shim/jsoncpp.cpp:347-738 | Every such tree is read as its value. |
| JsonGrammar.ReadIsTree | steam-shim/jsoncpp.cpp:347-738 | Whatever is read has such a tree. |
| JsonTokens.TokensRead | steam-shim/jsoncpp.cpp:347-429 | Any text that spells a value's tokens, however spaced, reads as that value, or raises the nesting error, which depends on the value's depth alone. |
| JsonTokens.ObjectTokensRead | steam-shim/jsoncpp.cpp:646-700 | The object part: members are put one by one, later keys overwrite earlier ones. |
| JsonTokens.ArrayTokensRead | steam-shim/jsoncpp.cpp:702-738 | The array part. |
| JsonTokens.ReadBackIsNormal | steam-shim/jsoncpp.cpp:3458-3475 | For trees whose objects are maps, what is read back is the tree with its integers normalised. |
| JsonAccepted.AcceptedIsProper | steam-shim/jsoncpp.cpp:347-429 | Whatever the text, an accepted value has ordered distinct keys, in-range normal numbers, and nests within the limit. |
| JsonAccepted.ProperWithoutDoubles | steam-shim/jsoncpp.cpp:347-429 | Of the accepted values the round trips leave out those with a double in them, and no others. |
| JsonAccepted.RereadIsStable | steam-shim/jsoncpp.cpp:305-345 | Whatever document was accepted (without doubles), writing its value compactly and reading that gives the same value: the nesting limit cannot be met the second time. |
| JsonAccepted.LooseIntegers | steam-shim/jsoncpp.cpp:750-790 | A text the integer path takes is what its value prints as, if and only if it has digits, no spare leading zero and is not "-0"; without digits it denotes 0. RFC 8259, section 6, allows neither a minus without digits nor leading zeros. |
| JsonAccepted.TrailingComma | steam-shim/jsoncpp.cpp:654-696 | Whatever the text, the depth and the members before, a comma before a closing brace, comments about it or not, is accepted if and only if the key before it is empty. |
| JsonAccepted.CommentForComma | steam-shim/jsoncpp.cpp:686-696 | After a member the reader goes on if and only if a comma comes next or a comment does; behind a comment any one token but the closing brace is passed over as the comma. |
| JsonFastWriter.FastWriter.Write | steam-shim/jsoncpp.cpp:4370-4376 | The appended document is the compact text of the value. |
| JsonFastWriter.FastWriter.WriteValue | steam-shim/jsoncpp.cpp:4378-4430 | Each call appends exactly the value's compact text. |
| JsonFastWriter.CompactSpells | steam-shim/jsoncpp.cpp:4378-4430 | Compact text spells the value's tokens and nothing more, before anything that cannot continue a number. |
| JsonFastWriter.NumberTextReads | steam-shim/jsoncpp.cpp:612-633 | A printed integer is read as one number token, and no further. |
| JsonFastWriter.QuotedReads | steam-shim/jsoncpp.cpp:634-644 | A quoted string is read as one string token, and no further. |
| JsonFastWriter.FastRoundTrip | steam-shim/jsoncpp.cpp:4370-4430 | Parsing FastWriter's text gives the tree with its integers normalised exactly when it nests at most 1000 levels, and the nesting error otherwise; with or without YAML colons and the final line feed. |
| JsonFastWriter.WriteThenParse | steam-shim/jsoncpp.cpp:4370-4430 | The same through the two classes. |
| JsonStyledWriter.StyledWriter.Write | steam-shim/jsoncpp.cpp:4438-4447 | From any idle writer state the text is the styled text, and the layout state comes back to idle. |
| JsonStyledWriter.StyledWriter.WriteValue | steam-shim/jsoncpp.cpp:4449-4506 | While child values are collected only flat values arrive and only `childValues_` grows; otherwise the document is extended and indentation and mode come back. |
| JsonStyledWriter.StyledWriter.WriteArrayValue | steam-shim/jsoncpp.cpp:4508-4549 | The same for arrays, both layouts. |
| JsonStyledWriter.StyledWriter.WriteObjectValue | steam-shim/jsoncpp.cpp:4479-4504 | The same for objects; `addChildValues_` is never set when a non-empty one is written. |
| JsonStyledWriter.StyledWriter.WriteOneLine | steam-shim/jsoncpp.cpp:4537-4547 | Reached only with one collected text per item, which is what the assertion at line 4539 demands. |
| JsonStyledWriter.StyledWriter.WriteMultiline | steam-shim/jsoncpp.cpp:4514-4536 | Reached only with nothing collected or one collected text per item, so `childValues_[index]` is in range. |
| JsonStyledWriter.StyledWriter.IsMultilineArray | steam-shim/jsoncpp.cpp:4551-4576 | Decides by size, by nested containers, and by the collected texts' total length, and leaves one text per item unless it decided by size alone. |
| JsonStyledWriter.StyledWriter.Unindent | steam-shim/jsoncpp.cpp:4603-4606 | Requires what the assertion demands; every call meets it. |
| JsonStyledMeaning.StyledSpells | steam-shim/jsoncpp.cpp:4449-4576 | Whatever the indentation and the text before, the styled text spells the tokens of the value with its keys cut at NUL. |
| JsonStyledMeaning.StyledReads | steam-shim/jsoncpp.cpp:4438-4576 | What styled text reads as, for every printable tree. |
| JsonStyledMeaning.StyledMeansTheSame | steam-shim/jsoncpp.cpp:4438-4576 | StyledWriter's text and FastWriter's text mean the same value if and only if no key contains a NUL. |
| JsonStyledMeaning.WriteThenParseStyled | steam-shim/jsoncpp.cpp:4438-4447 | The round trip through the two classes for NUL-free keys. |
| JsonLayout.DocumentIsItsLines | steam-shim/jsoncpp.cpp:4438-4606 | For every printable tree the styled document, cut at its line ends, is the list of lines told from the tree alone: one member or item begun on each, indented by three spaces a level, a comma behind all but the last, closing brackets on their own. |
| JsonLayout.OneLineFits | steam-shim/jsoncpp.cpp:4551-4576 | An array stays on one line if and only if it has at most 24 items, none a container with something in it, and its line is shorter than the margin. |
| JsonLayout.CompactIsItsTokens | steam-shim/jsoncpp.cpp:4386-4430 | FastWriter's text is the texts of the value's tokens with nothing between them. |
| WebPatchMatch.RunLength | dylib/feats/webpatch.c:352-355 | The run of identifier characters is maximal. |
| WebPatchMatch.MatchMeans | dylib/feats/webpatch.c:327-367 | A match of length n exists if and only if the left boundary holds and some consistent choice of whole identifiers for the captures makes the pattern spell those n bytes. |
| WebPatchMatch.MatchFits | dylib/feats/webpatch.c:327-367 | The captures found are such a choice and keep those set before. |
| WebPatchMatch.FittingMatches | dylib/feats/webpatch.c:327-367 | Any choice that fits is found, with the same end: greedy runs lose nothing. |
| WebPatchMatch.MatchExpandsToItself | dylib/feats/webpatch.c:989-1005 | Expanding the find pattern on its own captures gives back the matched bytes. |
| WebPatchMatch.MatchElement | dylib/feats/webpatch.c:337-365 | One turn of the loop over the pattern, filling the capture array. |
| WebPatchMatch.Match | dylib/feats/webpatch.c:327-367 | The array-filling matcher agrees with the reference. |
| WebPatchRewrite.MatchHasPrefix | dylib/feats/webpatch.c:380-394 | Every match begins with the pattern's literal prefix. |
| WebPatchRewrite.CountMatches | dylib/feats/webpatch.c:380-394 | Jumping to the next literal prefix counts what trying every byte counts. |
| WebPatchRewrite.MatchStarts | dylib/feats/webpatch.c:369-378 | Every match begins with a byte that the pattern is marked for. |
| WebPatchRewrite.MarkStart | dylib/feats/webpatch.c:369-378 | The table gains exactly those bytes. |
| WebPatchRewrite.PlainBytesAreCopied | dylib/feats/webpatch.c:2034-2041 | A run of bytes no enabled gate can start with is copied by the plain scan too. |
| WebPatchRewrite.Rewrite | dylib/feats/webpatch.c:2027-2063 | The loop with the 256-entry skip table gives the result of the scan that tries every gate at every byte. |
| WebPatchRewrite.FindHit | dylib/feats/webpatch.c:2042-2058 | The first gate in table order that matches wins, with its captures. |
| WebPatchPieces.RewriteMeans | dylib/feats/webpatch.c:2036-2063 | The pass gives a text if and only if the script cuts into consecutive pieces, each one byte no gate matches at or the match of the first gate that does, and the text is those bytes and the templates of those gates, captures and markers put in, in order. |
| WebPatchPieces.ExpandMeans | dylib/feats/webpatch.c:989-1005 | A template expands to a text if and only if that is, character by character, what each stands for: itself, its marker's text, or what its capture caught. |
| WebPatchPieces.LiteralGateReplaces | dylib/feats/webpatch.c:2036-2063 | One gate of plain text replaces each occurrence, from left to right, and keeps every other byte. |
| WebPatchPieces.CapturesAreApart | dylib/feats/webpatch.c:327-367 | No two captures share a place. |
| WebPatchPieces.CaptureMeans | dylib/feats/webpatch.c:327-360 | A capture catches a whole identifier of letters, digits, "_" and "$": it does not begin with a digit, ends where such a byte no longer follows, and none, nor a dot, stands in front of the pattern. |
| WebPatchPieces.CountIsMost | dylib/feats/webpatch.c:380-394 | No choice of matches that do not overlap has more of them than are counted, |
| WebPatchPieces.CountIsReached | dylib/feats/webpatch.c:380-394 | and some choice has as many. |
| WebPatchFires.MatchesAreOrdered | dylib/feats/webpatch.c:327-367 | Of two matches of one pattern the one that begins later ends no earlier, captures or not. |
| WebPatchFires.CountIsOrdered | dylib/feats/webpatch.c:380-394 | Counting from further on never finds more, and from inside a match at most one more than from its end: the greedy count is the largest. |
| WebPatchFires.FiresAtMostCounted | dylib/feats/webpatch.c:2034-2063 | Whatever the other gates take, no gate fires more often in the common pass than its pattern was counted. |
| WebPatchFires.FiresAsCounted | dylib/feats/webpatch.c:2034-2063 | When no two enabled gates' matches overlap, each fires in the common pass as often as it matches alone. |
| WebPatchFires.HitExpands | dylib/feats/webpatch.c:989-1005 | A template can be expanded with what its pattern captured if and only if it uses no other capture. |
| WebPatchFires.ScanSucceeds | dylib/feats/webpatch.c:2027-2063 | The pass succeeds if and only if every gate that fires uses only captures of its own pattern. |
| WebPatchRewrite.IdentityGates | dylib/feats/webpatch.c:989-1005 | Gates whose template is their own pattern leave every text as it was. |
| WebPatchTransform.Transform | dylib/feats/webpatch.c:1923-2072 | Counting, switching gates, the page and the library filter on, putting the platform lists in front and rewriting together do what the plan and the plain scan say; otherwise the script is left alone. |
| WebPatchTransform.FindShape | dylib/feats/webpatch.c:1933-1944 | The one shape whose probe occurs, or none; two are refused. |
| WebPatchTransform.SwitchOn | dylib/feats/webpatch.c:1948-2006 | A gate is on if and only if it matches as often as its entry says; a mandatory one that does not is reported as drift, and a platform one that does is reported too. |
| WebPatchTransform.SwitchLibrary | dylib/feats/webpatch.c:1965-1980 | The library group is on if and only if all its anchors match and exactly one of its toolbars does. |
| WebPatchTransform.SettlePage | dylib/feats/webpatch.c:1903-1921 | The page's gates stay on if and only if all of them match and its barrel is found, and the rest is untouched. |
| WebPatchPlan.PlanOfOneShape | dylib/feats/webpatch.c:1945-2058 | A script of one shape is left alone if and only if a mandatory gate of it does not count as expected; otherwise exactly the entries whose flags are set take part, in the order shape, fixes, library, each flag told from the counts alone. |
| WebPatchPlan.PlanWithoutShape | dylib/feats/webpatch.c:1945-1986 | A script of no shape is left alone if and only if no fix is on; otherwise the fixes and the library entries that are on take part. |
| WebPatchPlan.PlanOfTwoShapes | dylib/feats/webpatch.c:1933-1944 | A script with the probes of two shapes is left alone. |
| WebPatchTransform.PlanIsAllOrNothing | dylib/feats/webpatch.c:1982-2016 | Every mandatory gate of the shape takes part, the page's gates all or none, and no gate whose count is off. |
| WebPatchTransform.PlatformGoesWithItsLists | dylib/feats/webpatch.c:1948-1964 | The platform lists go in front of the script if and only if a gate that uses them takes part. |
| WebPatchTransform.LibraryIsAllOrNothing | dylib/feats/webpatch.c:1965-2034 | The library button takes part whole, with one toolbar and with the platform lists it needs, or the plan is the one without it. |
| WebPatchTransform.GatesFireAsExpected | dylib/feats/webpatch.c:1948-2063 | No gate of the plan fires more often than its entry says, and each exactly as often when no two overlap. |
| WebPatchTransform.OverlapStarvesAGate | dylib/feats/webpatch.c:2042-2063 | With overlap it may fire less often: in either table order the gate whose match begins further right, counted once, never fires. |
| CallbackQueue.StepKeepsInvariant | lsteamclient/steamclient_main.c:405-485 | Every step of producers and of the innermost drain keeps the hand-over invariant. |
| CallbackQueue.DispatchedInOrder | lsteamclient/unixlib.cpp:52-71 | In every interleaving of producers with one active drain, nested drains allowed, what is dispatched is a prefix of what was enqueued: in order, nothing lost or repeated. |
| CallbackQueue.DispatchFollowsCopy | lsteamclient/steamclient_main.c:409-414 | A dispatch always follows the call that copied the callback in full, and never uses a freshly grown buffer, whatever its memory holds. |
| CallbackQueue.OnlyTheInnermostMoves | lsteamclient/steamclient_main.c:405-485 | A drain that starts comes on top of those under way with nothing in its buffer; only the innermost takes steps, and when it ends the one around it goes on. |
| CallbackQueue.OuterDrainsWait | lsteamclient/steamclient_main.c:405-485 | While a nested drain is under way, whatever else happens, the drains around it wait as they were. |
| CallbackQueue.CopyFits | lsteamclient/unixlib.cpp:303-316 | Every copy fits the memory it is made to. |
| CallbackConsumers.NoneLostOrRepeated | lsteamclient/steamclient_main.c:520-559 | With any number of threads draining at once, as `Steam_BGetCallback` lets them, each callback enqueued is dispatched, in one thread's hand or queued, and none twice. |
| CallbackConsumers.StepMoves | lsteamclient/unixlib.cpp:301-323 | Each step moves callbacks on, in its own thread's order. |
| CallbackConsumers.AnotherConsumerBreaksIt | lsteamclient/steamclient_main.c:405-414 | A run of two threads after which the first dispatches fresh memory, if and only if the callback found is larger than the one grown for and the memory's size field reads at least its size. |
| CallbackConsumers.FreshDispatchExactly | lsteamclient/steamclient_main.c:405-414 | Some run dispatches fresh memory if and only if two threads drain and, of the callbacks there are, one is larger than another and no larger than the memory's size field. |
| CallbackConsumers.OverrunNeedsFresh | lsteamclient/unixlib.cpp:303-316 | As long as no fresh memory has been dispatched every copy fits, whatever the threads do. |
| CallbackConsumers.OverrunExactly | lsteamclient/unixlib.cpp:303-316 | Some run makes a copy that does not fit if and only if some run dispatches fresh memory. |
| CallbackQueue.DrainsTerminate | lsteamclient/steamclient_main.c:405-485 | Every run is bounded by a number computed from its state, the callbacks enqueued and the drains started in it, nested ones included. |
| CallbackQueue.QuietDrainsTerminate | lsteamclient/steamclient_main.c:405-485 | So once producers stop, whether or not callbacks start further drains. |
| CallbackQueue.DrainNeverStuck | lsteamclient/steamclient_main.c:405-485 | A drain always has a step of its own to take. |
| CallbackQueue.Client.Next | lsteamclient/unixlib.cpp:301-323 | The head is removed exactly when it was copied, into memory that holds it; a call with too small a buffer changes nothing. |
| CallbackQueue.Client.ExecutePendingCallbacks | lsteamclient/steamclient_main.c:405-485 | A drain alone hands over the whole queue in order, whatever fresh memory reads. |
| CegMeaning.OnlyTheHelperIsSignalled | dylib/feats/ceg.c:226-294 | In every interleaving of calls and stops a nonzero `g_call_pgid` names an unreaped helper, every signal ever sent reached the helper and never a process with a recycled id, and at most one helper exists. |
| CegMeaning.NothingIsLeftBehind | dylib/feats/ceg.c:395-463 | With no call in flight neither its `.in` nor its `.out` file remains and no helper is left, however the call ended and whenever stop ran. |
| CegMeaning.StopAdmitsAtMostOne | dylib/feats/ceg.c:465-475 | After stop was asked for, at most one more helper starts. |
| CegMeaning.LateStartExactly | dylib/feats/ceg.c:395-475 | A helper can start after the stop flag is set if and only if, at that moment, a call is between its test of the flag and its start. |
| CegMeaning.NoLateStart | dylib/feats/ceg.c:403-411 | A call that tests the flag after it was set starts no helper, in any interleaving. |
| CegMeaning.OneLateHelper | dylib/feats/ceg.c:395-475 | From each of the five places between the test and the start, stop can run to its end, its signal reaching nobody, and the helper starts after that. |
| CegMeaning.CallsMakeProgress | dylib/feats/ceg.c:249-294 | Every step of a call brings it nearer its end; no other step sets it back. |
| CegMeaning.CallNeverStuck | dylib/feats/ceg.c:240-294 | A call can always step, except where it waits for its helper to exit. |
| CegMeaning.StopReaches | dylib/feats/ceg.c:465-475 | Whenever stop gets to its signal, the helper gets it if its group is published, from its first poll until it is reaped, and nobody otherwise; and after stop has removed the active files none of the call's is left. |
| CegMeaning.SignalsExactly | dylib/feats/ceg.c:250-294 | A step sends one signal, to the helper, if it gives the helper up, ends its group or is a stop with a group published; no other step sends any. |
| CegMeaning.ACallIsServed | dylib/feats/ceg.c:395-463 | From an idle service every call can be served: its helper runs, its output is there to be read, nobody is signalled, and the service is idle again. |
| CegMeaning.PidGoesToAStranger | dylib/feats/ceg.c:226-294 | Once the helper is reaped its id may go to another process, and a stop that comes then signals nobody. |
| CegMeaning.StepTracksProcesses | dylib/feats/ceg.c:226-294 | Every step keeps group, helper and process table consistent. |
| CegMeaning.StepTracksFiles | dylib/feats/ceg.c:395-463 | Every step keeps files and active paths consistent. |
| DefaultsText.CanonicalTextIsStable | dylib/feats/defaults.c:109-131 | Canonical text parses to itself with no bad line. |
| DefaultsText.KeptKeysAreDistinct | dylib/feats/defaults.c:109-131 | No key is kept twice. |
| DefaultsText.CanonicalTextIsShort | dylib/feats/defaults.c:140-156 | Canonical text never exceeds 533 bytes, whatever was read. |
| DefaultsText.ClausesAreShort | dylib/feats/defaults.c:63-87 | An accepted DXMT configuration is at most 69 bytes. |
| DefaultsText.TextBuffer.Put | dylib/feats/defaults.c:142-147 | The buffer with its terminator never overflows, and once a piece did not fit nothing more is written. |
| DefaultsText.TextBuffer.ReadLines | dylib/feats/defaults.c:109-156 | The loop counts the bad lines and leaves exactly the canonical text, if that fits. |
| DefaultsText.CheckedBody | dylib/feats/defaults.c:222-247 | A body is made if and only if the text is short enough and has no bad line: the refusal of a body that does not fit is unreachable. |
| DefaultsText.CanonKeepsTheFirst | dylib/feats/defaults.c:107-156 | Of the non-empty lines of a text those are kept, in order and as they stand, that are the first to set their setting to an allowed value; all others are counted as bad. |
| DefaultsText.AcceptedMeans | dylib/feats/defaults.c:90-131 | A line sets a setting if and only if it is the key, "=" and an allowed value of a row for that runner, and the setting was not set before. |
| DefaultsText.SettingsAreTheTable | dylib/feats/defaults.c:20-105 | Keys, runners and values are those of the table. |
| DefaultsText.DxmtConfigIsExact | dylib/feats/defaults.c:63-88 | A configuration is valid if and only if it is a factor clause, a rate clause, or both in either order with one semicolon between. |
| DefaultsApply.BuildOfInvertsPath | dylib/feats/defaults.c:320-352 | A file name is taken for the override of a build if and only if it is the name made for that build, hyphens in the build included. |
| DefaultsApply.NamesAreApart | dylib/feats/defaults.c:133-165 | Override, family and temporary file names never coincide. |
| DefaultsApply.RunnersAreApart | dylib/feats/defaults.c:133-165 | The two runners share no file name. |
| DefaultsApply.NamesInFull | dylib/feats/defaults.c:133-165 | The names written out. |
| DefaultsApply.BuildIdMeans | dylib/util/buildid.h:10-20 | A build name has one to 63 letters, digits, dots and hyphens. |
| DefaultsApply.WritingKeepsEffective | dylib/feats/defaults.c:354-373 | Writing the source build's set to the family file leaves what that build runs with unchanged. |
| DefaultsApply.RemovingKeepsEffective | dylib/feats/defaults.c:320-352 | While overrides are removed in any order, the source build runs with the same set at every step. |
| DefaultsApply.OtherRunnerUntouched | dylib/feats/defaults.c:354-373 | The other runner's builds keep what they run with. |
| DefaultsApply.EffectiveMeans | dylib/feats/defaults.c:288-307 | A build with a file of its own runs with the canonical lines of exactly that file, one without with those of the family file. |
| DefaultsApply.Store.WriteLocked | dylib/feats/defaults.c:181-210 | The family file changes by one rename; a fault leaves the old one. |
| DefaultsApply.Store.RemoveOverrides | dylib/feats/defaults.c:320-352 | Only overrides of this runner go, at every intermediate state; success means none is left. |
| DefaultsApply.Store.ReadSource | dylib/feats/defaults.c:288-307 | Reads the canonical text of what the build runs with, or fails. |
| DefaultsApply.Store.ApplyBuild | dylib/feats/defaults.c:354-373 | Results 1 and -1: the family file is the canonical text of the build's own earlier file if it had one, else of the earlier family file, else empty. Result 1: no override is left, and every build of the runner reads the source's earlier set. Result 0, if and only if one of the listed faults: nothing changed. Result -1: saved, but an override is stuck. At every intermediate state the source's own set is the same and the other runner's files are untouched. |
| ConfSchema.SchemaIsExact | dylib/feats/conf.c:183-272 | A record passes if and only if its required fields are there, every value keeps its rule, and a plugin's setting is a choice, a ladder of two or more, or a proper range. |
| ConfSchema.MissingRequiredIsExact | dylib/feats/conf.c:189-193 | The required-field loop finds a gap if and only if there is one. |
| ConfSchema.BadFieldIsExact | dylib/feats/conf.c:201-227 | The field loop finds a bad value if and only if there is one. |
| ConfSchema.SettingIsExact | dylib/feats/conf.c:240-271 | The branches over `type` accept exactly the allowed shapes. |
| ConfSchema.RefusalNamesTheFault | dylib/feats/conf.c:183-272 | A refused record has the fault its code says, in the field its detail names. |
| ConfSchema.FirstIsNamed | dylib/feats/conf.c:189-227 | The gap named is the first in the table, the bad value the first in the record. |
| ConfSchema.GetMeans | dylib/feats/conf.c:61-67 | A lookup gives the first value under the name, and none if and only if there is none. |
| ConfSchema.CountMeans | dylib/feats/conf.c:69-75 | The count is the number of places with the name. |
| ConfRules.IdMeans | dylib/feats/conf.c:77-91 | A plugin is named NOTPROTON_ and at least one capital, digit or underscore; a variant has up to 64 letters, digits, dots, underscores and hyphens and begins with a letter or digit. |
| ConfRules.EnvMeans | dylib/feats/conf.c:155-162 | NAME=value, the name of capitals, digits and underscores and not beginning with a digit. |
| ConfRules.ToolMeans | dylib/feats/conf.c:141-153 | A tool is a name, or one with a single star behind it. |
| ConfRules.RelMeans | dylib/feats/conf.c:164-171 | A path has no leading slash and no two dots in a row, and where it must name something a character besides slashes and dots. |
| ConfRules.BuildMeans | dylib/feats/conf.c:173-179 | A build has only letters, digits, dots and hyphens. |
| ConfRules.ChoiceMeans | dylib/feats/conf.c:117-127 | The value of a choice is what stands before "=" and the blanks in front of it, or all of it. |
| ConfRules.RulesByName | dylib/feats/conf.c:201-227 | Which fields have a rule of their own, and which. |
| ConfRules.KnownFieldFaults | dylib/feats/conf.c:377-394 | A field of the table is refused for an empty value, a tab, one too many of its name, or no room in the 4096 bytes, in this order, and for nothing else. |
| ConfRules.UnknownFieldFault | dylib/feats/conf.c:371-376 | Any other field is refused, with up to 63 bytes of its name. |
| ConfRecord.PackedAt | dylib/feats/conf.c:390-394 | Where each pair stands in the packed buffer. |
| ConfRecord.Record.Append | dylib/feats/conf.c:385-394 | A pair is added if and only if the 4096 bytes hold it; nothing else changes. |
| ConfRecord.Record.Next | dylib/feats/conf.c:48-59 | Walking the buffer gives exactly the pairs appended, in order, and nothing after the last. |
| ConfRecord.Record.First | dylib/feats/conf.c:61-67 | The first value of a field, from the packed buffer. |
| ConfRecord.Record.CountOf | dylib/feats/conf.c:69-75 | How often a field was given, from the packed buffer. |
| ConfRead.Parse | dylib/feats/conf.c:325-370 | The pointer loops classify a line as the reference does. |
| ConfSpelled.LineMeans | dylib/feats/conf.c:335-373 | Every line: it is read as a field if and only if it is the name, "=" and the value, blanks about each; as a header if and only if it is the id in brackets, blanks about it, whatever follows the last closing one; and as nothing if and only if it is blank, a comment, an opening bracket never closed, or text without "=". |
| ConfRead.Directory.EmitRecord | dylib/feats/conf.c:288-299 | A record is handed on, or refused with the first objection of grammar, schema and directory, in this order. |
| ConfRead.Directory.AddField | dylib/feats/conf.c:371-394 | A field is refused for the first thing wrong with it, or added. |
| ConfRead.Directory.ReadFile | dylib/feats/conf.c:301-398 | The line loop over the packed record does what the state machine says, event for event. |
| ConfSpelled.SpelledFileIsHandedOn | dylib/feats/conf.c:301-398 | A file that spells good records, with blank and comment lines anywhere, hands on exactly these records, in order, with their fields in order, and refuses nothing. |
| ConfOutcome.FileOutcome | dylib/feats/conf.c:288-398 | Every file: its lines spell some records and an ending, and what reading it does is, record by record, the header without an id refused, the record handed on, or refused for its id, its first bad field, its schema, a repeated id or the limit, in this order; an over-long line and a field before the first header end the file and drop the open record. |
| ConfRead.Directory.ReadFiles | dylib/feats/conf.c:409-440 | The files of a directory one after the other, sharing ids and limit. |
| ConfMeaning.DirectoryIsGood | dylib/feats/conf.c:274-299 | Over a whole directory every record handed to a sink keeps its table's cardinalities and the schema, ids are pairwise distinct across files, and at most 32 are handed on. |
| ConfMeaning.LinesKeepGood | dylib/feats/conf.c:322-396 | Every line keeps that invariant. |
| ConfMeaning.EveryHeaderEndsOnce | dylib/feats/conf.c:301-398 | Every non-empty header of a file ends in exactly one of handed on or refused, in the order of the headers, if and only if no line cuts the file short while one is open or before one. |
| ConfMeaning.ReadToTheEndLosesNone | dylib/feats/conf.c:301-398 | A file without over-long lines and without a field before its first header loses none. |
| ConfMeaning.NoHeaderEndsTwice | dylib/feats/conf.c:301-398 | In any file the outcomes are a prefix of the headers: none twice, none out of order. |
| ConfMeaning.FieldFirstLosesHeaders | dylib/feats/conf.c:360-364 | A field before the first header, blank and comment lines aside, ends the file without an outcome for any header after it. |
| CollapsePath.ConvertSlashes | lsteamclient/unixlib.cpp:939-940 | Every forward slash becomes a backslash, in place. |
| CollapsePath.CollapseBackslashes | lsteamclient/unixlib.cpp:942-945 | The in-place squeeze drops exactly the backslashes that follow a kept one. |
| CollapsePath.MoveDown | lsteamclient/unixlib.cpp:955-957 | The overlapping move closes the gap and keeps the terminator. |
| CollapsePath.StepBack | lsteamclient/unixlib.cpp:966-970 | The backward pointer stops at the start of the last directory kept. |
| CollapsePath.SkipName | lsteamclient/unixlib.cpp:988-989 | The forward pointer stops at the end of the component. |
| CollapsePath.TakeName | lsteamclient/unixlib.cpp:988-995 | A directory name loses one trailing dot, and the pointer stands after its backslash. |
| CollapsePath.CutHere | lsteamclient/unixlib.cpp:958-961 | A final dot takes the backslash before it along. |
| CollapsePath.RemoveComponents | lsteamclient/unixlib.cpp:947-996 | The walk that moves forwards and backwards over the buffer ends, and leaves the resolved components. |
| CollapsePath.TrimTrailing | lsteamclient/unixlib.cpp:998-1000 | Trailing dots and spaces go, never past the mark or a backslash. |
| CollapsePath.CollapsePath | lsteamclient/unixlib.cpp:935-1001 | The whole function leaves in the buffer what the component-list specification says. |
| CollapsePathMeaning.CollapsedComponents | lsteamclient/unixlib.cpp:935-1001 | The result is ordinary resolution of "." and ".." that never climbs above the mark, after which directories lose one dot and the last name its dots and spaces. |
| CollapsePathMeaning.ResolveCancels | lsteamclient/unixlib.cpp:962-987 | A directory and the ".." after it cancel wherever they stand among the components. |
| CollapsePathMeaning.PairCancels | lsteamclient/unixlib.cpp:962-987 | The same for the components that are kept. |
| CollapsePathMeaning.CollapseCancels | lsteamclient/unixlib.cpp:935-1001 | The same for texts: a path with `name\..\` after a separator past the mark collapses to what the path without it does. |
| CollapsePathMeaning.ResolveSkipsDots | lsteamclient/unixlib.cpp:952-961 | A "." changes nothing wherever it stands. |
| CollapsePathMeaning.SlashesAreBackslashes | lsteamclient/unixlib.cpp:939-940 | Either slash gives the same result. |
| CollapsePathMeaning.KeptFromNames | lsteamclient/unixlib.cpp:942-945 | After a mark that follows a separator the outcome depends only on the names: runs of separators count as one. |
| CollapsePathMeaning.CollapsedIsTidy | lsteamclient/unixlib.cpp:935-1001 | Never longer, prefix kept apart from slash direction, no forward slash, no doubled backslash from the mark on, no "." component, no dot or space at the end past the mark. |
| CollapsePathMeaning.CollapseAgain | lsteamclient/unixlib.cpp:935-1001 | A second pass changes nothing if and only if no directory that resolution keeps is spelled with two dots at its end. |
| CollapsePathMeaning.LeavesDotDot | lsteamclient/unixlib.cpp:935-1001 | A ".." component is left if and only if a directory spelled "..." survives resolution. |
| CollapsePathMeaning.CollapseTwiceDiffers | lsteamclient/unixlib.cpp:992-993 | Two paths that a second pass changes: "..." becomes "..", which the next pass resolves, and a directory loses a second dot. |
| Backslashes.DoubleInPlace | dylib/hooks/hook_launch.c:74-84 | From the end, no byte is overwritten before it is read; exactly the reserved room is filled and nothing behind it touched. |
| Backslashes.DoubledLength | dylib/hooks/hook_launch.c:86-92 | The room counted is the room needed. |
| Backslashes.DoubleArguments | dylib/hooks/hook_launch.c:114-122 | Count, enlarge and double give the doubled text. |
| Backslashes.DoubleByInsert | steam-shim/steam.cpp:1607-1614 | The forward insertion computes the same text as the backward one. |
| VdfToken.VdfToken | dylib/feats/prefixstate.c:50-65 | The token is decoded, cut to the buffer, and the place after its closing quote returned; without an opening quote the buffer is untouched. |
| VdfToken.TokenMeans | dylib/feats/prefixstate.c:50-65 | A token is read from a line if and only if, behind the first quote, the line spells it item by item (plain characters, a line feed, a tab, any other character behind a backslash) up to the next bare quote. |
| VdfToken.BodyOfDoubled | dylib/feats/prefixstate.c:50-65 | A doubled path reads back up to its first quote. |
| VdfToken.DoubledReadsBack | dylib/feats/prefixstate.c:50-65 | A doubled path reads back whole, with the reader at the closing quote, if and only if it has no quote. |
| VdfToken.LibraryLineReadsBack | steam-shim/steam.cpp:1616-1616 | Both tokens of a written library line come back. |
| LaunchShell.WriteQuoted | dylib/hooks/hook_launch.c:20-34 | Writes the quoted text through an index within four bytes a character and two more. |
| LaunchShell.QuotedReads | dylib/hooks/hook_launch.c:20-34 | Under the quoting rules of section 2.2 of the Shell Command Language any quoted text is one word, the text itself. |
| LaunchShell.Launch | dylib/hooks/hook_launch.c:37-59 | The line splits into exactly `/bin/sh`, `-c` and the command, or the shell and the command, within the computed capacity; no line is made exactly for the listed calls. |
| LaunchShell.SplitsWithSh | dylib/hooks/hook_launch.c:42-57 | The case without a shell of the user's. |
| LaunchShell.SplitsWithShell | dylib/hooks/hook_launch.c:52-57 | The case with one. |
| FunctionStarts.EncodeIsOneGroup | dylib/core/macho.c:140-145 | A ULEB128 number is one group of bytes with its value (section 7.6 of DWARF Version 5). |
| FunctionStarts.ReadDelta | dylib/core/macho.c:136-146 | The inner loop reads one group modulo 2^64, ignoring bits shifted out, overlong groups included. |
| FunctionStarts.BitsOnTop | dylib/core/macho.c:142-143 | Seven more bits below the 64-bit limit add without touching the bits below. |
| FunctionStarts.FunctionBounds | dylib/core/macho.c:123-161 | The walk over the table equals its recursive reference, wrap-around included. |
| FunctionStarts.FindInTable | dylib/core/macho.c:135-158 | On the table of an ascending list the walk sees the list. |
| FunctionStarts.BoundsAreExact | dylib/core/macho.c:123-161 | For every strictly ascending list, with or without a closing zero: the consecutive pair around the address; nothing if and only if the address is before the first start or not before the last. |
| FnCalls.CallsTarget | dylib/feats/webui.c:338-360 | The loop gives the answer of the recursive scan. |
| FnEncodings.WordsAreRecognised | dylib/feats/webui.c:317-346 | For every B, BL, B.cond, BC.cond, CBZ, CBNZ, TBZ, TBNZ, BR and RET of the A64 formats, with every register, condition, bit number and signed displacement, what the masks make of it and the displacement they find. |
| FnEncodings.FullFlowIsTheProcessors | dylib/feats/webui.c:317-360 | The full flow is the processor's for each of these instructions, and the recognised flow is too but for BR and the branches the masks miss. |
| FnEncodings.KnownWordsAreInstructions | dylib/feats/webui.c:317-357 | Every word the masks take for more than straight flow is one of these instructions. |
| FnCalls.ScanIsClosed | dylib/feats/webui.c:338-360 | Where the scan stops, no branch scanned goes past the stop, nothing scanned calls the target, and the stop is an unconditional branch or a return. |
| FnCalls.StoppedMeansNoCall | dylib/feats/webui.c:338-360 | Everything reachable from the entry by fall-through and recognised branches, other than forwards out of the final branch, lies between entry and stop and does not call the target. |
| FnCalls.FoundIsACall | dylib/feats/webui.c:86-91 | A hit is a branch-and-link to the target inside the span. |
| FnCalls.MissedFlow | dylib/feats/webui.c:325-329 | CBNZ and TBNZ, which the comments name, and BC.cond are not recognised as branches. |
| FnCalls.FullFlowStaysInside | dylib/feats/webui.c:317-360 | With those three taken for branches and BR for a jump to any instruction, everything that can run lies between entry and stop and calls nothing, if and only if nothing that runs is a BR, one of the three with a target outside, a branch to below the entry, or the jump at the stop going forwards. |
| FnCalls.CallBehindAMissedBranch | dylib/feats/webui.c:327-329 | A function whose call lies behind such a branch: the scan reports none. |
| FnCalls.CallBehindAJumpTable | dylib/feats/webui.c:355-357 | A jump table whose case lies behind its default: the scan ends at the default and reports none. |
| FnCalls.CallBehindTheStop | dylib/feats/webui.c:348-357 | A jump table without a range check, and a function that opens with a forward jump: the scan ends there and reports none. |
| FnCalls.HitIsReached | dylib/feats/webui.c:341-346 | A hit with no jump and no return before it is reached from the entry. |
| FnCalls.HitWithoutARun | dylib/feats/webui.c:341-346 | With a return before it a hit may be one nothing reaches. |
| FnCalls.RanOutMeansNoneInSpan | dylib/feats/webui.c:341-361 | When the scan runs to its cap, no instruction of the span calls the target. |
| FnCalls.CallBeyondTheSpan | dylib/feats/webui.c:341-361 | A function that falls through the whole span to the call: the scan reports none. |
| ImportStubs.SymbolOf | dylib/core/macho.c:317-347 | The section walk names the slot of the first stub section around the address. |
| ImportStubs.NameMeans | dylib/core/macho.c:282-293 | A slot's entry in the indirect table chooses the symbol, whose offset chooses the text in the strings; that text is its name, except for local and absolute entries. |
| ImportStubs.NoNameExactly | dylib/core/macho.c:282-293 | A slot has no name if and only if its entry is local or absolute, or one of these places is outside its table. |
| ImportStubs.ScanSection | dylib/core/macho.c:366-377 | The inner loop keeps the one address found, and notices a second. |
| ImportStubs.StubFor | dylib/core/macho.c:349-381 | The address of the only stub with the name, 0 when there is none or more than one. |
| ImportStubs.NamedStubs | dylib/core/macho.c:317-381 | When stub sections do not overlap, the stubs found for a name are exactly the addresses inside whole stubs that the other function gives that name: the two are inverses. |
| ImportStubs.SymbolAtStub | dylib/core/macho.c:331-343 | Every stub is named after its own slot. |
| ImportStubs.BytesOfStubs | dylib/core/macho.c:325-343 | An address is inside a section of whole stubs if and only if one of its stubs covers it. |
| SpawnEnv.ListHas | dylib/hooks/hook_spawn.c:103-115 | A non-empty segment is recognised if and only if it is a segment of the list. |
| SpawnEnv.DropOurs | dylib/hooks/hook_spawn.c:117-138 | Writes the foreign segments, joined, within the room of the value, and reports whether one of ours was among them. |
| SpawnEnv.RewriteInsert | dylib/hooks/hook_spawn.c:176-178 | The rewritten entry with its key and terminator stays inside the room of the entry. |
| SpawnEnv.AddEntry | dylib/hooks/hook_spawn.c:166-187 | One entry is dropped, rewritten in the spare room or kept, and the texts already in the spare room stay. |
| SpawnEnv.WithoutInsert | dylib/hooks/hook_spawn.c:141-196 | Through the new array the child reads exactly the filtered environment, all writes inside the reserved room; a NULL result means the filter changes nothing. |
| SpawnEnv.WithInsert | dylib/hooks/hook_spawn.c:49-71 | The insert is appended if and only if there is one and none is there yet. |
| SpawnEnvMeaning.ChildIsClean | dylib/hooks/hook_spawn.c:141-196 | No segment of ours and no block entry is left, and every other entry survives in order; foreign segments survive except in a compat launch, which has no list at all if and only if something was remembered or it was given none. |
| SpawnEnvMeaning.ChildAgain | dylib/hooks/hook_spawn.c:141-196 | Filtering again changes nothing. |
| SpawnEnvMeaning.CleanIsKept | dylib/hooks/hook_spawn.c:166-187 | An entry passes unchanged if and only if it has nothing to filter. |
| SpawnEnvMeaning.OnlyOurBlockListGoes | dylib/hooks/hook_spawn.c:141-196 | Of the entries that list no libraries, the child loses the joystick block list with the remembered value and nothing else. |
| SpawnEnvMeaning.RewrittenSegments | dylib/hooks/hook_spawn.c:117-138 | A rewritten list has exactly the foreign segments it was given, none empty. |
| SpawnEnvMeaning.InsertComesBackOut | dylib/hooks/hook_spawn.c:49-196 | The entry added for programs that keep the insert is filtered out again if and only if the launch is a compat one or the insert has a non-empty segment. |

## Left out

- JsonFastWriter.FastRoundTrip: is about trees without doubles, because printing and reading a double rest on `snprintf` and `sscanf`; the token of a double is kept as text.
- JsonReader.Reader.Parse: does not model collected comments, error messages, error recovery and the partial value a failed parse leaves, or settings other than `Features::all()`; text after the root value is ignored, as in the code.
- JsonReader.Reader.ReadValue: the stack of pointers to values under construction is a stack of values that are stored into their parent when they are done, so aliasing between the two is not modelled.
- JsonFastWriter.FastWriter.WriteValue: does not model dropped null placeholders or strings held as null pointers.
- JsonStyledWriter.StyledWriter.WriteValue: does not model values that carry comments, and sizes are unbounded, so the width of the product `size * 3` is not modelled.
- The duplicate reader and the stream writers of the JSON library, which repeat the modelled ones.
- WebPatchTransform.Transform: gates are abstract entries whose kind says what their place in the source's tables says; the script text that defines the platform lists and the search for the page's component names are parameters, and failed allocations are not modelled.
- CallbackQueue.DispatchedInOrder: is about one thread that drains, with nested drains; sizes are unbounded, so the 32-bit width of the size field is not modelled, and callbacks are abstract entries with a size.
- CallbackConsumers.FreshDispatchExactly: fresh memory reads the same number every time, and what lies past the end of a buffer is not modelled.
- CegMeaning.OnlyTheHelperIsSignalled: nobody but the service call reaps the helper, file contents and the table of apps are not modelled, and only the helper writes the output file.
- DefaultsApply.Store.ApplyBuild: one save at a time, which `g_save_lock` ensures; flushing to disk and symbolic links are not modelled.
- ConfRead.Directory.ReadFile: lines contain no NUL byte, and a file is its list of lines.
- ConfMeaning.DirectoryIsGood: the file names come sorted; the directory listing and the finiteness test of numbers are parameters.
- CollapsePath.CollapsePath: requires the text to reach the mark and to have at least one character, as both callers ensure; with less the code reads past the terminator.
- ImportStubs.NamedStubs: requires stub sections that do not overlap, as a linker lays them out; sections are given where they are mapped, above address 0 and without wrap-around, and the walk over the load commands is a list with a flag for a malformed end.
- FunctionStarts.FunctionBounds: the table is given as its bytes; finding it through the load commands is not modelled.
- FnCalls.FullFlowStaysInside: the target of a BR is any instruction, wherever the BR stands, since what its register holds is not modelled; calls come back to the next instruction, and other instructions that the masks do not know go on to it.
- SpawnEnv.WithoutInsert: failed allocations are not modelled.
- LaunchShell.Launch: expansions inside double quotes are not part of the reference splitter; quoted text never contains any.
- Doubling in `setup_steam_files` is modelled, splitting the library path list and writing the whole file are not.
- The binary VDF reader, the callback size tables, the bump allocator, the prefix state JSON and the slot table of apps would add easier members and are not modelled.
- Hooking, user interface, registry, rendering and installer code.

Nothing was executed.
