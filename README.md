# zpl JSON5 reader and writer, modelled in Dafny

This project models the JSON5-style parser and the style-preserving writer of the zpl
library (`code/source/json.c`), and proves properties of that model.

- **Comment stripper** (`CommentStrip`). `zpl_json_parse` first makes one pass over the
  text buffer. It overwrites `//` line comments and block comments with blanks, and it
  steps over quoted literals.
- **Parser.** Next comes the recursive-descent parser: `zpl__json_parse_value`,
  `zpl__json_parse_array` and `zpl__json_parse_object`, with the number lexer
  `zpl__json_parse_number`.
  - It is destructive. It ends strings and names by writing terminators into the
    buffer.
  - It records how each member was written: the name quoting, the assignment character
    and padding, and the delimiter and its padding.
- **Writer** (`zpl_json_write`, `zpl__json_write_value`). It walks the tree and prints
  each node back with that recorded formatting.
- **Tree utilities** (`zpl_json_init_node`, `zpl_json_add_at`, `zpl_json_add`,
  `zpl_json_find`). These build and search the tree.

The modules follow the structure of the C file:

- `ZplLib`: the zpl library routines json.c relies on, as small functions. It also covers:
  - trimming and skipping, and C strings;
  - `zpl_str_to_i64` with its 64-bit wrap-around;
  - the C integer casts;
  - the `printf` conversions the writer uses.
- `JsonLex`: the character scans shared by the stripper and the parser:
  - the end of a quoted literal;
  - the assignment and delimiter classes;
  - the end of an unquoted name;
  - `zpl__json_validate_name`.
- `JsonNode`: the tree (`zpl_json_object` as a datatype), with node initialisation,
  checked insertion and find-by-name.
- `CommentStrip`: the stripper as a function of the buffer, its properties, and the
  in-place loop.
- `NumberLexer`: `zpl__json_parse_number`.
  - `LexNumber` is the specification, written on the text.
  - `ParseNumber` is the routine, phase by phase. It copies the literal into the
    48-character scratch `array` and converts it.
- `JsonParse`: the parser as functions of the buffer.
  - Each routine gives back four things: the buffer as it leaves it, the node it filled
    in, what it returns (`Null` or a position) and the error code.
  - `None` stands for a read or write past the buffer. The C leaves that undefined.
- `JsonParseFacts`: lemmas about those functions. They cover:
  - what each container parser changes;
  - the shape of the document root;
  - the value dispatch;
  - closers.
- `JsonParser`: the parser as it runs, as methods over the mutable `array<char>` buffer.
  They mirror the C statement by statement. Each is proved to leave exactly what the
  corresponding `JsonParse` function describes.
- `JsonWriter`: the text the writer produces, as functions of the node. The output file
  is a `Sink` class whose `text` grows with every `zpl_fprintf`. The writer methods
  append exactly that text, call by call.
- `JsonRoundTrip`: what the writer's output means to the parser. Each of these parses
  back to the same value or style:
  - integers, in hex and in decimal;
  - `true`, `false` and `null`;
  - `NaN`, `-NaN`, `Infinity` and `-Infinity`;
  - strings;
  - assignments;
  - delimiters.

Conventions of the model:

- **Buffer.** A buffer is a `seq<char>`, or an `array<char>` in the methods, whose last
  character is the terminator NUL.
- **Tree.** A node is a value. Its `nodes` pointer is `NullArray` or `Items(children)`.
  The `name` and `string` pointers become copies of the C strings they point to, taken
  when their terminator is written.
- **Errors.** The error code starts at `ERROR_NONE` in every routine, because each caller
  returns as soon as it is set. So the code a routine leaves is the one it sets itself.

The code is modelled as written, with one exception: the comment stripper that the parser's
entry point uses is the corrected one (see "## Findings"). The most visible places where
the code's behaviour differs from the usual description of the format:

- **Wrong error code.** `{"a" 1}` fails with INVALID_NAME inside the object parser. At the
  top level, `zpl_json_parse` then overwrites that code with INVALID_VALUE, because the
  root is not in cfg_mode and the parse returned NULL.
- **Missing values are accepted.** In `{"a": }` and `[1, , 2]` the value dispatch finds a
  character that starts no value (`}`, `,`). It returns the cursor unchanged and sets no
  error, so `[1, , 2]` gets a zeroed (Object-kind) middle element. A trailing comma, as in
  `[1, ]`, is accepted for a different reason: the array loop tests for `]` at its head,
  before any value is parsed, and appends nothing.
- **Some characters are skipped or ignored.**
  - **Stray characters in an object:** a member that starts with a character that is
    neither a quote, a letter, `_`, `$` nor `[` loses that character. The value is read
    from one past it.
  - **After a member:** a character after a member's value that is no delimiter and no
    closer starts the next member. It is not rejected.
- **Numbers.**
  - Only a real that begins with its point gets IS_PARSED_REAL. `1.5` keeps the props it
    had.
  - `0x1.8` is a Real, not an Integer.
  - `1e5` is the Integer 1. The integer loop takes `e5` as hex digits, and the base-10
    conversion stops at the `e`.
  - The padding `0` after the point is added only when no digit follows the point.
- **Names.** Quoted names go through `zpl__json_validate_name` too, not only unquoted ones.
- **Nesting.** A nested object may be closed by `]`. The closer checks consult only the
  flags of the object being parsed.
- **Arrays.** A document that starts with `[` always keeps an Array root. The replacement
  of the root by its first child (json.c:91-94) never happens; `DocumentRoot` proves this.

## Model

| member | source | states |
|---|---|---|
| ZplLib.ToI32 | code/source/json.c:512 | `(zpl_i32)x` keeps every value in the signed 32-bit range |
| ZplLib.ToU8 | code/source/json.c:685 | `cast(zpl_u8)x` keeps every value in 0..255 |
| ZplLib.ToI64 | code/source/json.c:516 | storing the unsigned accumulation as `zpl_i64` keeps every value in the signed 64-bit range |
| ZplLib.ToLower | code/source/json.c:483 | upper-case letters become lower-case letters; every other character is unchanged |
| ZplLib.StrToI64 | code/source/json.c:512-530 | `zpl_str_to_i64`: the value of the leading digits in the base, negated after a leading `-`; exact whenever it fits in 64 bits (the wrap beyond is `ToI64`'s) |
| ZplLib.Trim | code/source/json.c:634 | `zpl_str_trim` stays in the buffer and stops at a non-blank, or at a newline when asked to catch it |
| ZplLib.TrimPassesBlanks | code/source/json.c:634 | every character `zpl_str_trim` passes is a blank, and not a newline it was asked to catch |
| ZplLib.TrimBlanks | code/source/json.c:684-685 | trimming at a run of k blanks ends exactly k characters on, so a measured width is the number of blanks |
| ZplLib.Skip | code/source/json.c:52 | `zpl_str_skip` returns the first `c` or terminator at or after the cursor, and no earlier character is either |
| ZplLib.ControlSkip | code/source/json.c:666 | `zpl_str_control_skip` stops at the terminator, or at a `c` not escaped by a backslash when `c` is a control character |
| ZplLib.ControlSkipPasses | code/source/json.c:666 | no character `zpl_str_control_skip` passes is such a stop, so the stop is the first one |
| ZplLib.CStr | code/source/json.c:667-668 | the C string at `b` is the slice up to the next terminator and holds no NUL |
| ZplLib.NatDigits | code/source/json.c:344-349 | the digits `%lld`/`%llx` print are a non-empty run of digits of the base, without `x` |
| ZplLib.Dec | code/source/json.c:348 | `%lld` prints a non-empty text without `x` that starts with a digit, or with `-` exactly when the value is negative |
| ZplLib.ZeroPad | code/source/json.c:362-366 | `%0*d` with value 0 prints only zeros: one, or `w` when `w` > 1 |
| ZplLib.Spaces | code/source/json.c:291 | `zpl___ind(w)` prints `w` blanks, none for a negative count |
| ZplLib.NatDigitsValue | code/source/json.c:348 | the printed digits of `n` have the value `n` |
| ZplLib.DecScansBack | code/source/json.c:348 | `zpl_str_to_i64` with base 0 reads back every 64-bit value that `%lld` printed |
| ZplLib.HexScansBack | code/source/json.c:346 | `zpl_str_to_i64` with base 0 reads back every 64-bit value that `0x%llx` printed, negative ones included |
| JsonLex.QuoteEnd | code/source/json.c:556-559 | the scan for a closing quote stops at the first `c` or terminator not preceded by a backslash; `None` when it would run off the buffer |
| JsonLex.QuoteAfter | code/source/json.c:559 | the `while (*(e-1) == '\\')` test goes on scanning exactly after an escaped stop |
| JsonLex.QuoteEndFirst | code/source/json.c:556-559 | the closing quote found is the first unescaped `c` or terminator from the opening quote on: none comes before it |
| JsonLex.QuoteAfterFirst | code/source/json.c:556-559 | the same for the scan resumed after a stop: no unescaped `c` or terminator lies between its start and the quote found |
| JsonLex.QuoteAfterEscaped | code/source/json.c:556-559 | a stop directly after a backslash sends the scan on from the next character, which is still inside the buffer |
| JsonLex.QuoteEndPlain | code/source/json.c:556-559 | a literal without backslashes ends at the next copy of its quote |
| JsonLex.QuoteScan | code/source/json.c:556-559 | the closing-quote scan on the live buffer, as the stripper and the string reader run it, returns the position `QuoteEnd` gives on the text |
| JsonLex.QuoteNext | code/source/json.c:556-559 | one turn of that loop on the live buffer: after an escaped stop the scan resumes at the next character, inside the buffer, with the same outcome |
| JsonLex.NameEnd | code/source/json.c:675-677 | an unquoted name ends at the terminator, or at a character that is neither alphanumeric nor `_` |
| JsonLex.NameEndRun | code/source/json.c:675-677 | every character of the unquoted name before that end is alphanumeric or `_`, so the end is the first such stop |
| JsonLex.EscapeTest | code/source/json.c:273-274 | evaluated in C's short-circuit order, the test is true exactly on a backslash followed by a character that is not a control character, with no hex digit among the four characters after the backslash |
| JsonLex.ValidateName | code/source/json.c:271-283 | `zpl__json_validate_name` from `b`: the empty name is accepted, and a rejection always has a position carrying the rejected pattern (both directions are `ValidateNameMeaning`) |
| JsonLex.ValidateNameMeaning | code/source/json.c:271-283 | `zpl__json_validate_name` accepts exactly the names in which no position carries that pattern (both directions) |
| JsonLex.NoBackslashValid | code/source/json.c:271-283 | a name without a backslash is accepted |
| JsonNode.InitNode | code/source/json.c:171-181 | the node is zeroed with the given name and kind; it has an empty child array exactly when it is an Object or an Array |
| JsonNode.AddAt | code/source/json.c:183-200 | fails (NULL) exactly on a NULL, non-container or array-less parent or an index outside 0..count; otherwise one fresh node at `index`, earlier children kept, later ones shifted by one, nothing else changed |
| JsonNode.Add | code/source/json.c:202-212 | the same guards; the fresh node is appended after the last child |
| JsonNode.FirstNamed | code/source/json.c:153-157 | the direct scan stops at the first child with the name, and no earlier child has it |
| JsonNode.Find | code/source/json.c:147-169 | NULL for non-Objects; a hit is a path through Objects to a node with the name; a shallow search hits exactly when a direct child has the name, and then the first one |
| JsonNode.FindIn | code/source/json.c:159-166 | the deep loop returns a path below a child at or after `j` that ends at a node with the name |
| JsonNode.FirstNamedAppend | code/source/json.c:153-157 | appending a child does not change the scan before it |
| JsonNode.FindComplete | code/source/json.c:159-166 | a deep search succeeds whenever a node with the name is reachable through Objects |
| JsonNode.FindInComplete | code/source/json.c:160-165 | the deep loop reaches every child unless an earlier one hits |
| JsonNode.FindFirstHit | code/source/json.c:160-165 | a deep hit below child `i` is the pre-order first one: every earlier child's search fails |
| JsonNode.FindInFirstHit | code/source/json.c:160-165 | the same for the deep loop from child `j` |
| JsonNode.AddThenFind | code/source/json.c:202-212 | a child added under a fresh name is found by a shallow search as the last child, and it is the initialised node |
| CommentStrip.Blank | code/source/json.c:53 | `zpl_memset(p, ' ', e-p)` blanks exactly [p, e) and keeps the length |
| CommentStrip.StripStep | code/source/json.c:41-65 | one pass blanks only non-terminators from the cursor, and moves the cursor forward; it reads past the buffer only inside a quoted literal |
| CommentStrip.StripFrom | code/source/json.c:40-66 | the loop keeps the length and the terminator, and changes characters only into blanks |
| CommentStrip.StripAsWritten | code/source/json.c:38-66 | the stripper as written only blanks characters |
| CommentStrip.Strip | code/source/json.c:38-66 | the corrected stripper only blanks characters |
| CommentStrip.FromReached | code/source/json.c:40-66 | once the loop reaches a cursor, the rest of the loop decides every character from there on |
| CommentStrip.ReachesNext | code/source/json.c:40-66 | the loop reaches the next cursor of every pass that does not end it |
| CommentStrip.StepEffect | code/source/json.c:41-65 | one pass's blanks, the untouched characters it steps over, and the rest of the loop make up the final buffer |
| CommentStrip.QuotedUntouched | code/source/json.c:41-50 | a quoted literal, from its quote to its first unescaped closing quote, is left unchanged |
| CommentStrip.LineCommentBlanked | code/source/json.c:51-55 | a `//` run is blanked up to, and not including, the next newline or terminator |
| CommentStrip.BlockStep | code/source/json.c:56-64 | a block opener is blanked through the star-slash only when the first star after it is followed by a slash; otherwise the cursor moves on by one |
| CommentStrip.QuoteStep | code/source/json.c:41-50 | the pass at a quote steps to one past the first unescaped closing quote |
| CommentStrip.LineStep | code/source/json.c:51-55 | the pass at `//` blanks to the end of the line and steps past the newline |
| CommentStrip.PlainStep | code/source/json.c:65 | any other character is stepped over |
| CommentStrip.BlockCommentBlanked | code/source/json.c:57-61 | a closed block comment is blanked through its closing slash |
| CommentStrip.UnclosedBlockComment | code/source/json.c:63 | an opener whose first star has no slash after it is kept, and the cursor moves on by one |
| CommentStrip.BlockCommentResumes | code/source/json.c:59-61 | after a closed block comment the loop continues `resume` characters past the closing slash: for the corrected stripper, at the very next character |
| CommentStrip.AsWrittenBlanksString | code/source/json.c:59-61 | on `/**/"//"` the stripper as written blanks the string's `//"`, and the corrected one leaves it alone |
| CommentStrip.AsWrittenOverruns | code/source/json.c:59-61 | on `/**/` right before the terminator the stripper as written steps past the buffer (undefined), and the corrected one blanks the comment and stops |
| CommentStrip.StepKeeps | code/source/json.c:40-66 | the loop's bookkeeping: before the cursor the buffer is final, from it on original, across each pass |
| CommentStrip.StripComments | code/source/json.c:38-66 | the in-place loop leaves exactly the corrected stripper's result |
| CommentStrip.PassAt | code/source/json.c:41-65 | one pass in place blanks [p, hi) of `StripStep` and returns its next cursor |
| CommentStrip.LinePass | code/source/json.c:52-54 | the line-comment pass blanks to the newline and returns one past it |
| CommentStrip.BlockPass | code/source/json.c:57-63 | the block-comment pass blanks through the star-slash, or steps over the opener |
| CommentStrip.BlankRange | code/source/json.c:53 | the memset in place equals `Blank` |
| NumberLexer.DigitsEnd | code/source/json.c:509 | a digit loop stops at the first non-digit and takes only digits |
| NumberLexer.RunEnd | code/source/json.c:483 | the integer-part loop takes exactly the hex digits and `x`/`X` characters |
| NumberLexer.LeadingZeros | code/source/json.c:527 | the count of `'0'` characters a string begins with |
| NumberLexer.Sign | code/source/json.c:466-470 | the sign handling copies `-` or nothing |
| NumberLexer.SignHandling | code/source/json.c:466-470 | a leading `-` is exactly what makes the copied integer part begin with `-`; a `+` is never copied |
| NumberLexer.ScanMantissa | code/source/json.c:466-497 | the mantissa stays in the buffer, and a literal that begins with its point is a real |
| NumberLexer.PointFirst | code/source/json.c:472-480 | a literal that begins with its point moves the cursor past it |
| NumberLexer.IntegerPart | code/source/json.c:482-496 | a literal that begins with digits does not begin with the point |
| NumberLexer.ScanExponent | code/source/json.c:504-513 | the exponent copies only digits, and a negative sign is recorded only when the scan moved past it |
| NumberLexer.LexNumber | code/source/json.c:452-541 | the result is an Integer or a Real, the cursor is not behind the start, the name, children, string and recorded styles are untouched, and the behaviour is undefined exactly when the scratch buffer or `expbuf` overflows |
| NumberLexer.KindByPoint | code/source/json.c:472-496 | a number is a Real exactly when a point is read after the sign or after the integer run |
| NumberLexer.IntegerHasNoExponent | code/source/json.c:515-518 | an Integer never reads an exponent (`e`/`E` are hex digits), so the scaling loop never runs |
| NumberLexer.BarePointReadsZero | code/source/json.c:466-495 | after an integer part, signed or not (`1.`, `-1.`, `+1.`), a point with no digit after it is read as `.0`, and the cursor stops just past the point |
| NumberLexer.CursorAdvances | code/source/json.c:452-541 | every lexed literal covers at least its first character |
| NumberLexer.RealSideFields | code/source/json.c:522-536 | a real gets these fields: `base2_offset` grows by the zeros right after the point; `base`/`base2` are the two halves' values; `lead_digit` is set when a digit came first; a non-zero exponent sets IS_EXP, `exp` and `exp_neg` |
| NumberLexer.ParseNumber | code/source/json.c:452-541 | the routine, loop by loop over the 48-character scratch buffer, returns exactly `LexNumber`'s node and cursor |
| NumberLexer.Scratch | code/source/json.c:464 | `char buf[48] = { 0 }` is a fresh, all-terminator buffer |
| NumberLexer.MantissaChars | code/source/json.c:466-497 | the copied text has no point or terminator before the point and only digits after it |
| NumberLexer.IntegerValue | code/source/json.c:515-516 | an Integer takes `zpl_str_to_i64(buf, 0, 0)` of the copied text |
| NumberLexer.SplitReal | code/source/json.c:522-536 | the real branch sets exactly the side-fields `RealParts` gives for the two halves |
| NumberLexer.Halves | code/source/json.c:522-525 | overwriting the point leaves the integer part and the fraction as two C strings |
| NumberLexer.FindPoint | code/source/json.c:523 | `while (*qp != '.')` stops at the point, after the integer part |
| NumberLexer.SplitHalves | code/source/json.c:523-525 | once the point is a terminator, the buffer holds both halves as C strings |
| NumberLexer.CountZeros | code/source/json.c:526-527 | the zero-counting loop adds the fraction's leading zeros to `base2_offset` |
| NumberLexer.Put | code/source/json.c:469 | `buf[ib++] = c` appends one character to the copied text |
| NumberLexer.CopyMantissa | code/source/json.c:466-497 | the sign and mantissa loops copy exactly `ScanMantissa`'s text and shape the node |
| NumberLexer.CopySign | code/source/json.c:466-470 | the sign step copies `Sign` and leaves the cursor at `AfterSign` |
| NumberLexer.CopyPointFirst | code/source/json.c:472-480 | the leading-point branch copies `0`, the point and the digits |
| NumberLexer.CopyIntegerPart | code/source/json.c:482-496 | the integer-part branch copies the run and any fraction |
| NumberLexer.CopyFraction | code/source/json.c:485-495 | the point, the digits after it, and a `0` when there are none |
| NumberLexer.CopyDigits | code/source/json.c:509 | a digit copy loop copies exactly the digit run |
| NumberLexer.CopyRun | code/source/json.c:483 | the integer-part loop copies exactly the hex-digit-and-x run |
| NumberLexer.ReadExponent | code/source/json.c:504-513 | the exponent is `(zpl_i32)zpl_str_to_i64(expbuf, NULL, 10)` of the copied digits (0 without `e`), with its sign and the cursor after it |
| NumberLexer.ExponentDigits | code/source/json.c:509-512 | the exponent digits copied into `expbuf` and converted |
| JsonParse.Value | code/source/json.c:543-623 | the buffer keeps its length and gains only terminators; the cursor is not behind the start; NULL comes only with an error; after `[` the cursor moves forward |
| JsonParse.StringValue | code/source/json.c:549-564 | a quoted value never sets an error, and changes the buffer only at or after its quote |
| JsonParse.Quoted | code/source/json.c:560-564 | the closing quote becomes the terminator and the cursor lands one past it |
| JsonParse.Keyword | code/source/json.c:565-601 | the keyword branch never writes to the buffer |
| JsonParse.Hit | code/source/json.c:568-596 | a matched keyword moves the cursor by exactly its length |
| JsonParse.ArrayValue | code/source/json.c:604-611 | the `[` branch only writes terminators, and a non-NULL result is past the `[` |
| JsonParse.ObjectValue | code/source/json.c:612-619 | the `{` branch only writes terminators |
| JsonParse.Elements | code/source/json.c:412-449 | `zpl__json_parse_array` only writes terminators, and without an error returns a cursor at a `]` inside the buffer; its error cases are the lemmas `AfterNoComma`, `AfterElementError`, `ElementLoopAtEnd` and `ElementsNeedCloser` |
| JsonParse.ElementLoop | code/source/json.c:420-446 | the same for the array loop from any cursor |
| JsonParse.AfterElement | code/source/json.c:431-445 | the same after an element |
| JsonParse.Members | code/source/json.c:625-758 | `zpl__json_parse_object` only writes terminators, and without an error returns a cursor inside the buffer |
| JsonParse.MemberLoop | code/source/json.c:640-757 | the same for the loop from any cursor |
| JsonParse.MemberValue | code/source/json.c:650-712 | one member moves the cursor forward, and a `[` member sets `starts_with_bracket` |
| JsonParse.NamedValue | code/source/json.c:656-712 | a named member writes only past its first character |
| JsonParse.HeadValue | code/source/json.c:711-712 | the value after a member's head writes only past the member's first character |
| JsonParse.AfterMember | code/source/json.c:716-757 | after a member, the loop only writes terminators and, without an error, returns inside the buffer |
| JsonParse.Delimit | code/source/json.c:720-754 | the delimiter step never writes, and going on keeps the cursor inside the buffer |
| JsonParse.Closing | code/source/json.c:739-754 | the closer test never writes, and stopping without an error stays inside the buffer |
| JsonParse.MemberHead | code/source/json.c:656-703 | a member's name and assignment only write terminators, keep the member's first character, and without an error stop inside the buffer; names and styles are the lemmas `MemberHeadNames` and `MemberHeadNameless` |
| JsonParse.Assign | code/source/json.c:683-709 | the assignment and name check only write terminators at or after the name's end; the style, width and INVALID_NAME cases are the lemmas `AssignBadOperator` and `AssignIs` |
| JsonParse.NameEnded | code/source/json.c:701-709 | the terminator after an unquoted name and the name check only write terminators, at or after the name's end; what they decide is the lemma `NameEndedIs` |
| JsonParse.ParseDocument | code/source/json.c:69-94 | the parsed buffer keeps its length and terminator, and each character stays or becomes a terminator |
| JsonParseFacts.ElementLoopChildrenOnly | code/source/json.c:420-446 | the array loop changes nothing in its node but the children |
| JsonParseFacts.AfterElementChildrenOnly | code/source/json.c:431-445 | the same after an element |
| JsonParseFacts.CommaChildrenOnly | code/source/json.c:437-440 | the same when a `,` continues the loop |
| JsonParseFacts.AfterComma | code/source/json.c:437-440 | after an element and a `,` the loop goes round again with the element appended |
| JsonParseFacts.AfterNoComma | code/source/json.c:441-445 | after an element and anything but `,` the loop stops with the element appended, at that character: without an error at `]`, with INVALID_VALUE at anything else, the end of the input included |
| JsonParseFacts.AfterElementError | code/source/json.c:429-431 | an element that failed ends the array loop with its error and NULL, the element not appended |
| JsonParseFacts.ElementLoopAtEnd | code/source/json.c:420-446 | the end of the input where an element or `]` is due is INVALID_VALUE |
| JsonParseFacts.ElementLoopCloser | code/source/json.c:420-425 | a `]` at the loop's head (after blanks) ends the array with no error and nothing appended, so a trailing comma is accepted |
| JsonParseFacts.ElementLoopEmptySlot | code/source/json.c:420-437 | an empty slot (a `,` where an element is due) appends a zeroed element and the loop resumes after that comma |
| JsonParseFacts.ElementsNeedCloser | code/source/json.c:412-449 | an array with no `]` after its opener never parses without an error |
| JsonParseFacts.MemberLoopChildrenOnly | code/source/json.c:640-757 | the object loop changes nothing in its node but the children |
| JsonParseFacts.MemberLoopOn | code/source/json.c:640-718 | at a character that is no closer, the loop parses one member and goes on with the delimiter step after it |
| JsonParseFacts.AfterMemberChildrenOnly | code/source/json.c:716-757 | the same after a member |
| JsonParseFacts.DelimitChildrenOnly | code/source/json.c:720-737 | the delimiter changes only the last child's delimiter fields |
| JsonParseFacts.ElementsShape | code/source/json.c:416-418 | `zpl__json_parse_array` makes its node an Array before anything else, and changes nothing else but the children |
| JsonParseFacts.MembersShape | code/source/json.c:634-638 | after blanks, `{` makes the node an Object, `[` an Array, and anything else keeps its kind |
| JsonParseFacts.MembersFrom | code/source/json.c:631-640 | the object parser runs its loop from past the opener on an emptied node of that kind |
| JsonParseFacts.MembersIs | code/source/json.c:631-640 | the same, as an equation |
| JsonParseFacts.DocumentRoot | code/source/json.c:72-94 | the root is an Array exactly when the document starts with `[`, so the root replacement never happens; it is in cfg_mode exactly when the document starts with neither `{` nor `[` |
| JsonParseFacts.UnrecognisedLead | code/source/json.c:549-622 | a character that starts no value leaves everything as it was: the same cursor, no error |
| JsonParseFacts.UnknownWord | code/source/json.c:565-601 | a word that is none of the seven keywords gives INVALID_VALUE and NULL; a keyword gives no error and moves the cursor forward |
| JsonParseFacts.EmptyContainer | code/source/json.c:604-619 | `[ ]` and `{ }`, blanks allowed inside, only set the node's kind: the buffer and the children are left as they were, and the cursor lands one past the closer |
| JsonParseFacts.MemberLoopWrongCloser | code/source/json.c:642-648 | at a member's head, `]` in a brace object or `}` in a bracket one is INVALID_VALUE |
| JsonParseFacts.WrongCloser | code/source/json.c:739-752 | after a delimiter, a closer of the wrong kind is INVALID_VALUE with NULL |
| JsonParseFacts.MemberHeadNames | code/source/json.c:656-681 | `"` gives the double-quoted style and `'` the single-quoted one, the name being the C string after the quote; a letter, `_` or `$` gives the unquoted style, the name (once accepted) being the C string from that character |
| JsonParseFacts.MemberHeadNameless | code/source/json.c:656-705 | a member that starts with any other character has no name and no assignment: the head leaves the buffer, the node and the cursor as they were |
| JsonParseFacts.HeadAssign | code/source/json.c:657-709 | the assignment keeps the name style; a quoted name and the buffer are kept, and an accepted unquoted name is the C string from its start |
| JsonParseFacts.AssignBadOperator | code/source/json.c:683-691 | a character after the name's blanks that is neither the terminator nor `:`, `=` or `\|` is INVALID_NAME with NULL, the buffer unwritten, the width the number of blanks cast to u8 |
| JsonParseFacts.AssignIs | code/source/json.c:683-709 | otherwise `=` gives Equals, `\|` the line style and anything else Colon, the width is the number of blanks cast to u8, and the result is INVALID_NAME with NULL exactly when `zpl__json_validate_name` rejects the name, the cursor at the assignment character otherwise |
| JsonParseFacts.NameEndedIs | code/source/json.c:701-709 | only the name changes; an unquoted name is terminated and is the C string from its start, a quoted one leaves the buffer alone; INVALID_NAME with NULL exactly when the name is rejected, the assignment character as cursor otherwise |
| JsonParser.JsonDocument | code/source/json.c:24-97 | comment stripping (the corrected stripper) and parsing keep the buffer's length and terminator |
| JsonParser.Parse | code/source/json.c:24-97 | a NULL root or source is ERROR_OBJECT_OR_SOURCE_WAS_NULL with nothing changed; otherwise the stored root, the buffer and the error are those of `JsonDocument` |
| JsonParser.ParseDoc | code/source/json.c:69-96 | the document shape and parse in place leave exactly `ParseDocument`'s buffer, root and error |
| JsonParser.ParseValue | code/source/json.c:543-623 | `zpl__json_parse_value` in place leaves exactly what `Value` describes |
| JsonParser.ParseString | code/source/json.c:549-564 | the string branch in place, as `StringValue` |
| JsonParser.ParseKeyword | code/source/json.c:565-601 | the keyword branch, as `Keyword` |
| JsonParser.ParseArrayValue | code/source/json.c:604-611 | the `[` branch in place, as `ArrayValue` |
| JsonParser.ParseObjectValue | code/source/json.c:612-619 | the `{` branch in place, as `ObjectValue` |
| JsonParser.ParseArray | code/source/json.c:412-449 | `zpl__json_parse_array`'s loop in place, as `Elements` |
| JsonParser.ElementStep | code/source/json.c:420-446 | one pass of the array loop, as `ElementLoop` |
| JsonParser.ElementTail | code/source/json.c:433-445 | the append and the `,` test, as `AfterElement` |
| JsonParser.ParseObject | code/source/json.c:625-758 | `zpl__json_parse_object` in place, as `Members` |
| JsonParser.MemberLoopRun | code/source/json.c:640-757 | the object loop in place, as `MemberLoop` |
| JsonParser.MemberStep | code/source/json.c:640-755 | one pass of the object loop, as `MemberLoop` |
| JsonParser.ParseMember | code/source/json.c:650-712 | one member in place, as `MemberValue` |
| JsonParser.MemberTail | code/source/json.c:718-754 | the append and the delimiter, as `AfterMember` |
| JsonParser.NamedMember | code/source/json.c:656-712 | a named member in place, as `NamedValue` |
| JsonParser.HeadThenValue | code/source/json.c:711-712 | the value after the head in place, as `HeadValue` |
| JsonParser.ParseMemberHead | code/source/json.c:656-703 | the name and assignment in place, as `MemberHead` |
| JsonParser.QuotedName | code/source/json.c:657-670 | a quoted name: its closing quote becomes a terminator, as `MemberHead` |
| JsonParser.ScanName | code/source/json.c:675-677 | the unquoted name's `do ... while` stops at `NameEnd` |
| JsonParser.ParseAssign | code/source/json.c:683-699 | the assignment in place, as `Assign` |
| JsonParser.EndName | code/source/json.c:701-709 | the name's terminator and check in place, as `NameEnded` |
| JsonParser.CheckName | code/source/json.c:705 | `zpl__json_validate_name` returns `ValidateName`'s verdict |
| JsonParser.ParseDelimiter | code/source/json.c:720-754 | the delimiter and closer, as `Delimit` |
| JsonWriter.Sink.constructor | code/source/json.c:99 | the output file starts empty |
| JsonWriter.Sink.Append | code/source/json.c:105 | one `zpl_fprintf` appends its text and nothing else |
| JsonWriter.Indent | code/source/json.c:103 | `zpl___ind(x)` appends `x` blanks, none for a negative `x` |
| JsonWriter.ObjectText | code/source/json.c:99-126 | the text of `zpl_json_write`: at least one character per member, and three more (`{`, a newline, `}`) outside cfg_mode; its opening and the cfg_mode layout are `BracedOpening` and `CfgTopLevelUnbraced` |
| JsonWriter.MembersText | code/source/json.c:110-117 | the text of the first `j` members: at least one character for each |
| JsonWriter.ValueText | code/source/json.c:286-410 | the text of `zpl__json_write_value`: a named member's text ends its line (that it starts one level deeper is `MemberIndent`) |
| JsonWriter.HeadText | code/source/json.c:290-318 | empty exactly for an inline value; otherwise it ends with the blank after the assignment |
| JsonWriter.NameText | code/source/json.c:292-304 | the name, with one quote of its style on each side, the same on both, or unquoted |
| JsonWriter.AssignText | code/source/json.c:306-316 | blanks, then `:`, `=` or `\|` by the style, then one blank; at least one blank and as many as recorded before `=` or `\|`, none before `:` |
| JsonWriter.DelimText | code/source/json.c:389-409 | always ends with a newline; holds `,` exactly for a comma-style member that is not the last, and `\|` exactly for the line style |
| JsonWriter.PayloadText | code/source/json.c:320-387 | a string is its text between two `"`, a multi-line string its text between back-ticks, an array starts with `[` and ends with `]` |
| JsonWriter.ElementsText | code/source/json.c:329-340 | after `j` elements, none of them the last, the text ends with `, ` (that the full list ends with the last element's bare text is `LastElementBare`) |
| JsonWriter.ElementText | code/source/json.c:332-339 | an element that is not the last is followed by `, ` |
| JsonWriter.BracedOpening | code/source/json.c:103-105 | outside cfg_mode an object's text opens with the indent of one level up, then `{` and a newline |
| JsonWriter.CfgTopLevelUnbraced | code/source/json.c:103-126 | a top-level cfg_mode object is written without braces: its members one level up, then the closing indent |
| JsonWriter.MemberIndent | code/source/json.c:288-291 | a named member's text opens with the indent of one level deeper |
| JsonWriter.LastElementBare | code/source/json.c:332-339 | the last array element is written with no `, ` after it: the elements' text ends with that element's own text |
| JsonWriter.IntegerText | code/source/json.c:344-349 | starts with a digit or `-`, and has `x` second exactly when the integer is hex-styled |
| JsonWriter.RealText | code/source/json.c:352-372 | the exponent form starts like a number and holds `e`; the parsed-digit form starts with a digit, `-` or `.` and holds `.` |
| JsonWriter.ConstantText | code/source/json.c:378-386 | at least four lower-case letters, the first `t`, `f` or `n` by the constant |
| JsonWriter.Write | code/source/json.c:99-126 | `zpl_json_write` appends exactly `ObjectText`; a NULL node appends nothing |
| JsonWriter.WriteObject | code/source/json.c:103-125 | on a node, it appends the opening, the members and the closing |
| JsonWriter.WriteOpen | code/source/json.c:103-108 | `indent - 4` blanks and `{` with a newline unless in cfg_mode, which moves the members 4 columns left |
| JsonWriter.WriteClose | code/source/json.c:119-125 | blanks and `}` when indented, `}` and a newline at the top level, nothing for a cfg_mode top level |
| JsonWriter.WriteMembers | code/source/json.c:110-117 | each child in order as a named value; the last one marked last |
| JsonWriter.WriteMember | code/source/json.c:114-116 | one turn of the loop over the children extends the written text from `i` members to `i + 1` |
| JsonWriter.WriteValue | code/source/json.c:286-410 | the head, the payload and the delimiter of `ValueText`, at `indent + 4` |
| JsonWriter.WriteHead | code/source/json.c:290-318 | blanks, the name and the assignment, or nothing inline |
| JsonWriter.WriteEnd | code/source/json.c:389-409 | the delimiter, or nothing inline |
| JsonWriter.WriteName | code/source/json.c:292-304 | the name in its recorded quotes |
| JsonWriter.WriteAssign | code/source/json.c:306-316 | `": "`, or at least one blank then `= ` or `\| ` |
| JsonWriter.WriteDelim | code/source/json.c:391-408 | `,` and a newline except after the last comma-style member, a newline, or blanks and `\|` with a newline |
| JsonWriter.WritePayload | code/source/json.c:320-387 | the value by kind: strings in `"` or a back-tick, arrays, integers, reals, objects, constants |
| JsonWriter.WriteElements | code/source/json.c:329-342 | `[`, the elements inline, each but the last followed by `, `, and `]` |
| JsonWriter.WriteElement | code/source/json.c:332-339 | one turn of the element loop extends the written text from `j` elements to `j + 1` |
| JsonWriter.WriteElementText | code/source/json.c:332-339 | one element at indent 0 for containers and -4 otherwise, and `, ` unless it is the last |
| JsonWriter.WriteReal | code/source/json.c:352-372 | a real by its props, the formats taken literally |
| JsonRoundTrip.IntegerTextShort | code/source/json.c:344-349 | a printed 64-bit integer has at most 20 characters, or 16 hex digits, so it fits the 48-character scratch buffer |
| JsonRoundTrip.IntegerMantissa | code/source/json.c:482-483 | on a printed integer, the mantissa loops copy exactly its text and stop after it |
| JsonRoundTrip.NoExponent | code/source/json.c:504 | no exponent follows a finished number |
| JsonRoundTrip.ValueOfLexed | code/source/json.c:602-603 | a digit, or a `-` before one, sends the value to the number lexer |
| JsonRoundTrip.LexIntegerFrom | code/source/json.c:515-516 | a copied integer text without exponent becomes an Integer of its value |
| JsonRoundTrip.LexInteger | code/source/json.c:452-541 | the number lexer on an integer literal gives its value, hex exactly when it begins `0x` |
| JsonRoundTrip.HexLiteral | code/source/json.c:346 | `0x%llx` prints an integer literal that scans back to the signed value |
| JsonRoundTrip.DecLiteral | code/source/json.c:348 | `%lld` prints an integer literal that scans back to the value |
| JsonRoundTrip.IntegerReadsBack | code/source/json.c:344-350 | a written integer parses back to the same value, hex exactly when it was hex, with the cursor just past it |
| JsonRoundTrip.ValueOfKeyword | code/source/json.c:565 | a letter, or a `-` before a non-digit, sends the value to the keyword table |
| JsonRoundTrip.ConstantReadsBack | code/source/json.c:378-386 | written `true`, `false` and `null` parse back to the same constant |
| JsonRoundTrip.SpecialRealReadsBack | code/source/json.c:353-360 | written `NaN`, `-NaN`, `Infinity` and `-Infinity` parse back to a Real with the same props |
| JsonRoundTrip.NaNWord | code/source/json.c:568-591 | `NaN` reaches its own entry of the keyword table |
| JsonRoundTrip.NaNNegWord | code/source/json.c:568-596 | `-NaN` is not taken for `-Infinity` and reaches its own entry |
| JsonRoundTrip.InfinityWord | code/source/json.c:568-581 | `Infinity` reaches its own entry |
| JsonRoundTrip.InfinityNegWord | code/source/json.c:568-586 | `-Infinity` reaches its own entry |
| JsonRoundTrip.ValueOfQuote | code/source/json.c:549 | a quote sends the value to the string reader |
| JsonRoundTrip.QuotedReadsBack | code/source/json.c:549-564 | a quoted text without its quote, backslashes or NUL parses back to the same text, with the closing quote made a terminator |
| JsonRoundTrip.QuoteEndAt | code/source/json.c:556-559 | the closing-quote scan stops right after such a text |
| JsonRoundTrip.TextAt | code/source/json.c:554-563 | once the closing quote is a terminator, the string is the text |
| JsonRoundTrip.StringValueIs | code/source/json.c:549-564 | the string reader ends at the closing quote `QuoteEnd` finds |
| JsonRoundTrip.QuotedIs | code/source/json.c:561-564 | the kind is MultiString exactly for a back-tick |
| JsonRoundTrip.StringPayload | code/source/json.c:321-327 | a String is written in `"` and a MultiString in back-ticks |
| JsonRoundTrip.StringReadsBack | code/source/json.c:321-327 | a written String or MultiString parses back to the same kind and text |
| JsonRoundTrip.AssignReadsBack | code/source/json.c:306-316 | a written assignment reads back with the same style and a width equal to the blanks written; the cursor is left on the assignment character, which one written blank follows |
| JsonRoundTrip.AssignAt | code/source/json.c:683-685 | the assignment scan stops at the written `:`, `=` or `\|` |
| JsonRoundTrip.DelimReadsBack | code/source/json.c:391-408 | a written delimiter reads back into the last member only: the same style, except that the last comma-style member's bare newline reads as a newline delimiter; a `\|` line keeps its width |
| JsonRoundTrip.DelimAt | code/source/json.c:720-723 | the delimiter scan stops at the written `,`, `\|` or newline |
| JsonRoundTrip.DelimMarks | code/source/json.c:723-736 | a delimiter character marks only the last member |

## Left out

- JsonParser.JsonDocument: with `handleComments` it runs the corrected stripper
  (`CommentStrip.Strip`), not the one json.c:59-61 implements. The two differ when a block
  comment is directly followed by a character the stripper must examine: a quote, a
  comment opener, or the terminator (see "## Findings").
- JsonParser.Parse: composes `JsonDocument`, so it carries the same difference.
- **Floating point.**
  - The `zpl_f64 real` payload is not modelled. This covers `zpl_str_to_f64`, the scaling
    by `eb`, and the INFINITY and NAN values.
  - The writer's `%f` fallback is a parameter, `fixed: Node -> string`.
- **Reals when read back.** The model does not claim that a written real reads back as the
  same real. The `IS_EXP` and `IS_PARSED_REAL` formats are modelled literally as ISO C
  formats them, with the arguments as passed. Three consequences:
  - the leading-digit form prints `base2_offset` as its integer part;
  - `%0*d` with value 0 always prints a zero;
  - IS_EXP always prints a sign.
- **Output.** File and stream plumbing is left out. The output file is the `Sink` text. The
  model also omits `zpl_json_write_string`, allocators, `backing`, and the `zpl_array`
  growth details.
- **`zpl_json_free`.** It only releases memory.
- **Setters.** The typed setters (`zpl_json_set_*`), the inserters (`zpl_json_inset_*`)
  and `zpl_json_str_to_flt` are one-line assignments around `InitNode` and `Add`.
- **Undefined behaviour becomes a `None` outcome.** `None` is the outcome of a read or
  write past the buffer. The methods require an outcome that is not `None`. The cases:
  - a quoted literal, or a `//` comment, that runs to the end of the buffer, when the
    cursor steps past the terminator;
  - the name check reading past a trailing backslash;
  - in the stripper as written, a block comment closing right before the terminator
    (`AsWrittenOverruns`): the cursor steps past the terminator;
  - overflow of the 48-character scratch buffer or of `expbuf`.
- **Preconditions.**
  - `zpl_json_find` is specified only where it stays defined. Every Object it inspects
    needs a child array, and every child it compares needs a name (`Searchable`).
  - The writer requires named members and strings with text (`Writable`). It also requires
    every Array it writes to have a child array. A parsed `[]` has none (`NullArray`), and
    the C then calls `zpl_array_count` on NULL; writing it is left out.
- **Debug hooks.** `ZPL_JSON_ASSERT` and `ZPL_ASSERT` are not modelled. The model takes
  the error return that follows them.
- **The `err_code` pointer is always present.** With a NULL `err_code` the C code goes on
  parsing after errors. That variant is not modelled.
- **Library routines.** The zpl routines that are not part of this model are stated as
  assumptions in `ZplLib`:
  - `zpl_strchr` also finds the NUL character, so NUL is an assignment, delimiter and
    quote character for the C code;
  - `zpl_char_is_control` is the set of escape codes, NUL included;
  - `zpl_str_to_i64` accumulates in an unsigned 64-bit value and wraps;
  - `printf` follows ISO C.
- **Enumeration values.** The header that defines the enumerations is not part of this
  model. The zero value of each is taken to be its first member.
- **The writer's quoting.** The writer never produces single-quoted strings.
  `StringReadsBack` covers texts without their quote, backslashes or NUL.
- **The root replacement** (json.c:91-94) is not modelled as live behaviour. It cannot
  happen (`DocumentRoot`), and the method has `assert false` there.

## Findings

| source | as written | input that shows it | evidently intended | confidence | as-written member | corrected member |
|---|---|---|---|---|---|---|
| code/source/json.c:59-61 | after a closed block comment, `e += 2` already points past the closing slash, and `p += (e-p)+1` then skips one more character unexamined | `/**/"//"` followed by a newline: the quote after the comment is skipped, so `//"` is taken for a line comment and blanked, breaking the string | scanning resumes right after the closing slash (`p = e`) | not executed | CommentStrip.StripAsWritten (counterexample lemmas CommentStrip.AsWrittenBlanksString and CommentStrip.AsWrittenOverruns) | CommentStrip.Strip (CommentStrip.BlockCommentResumes, CommentStrip.QuotedUntouched; used by JsonParser.JsonDocument and CommentStrip.StripComments) |
