# A verified model of the `format` template engine

This project models the core of the C++20 `{}`-template formatting library
(`fmt::format`, `fmt::FormatSpecifier`, `fmt::Formatter`) in Dafny and proves
properties of the model. A call `format("Hello, {}! {:4x}", name, 260)`
goes through four stages:

1. When the format string is built, `count_format_args` scans the template.
   It parses every `{…}` placeholder into a specifier and stores it in an
   array of `3 * Arity` slots.
2. `verify_arg_count` then rejects templates whose placeholders do not fit
   the argument pack.
3. At run time `map_args` wraps each argument in an `Appendable`.
4. `_format_impl` walks the template again. It copies the literal text and
   lets each placeholder's argument append itself as its specifier asks.

The modules follow the source files:

| module | file | models |
|---|---|---|
| `Errors` | errors.dfy | the messages of `_throw_format_error` and the undefined cases, as an `Error` datatype; `Result` and `Outcome` |
| `Detail` | detail.dfy | `detail.hpp`: `is_alpha`, `is_digit`, `to_hex`, `to_octal`, `to_binary`, `to_decimal`, and the base-b reading of digit strings that states what they produce |
| `Specifiers` | specifier.dfy | `FormatSpecifier`: the declarative grammar `Parse`, the imperative state machine `ParseSpecifier` proved equal to it, and `to_number` with 64-bit `size_t` wrap-around |
| `Arguments` | arguments.dfy | the argument kinds (C string, `std::string`, `std::string_view`, fixed-width integers, `char`) |
| `Formatters` | formatter.dfy | `formatter.hpp`: the `Formatter<T>::buf_print` dispatch on the argument's type and layout flag |
| `Scanner` | scanner.dfy | `count_format_args`: the brace search `Lex`, the recording `Record`/`Scan`, and the imperative loop over an `array<Specifier>` |
| `Validation` | validation.dfy | `verify_arg_count` as written and as evidently intended (see Findings), with the meaning of each |
| `Engine` | engine.dfy | `Appendable::append` for strings and integers, `map_args`/`array_fill`, the `MappedArgs` class, `_format_impl` and `format` |

Throwing a `format_error` (or `std::out_of_range` from `array::at`) is
modelled as an `Err`/`Fail` result. In the source these throws happen during
constant evaluation and so are compile errors. Behaviour the source leaves
undefined is also an explicit error here:
- `StrayClosingBrace`: a '}' before the next '{' makes `count_format_args`
  build a `string_view` whose length has wrapped around;
- `ShiftOutOfRange`: a `{:Nx}` width so large that `to_hex` shifts by at
  least the width of the promoted type.

Integers are unbounded in Dafny. `size_t` arithmetic is therefore written
out modulo 2^64 where it matters: in `to_number` and in the length
`right - left - 1` that `_format_impl` passes to `substr`. C++20's
arithmetic right shift is floor division by a power of two.

Two places where the informal description of the library and the code
disagree; the model follows the code:
- `{:x}` gives two hexadecimal digits per byte of the argument's type
  (`"00000104"` for the `int` 260), not the shortest form `"104"`.
- A width given without a fill character (`{:4x}`) sets the fill to
  `'\0'`, not to a space. This is unobservable, because no formatter reads
  the fill.

Also visible in the model: in `format`, only the Hex flag changes how an
integer is written. An octal or binary flag falls through to decimal,
because `Appendable<Integer>` tests only the Hex bit. The octal and
binary conversions are reached only through `Formatter<T>`.

## Model

| member | source | states |
|---|---|---|
| Detail.IndexOfFirst | include/format/format.hpp:796 | `find_first_of` returns the first occurrence: the character does not occur before the returned index |
| Detail.IndexOfAt | include/format/format.hpp:796 | conversely, an index holding the character with none before it is what `find_first_of` returns |
| Detail.IndexOfAbsent | include/format/format.hpp:796-800 | `find_first_of` returns `npos` exactly when the character is absent |
| Detail.FillNibbles | include/format/detail.hpp:24-27 | the nibble loop (j stepping down from `(len-1)*4` by 4) produces exactly the `len` base-16 digits of `n`, most significant first |
| Detail.ToHex | include/format/detail.hpp:17-30 | `detail::to_hex` ignores its length argument and returns `2*sizeof(Type)` hex digits that read back as `n mod 2^(8*sizeof)` (two's complement for negatives) |
| Detail.ToOctal | include/format/detail.hpp:33-40 | `detail::to_octal` returns `len` hex nibbles reading back as `n mod 16^len`; the default `len = 0` gives the empty string |
| Detail.ToBinary | include/format/detail.hpp:42-55 | `to_binary` returns a suffix of the `bitset` string consisting of '0'/'1' whose base-2 reading is `n mod 2^bits`; all zero bits give the full string, and with the default length a non-zero value starts at its first '1' |
| Detail.ToBinaryChoice | include/format/detail.hpp:47-55 | when `len` is below the number of significant bits `to_binary` returns the string from the first '1' (which it starts with), otherwise the full `bitset` string |
| Detail.BitStringValue | include/format/detail.hpp:45-49 | the `bitset` string reads back as the low bits of `n`, in full and from its first '1', and has no '1' exactly when those bits are zero |
| Detail.DigitsValue | include/format/detail.hpp:24-27 | any `len` digits of `n` in base 2^k read back as `n mod 2^(k*len)` |
| Detail.DecimalDigits | include/format/detail.hpp:57-61 | the digits of `std::to_string` of a natural number are non-empty decimal digits with no leading zero unless the number is 0 |
| Detail.DecimalDigitsValue | include/format/detail.hpp:57-61 | the decimal digits of `n` read back as `n` |
| Detail.ToDecimalRoundTrip | include/format/detail.hpp:57-61 | `std::to_string(n)` (optional '-' then digits) reads back as `n` for every integer |
| Detail.LeadingZeros | include/format/detail.hpp:47-51 | dropping leading '0's (the `substr(left)` of `to_binary`) does not change a numeral's value |
| Specifiers.ToSizeT | include/format/specifier.hpp:179-188 | reduction to `size_t` stays below 2^64 and leaves smaller values alone |
| Specifiers.RunEnd | include/format/specifier.hpp:109-115 | the `Size` state ends at the first non-digit after the run start, or at the end |
| Specifiers.ParseErrors | include/format/specifier.hpp:80-101 | "Invalid character in the positional argument" iff a non-digit precedes the first ':'; "Invalid character after ':'" iff the character after it is neither a letter nor a digit |
| Specifiers.ParseSizeFacts | include/format/specifier.hpp:89-115 | a width is recorded iff the `Size` state is entered (a digit after ':', or a fill character with more text after it); it is the run from its start to the first later non-digit, read by `to_number`; otherwise the width is 0 |
| Specifiers.ParseLateErrors | include/format/specifier.hpp:104-182 | "Unexpected additional characters" iff more than one character follows the width run; "Invalid character in number" iff the run starts with a non-digit; "Invalid layout specifier" iff the layout character, a lone one after ':' or the one ending the run, is not one of xobfcp |
| Specifiers.ParsePositionFacts | include/format/specifier.hpp:124-127 | a position is set iff the text is non-empty and does not start with ':', and it is the wrapped decimal value of the text before the first ':' |
| Specifiers.ParseLayoutFacts | include/format/specifier.hpp:138-175 | at most one layout flag is set, and only the one named by the text's last character |
| Specifiers.ParseLayoutSet | include/format/specifier.hpp:138-175 | a successful parse whose last character names a flag sets exactly that flag |
| Specifiers.ParseFillFacts | include/format/specifier.hpp:89-136 | the fill is a space for an empty text or a lone letter after ':', the captured character (or NUL) when a width follows, and NUL when nothing follows ':'; it stays a space only in the first two cases, and a captured fill character always comes with a width |
| Specifiers.ToNumber | include/format/specifier.hpp:177-189 | `to_number` returns the decimal value of the range modulo 2^64, or "Invalid character in number" iff some character is not a digit |
| Specifiers.AccumulateStep | include/format/specifier.hpp:184-185 | one step `value = value*10 + d` in wrapped `size_t` tracks the wrapped value of the longer digit run |
| Specifiers.ParseSpecifier | include/format/specifier.hpp:49-122 | the state machine, including its errors and their order, computes exactly the grammar `Parse` |
| Specifiers.ReadMarks | include/format/specifier.hpp:124-175 | reading the position, width, fill and layout from the marks left by the pass gives exactly `Parse` |
| Specifiers.DecimalReadBack | include/format/specifier.hpp:177-189 | `to_number` of the decimal digits of `n < 2^64` gives back `n` |
| Specifiers.ParseFull | include/format/specifier.hpp:49-176 | `p:fwl` parses to position `p`, fill `f`, width `w` and the layout of `l` |
| Specifiers.ParseWidth | include/format/specifier.hpp:89-115 | `:wl` parses to width `w` and one layout flag, with no position and fill `'\0'` |
| Specifiers.ParsePosition | include/format/specifier.hpp:80-88 | a bare `p` parses to position `p` with no width, and the fill overwritten with `'\0'` |
| Arguments.CStringText | include/format/format.hpp:445-450 | appending a `const char*` copies the characters before the first terminator: a NUL-free prefix followed in the bytes by a NUL, or the whole text when it holds none |
| Formatters.BufPrint | include/format/formatter.hpp:15-75 | `Formatter<T>::buf_print` appends the value's text to `str` and leaves the existing content as it was |
| Formatters.PrintInteger | include/format/formatter.hpp:40-55 | the integer formatter picks the first of hex, octal and binary whose flag is set, else decimal, and appends it |
| Formatters.IntegerTextMeaning | include/format/formatter.hpp:40-55 | hex appends `2*sizeof` digits holding the value's bits; octal appends nothing; binary's bits read back as the value's and start with '1'; decimal reads back as the value |
| Formatters.SettingsIgnored | include/format/formatter.hpp:15-75 | position, width and fill never change what a formatter appends; only the layout flags do |
| Formatters.CharAsInteger | include/format/formatter.hpp:64-75 | every `char` code in -128..127 without the Char flag is formatted exactly as that `int`, and in decimal its text reads back as the code |
| Formatters.CharCodeExample | include/format/formatter.hpp:64-75 | 'A' without flags appends "65" |
| Formatters.CharVerbatim | include/format/formatter.hpp:69-70 | a `char` under the Char flag appends exactly itself |
| Scanner.Resolve | include/format/format.hpp:742-745 | a specifier without a position gets the occurrence index and is marked positioned, with its flags, width, width flag and fill kept; one with a position is kept as is |
| Scanner.CountFormatArgs | include/format/format.hpp:722-754 | succeeds iff the scan does, with the same error otherwise; returns the number of placeholders, which fits the array, stores the k-th resolved specifier in slot k, and leaves later slots untouched |
| Scanner.NextPlaceholder | include/format/format.hpp:731-748 | one round of the loop: the error the scan meets, or the stored specifier and a strictly shorter rest, with the overflow of `args.at` when the slots run out |
| Scanner.ScanCut | include/format/format.hpp:731-748 | one round of the scan: a '}' before the '{' is an error, otherwise the text between the braces is parsed, resolved and stored before the rest is scanned |
| Scanner.ScanDone | include/format/format.hpp:749-751 | text without '{' holds no placeholder and is all tail |
| Scanner.MissingBrace | include/format/format.hpp:736-738 | a '{' with no '}' left fails with "Missing closing brace" |
| Scanner.LexClean | include/format/format.hpp:731-735 | every literal piece and the tail are free of '{', and the text of a well-formed piece is free of '}' |
| Scanner.LexJoin | include/format/format.hpp:730-752 | a brace search that ends normally with no stray piece loses nothing: literal + "{" + text + "}" of the pieces, then the tail, is the template |
| Scanner.RecordShape | include/format/format.hpp:739-746 | a successful recording keeps every piece in order, with its literal and text, and none stray |
| Scanner.RecordSpecs | include/format/format.hpp:741-746 | each recorded specifier is its text parsed, with the position resolved to its occurrence index |
| Scanner.RecordBound | include/format/format.hpp:746 | a successful recording fits the slots left in the array |
| Scanner.RecordCapacity | include/format/format.hpp:746 | the slot count only decides overflow: with fewer slots the recording is the same when the placeholders fit, and fails with the overflow of `args.at` when they do not |
| Scanner.ScanBound | include/format/format.hpp:746 | a successful scan fits the `cap` slots |
| Scanner.ScanJoin | include/format/format.hpp:730-752 | a successful scan's placeholders and tail join back into the template |
| Scanner.ScanPlaceholders | include/format/format.hpp:739-746 | every placeholder of a successful scan is a brace-free literal and a parsed, resolved text; the tail holds no '{' |
| Scanner.ImplicitPositions | include/format/format.hpp:742-745 | the k-th placeholder without an explicit position refers to argument k |
| Scanner.ScanCapacity | include/format/format.hpp:746 | with fewer slots the scan succeeds identically, or overflows exactly when the placeholders do not fit |
| Validation.VerifyArgCount | include/format/format.hpp:691-720 | `verify_arg_count` as written computes `ValidateAsWritten`: the scan's error, or "Too few arguments" / "All positions must be used." over all `3*Arity` slots |
| Validation.VerifyPositions | include/format/format.hpp:691-720 | the corrected check computes `Validate`, which searches only the slots the scan filled |
| Validation.CheckSlots | include/format/format.hpp:695-719 | after the count: too few placeholders or a position beyond the arity fail first, then a gap below the largest position, searched in the first `n` slots |
| Validation.FillSlots | include/format/format.hpp:692-693 | a value-initialised array of `3*Arity` specifiers filled by the scan: the placeholders' specifiers, then default ones |
| Validation.MaxOf | include/format/format.hpp:695-697 | the `accumulate` of positions starting at 0 computes their maximum |
| Validation.BoundsLoop | include/format/format.hpp:703-707 | the "Not enough arguments" loop fails, with that message, exactly when some slot's position exceeds `max` or reaches the arity |
| Validation.NotEnoughUnreachable | include/format/format.hpp:699-707 | once "Too few arguments" has let the largest position through, every slot is at most it and below the arity, so "Not enough arguments" is never raised |
| Validation.AllUsedBelow | include/format/format.hpp:708-719 | the outer loop completes iff every position below the maximum is used in the searched slots |
| Validation.Find | include/format/format.hpp:709-715 | the inner search finds position `i` iff some searched slot has it |
| Validation.MaxPositionBound | include/format/format.hpp:695-697 | the maximum bounds every position and is 0 or itself used |
| Validation.MaxPadding | include/format/format.hpp:692-697 | default padding slots (position 0) do not change the maximum |
| Validation.SlotsPrefix | include/format/format.hpp:692-693 | the first `count` slots are the placeholders' specifiers, and the maximum over all slots is theirs |
| Validation.UsedPadding | include/format/format.hpp:708-715 | padding adds exactly one used position: 0 |
| Validation.CheckMeaning | include/format/format.hpp:699-719 | the check passes iff the arity is at least 1, there are at least `Arity` placeholders, every position is below the arity, and every position below a used one is used (arity 0 never reaches the check in the program; see Left out) |
| Validation.AsWrittenAccepts | include/format/format.hpp:691-720 | a template `verify_arg_count` accepts as written scans, has at least `Arity` placeholders, and every placeholder names an argument |
| Validation.ValidateMeaning | include/format/format.hpp:691-720 | the corrected check accepts exactly the templates that scan, have enough placeholders, refer only to arguments, and leave no gap |
| Validation.AsWrittenDiffers | include/format/format.hpp:708-719 | the two checks differ exactly on templates the source accepts although position 0 is used by padding only; the corrected check then reports "All positions must be used." |
| Validation.ValidateStricter | include/format/format.hpp:691-720 | every template the corrected check accepts, the source accepts |
| Validation.SkippedFirstArgument | include/format/format.hpp:708-719 | `"{1}{1}"` with two arguments: accepted as written, rejected by the corrected check |
| Engine.ToHexSized | include/format/format.hpp:42-48 | `to_hex(n, hex_len)` returns `hex_len` nibbles (default two per byte) reading back as `n mod 16^hex_len`, and is undefined (an error) iff a shift reaches the promoted width |
| Engine.AppendArg | include/format/format.hpp:519-573 | `Appendable::append` appends the argument's text to `str` after the existing content, or fails only as `to_hex` does |
| Engine.MapArgs | include/format/format.hpp:611-620 | `map_args` returns a new array holding the arguments in order |
| Engine.ArrayFill | include/format/format.hpp:596-609 | `array_fill<Index>` stores arguments `Index..` in their slots and leaves the earlier slots unchanged |
| Engine.MappedArgs.constructor | include/format/format.hpp:767-768 | the mapped arguments are the call's arguments, in order |
| Engine.MappedArgs.At | include/format/format.hpp:776-783 | `at(i)` is argument `i` when `i < Arity`, and `std::out_of_range` otherwise |
| Engine.Substr | include/format/format.hpp:805-806 | `substr(pos, count)` yields a prefix of the text from `pos`, of length `count` clamped to what remains |
| Engine.SubstrClamp | include/format/format.hpp:805-806 | `substr(left+1, right-left-1)` with the length wrapped in `size_t` selects exactly the specifier text, to the end when '}' came first |
| Engine.RenderCut | include/format/format.hpp:796-814 | one round of `_format_impl`: the literal, then the substitution, then the rendering of the text after the '}' with the next index |
| Engine.FormatRound | include/format/format.hpp:795-817 | the loop body either finishes with the whole result or shortens the view while preserving what the call will produce |
| Engine.FormatImpl | include/format/format.hpp:790-820 | `_format_impl` appends to `out` exactly the rendering of the template, numbering placeholders from `index` |
| Engine.Format | include/format/format.hpp:822-835 | `format` returns the error of `verify_arg_count` as written, or the rendering of the template into an empty string |
| Engine.AppendSettings | include/format/format.hpp:551-573 | only the flags and the width reach `append`; the position is never looked at |
| Engine.AppendTextMeaning | include/format/format.hpp:519-573 | C strings to their terminator, `std::string` verbatim (its intended behaviour; see Left out), decimal reads back as the value, hex gives exactly `len` digits reading back as `value mod 16^len`; the default length covers the whole type; failure iff Hex with a width too wide for the shift |
| Engine.RecordRender | include/format/format.hpp:790-820 | on a template the scan accepts, `_format_impl` outputs each literal and the argument the scan resolved, formatted by the scanned specifier, then the tail |
| Engine.ScanRender | include/format/format.hpp:722-754 | the above for a whole template: run time and compile time agree on every placeholder |
| Engine.ExpandErrors | include/format/format.hpp:812 | when every position names an argument, the only possible failure is the hex shift |
| Engine.FormattedErrors | include/format/format.hpp:822-835 | a template `verify_arg_count` accepts as written (padding slots included) renders as the expansion of its scan, and its only possible run-time error is the hex shift: no parse error, missing brace or out-of-range index remains |
| Engine.IntendedAgrees | include/format/format.hpp:708-719 | the corrected `format` gives the program's output wherever it accepts; where they differ the program accepted a template that never uses argument 0 and the corrected one reports "All positions must be used." |
| Engine.SkippedFirstFormatted | include/format/format.hpp:822-835 | `format("{1}{1}", a, b)` with two `const char*` prvalues pointing at "a" and "b" outputs "bb" as written; the corrected check rejects it |
| Engine.RenderLiteral | include/format/format.hpp:796-800 | text without '{' is copied verbatim |
| Engine.FormattedNeedsPlaceholder | include/format/format.hpp:699-701 | a template without placeholders is rejected with "Too few arguments" for every non-empty argument pack (the model maps the empty pack, a compile error in the program, to the same error; see Left out) |
| Engine.HexWidthExample | src/main.cc:41-42 | `format("{:4x}", 260)`, the last placeholder and argument of the example program's call on their own, renders as "0104" |

## Left out

- Argument passing: arguments are modelled as values. In the source, `format` deduces `ArgsType` from each argument and `FormatArgs` stores a `std::tuple<ArgsType...>` built from `std::make_tuple<ArgsType...>(...)` (include/format/format.hpp:157-158, 180). For a string literal (`ArgsType = const char(&)[N]`) or a non-const lvalue (`ArgsType = T&`), the tuple that `make_tuple` returns cannot initialise that member, so such calls do not compile; only rvalue arguments (prvalues such as `260` or a `const char*` value) reach the code modelled here. The example program's own call (src/main.cc:41-42) passes the lvalue `foo` and is therefore outside the model; only its `{:4x}` placeholder with `260` is modelled.
- Floating-point arguments (`Appendable<IsFloat>`, `to_float`), and the Float and Pointer flags' effect on output. Floating point is not modelled.
- `std::string_view` and `char` arguments in `format`. The generic `Appendable<Type>` (include/format/format.hpp:502-517) passes a pointer to `buf_print`. For `std::string_view` that selects `Print<const std::string_view*>`, which has no definition, so the call does not compile. For `char` it selects `Print<const char*>` (include/format/format.hpp:444-451), which compiles but appends the bytes from the character's address up to some NUL: undefined behaviour. The model's `Bound` precondition excludes both. `Formatter<T>` handles both and is modelled.
- An empty argument pack: `CountParameterPack` (include/format/format.hpp:90-98) has no case for zero types, so `format` with no arguments does not compile. The model keeps arity 0 and maps it to "Too few arguments", which is what the check would give (the largest position, 0, is not below 0).
- User specialisations of `Formatter` (such as `Foo` and `Point` in the example program) and the whole `print.hpp` output path (streams, `std::cout`).
- The heap and its failures: `new (std::nothrow)`, `delete` in `~MappedArgs`, and allocating a huge `to_hex` result. `MappedArgs` holds the arguments themselves instead of pointers to `Appendable` objects.
- `FormatArgs::estimate_size` and `reserve`: buffer pre-sizing with no effect on the result.
- When the checks happen: the `consteval` constructor runs `verify_arg_count` at compile time. In the model `Format` calls `VerifyArgCount`, the check as written, first, and a failure becomes an error result. The corrected check (see Findings) is offered beside it as `FormattedIntended`, which the program does not have.
- The `Begin` state of `parse_specifier`, which is never entered.
- `_format_impl` appends to `out` in place. The model passes the output as a string value and returns the extended string.
- The occurrence index of `_format_impl` is a `size_t`. Its wrap-around after 2^64 placeholders is not modelled. Every template is required to be shorter than 2^64 characters.
- Engine.ArrayFill: for a `std::string` argument the source binds a dangling pointer. The `std::get` overload on `FormatArgs` (include/format/format.hpp:186-189) returns a copy. `make_appendable` (include/format/format.hpp:591-594) passes that copy to `Appendable<std::string>`, which keeps only its address (include/format/format.hpp:538). The copy is destroyed at the end of the statement at include/format/format.hpp:607, and `append` reads it later (include/format/format.hpp:544), which is undefined behaviour. The model binds the string's value, and `AppendText` appends it: the evidently intended behaviour. C strings and integers are copied by value, so they are unaffected.
- Engine.MappedArgs.At: the source's `at` is `noexcept`, so an out-of-range index ends the program via `std::terminate`. The model returns `ArgumentOutOfRange` instead. `FormattedErrors` shows that no accepted template reaches it.
- Engine.AppendArg: a shift of at least the promoted width inside `to_hex` is undefined behaviour. The model reports it as `ShiftOutOfRange` and does not predict the bytes a compiler would produce.
- Scanner.CountFormatArgs: a '}' before the next '{' builds a `string_view` with a wrapped length, which is undefined behaviour. The model reports it as `StrayClosingBrace`. `_format_impl` uses `substr`, which clamps; that case is modelled as written.

## Findings

| source | as written | input that shows it | evidently intended | confidence | as-written member | corrected member |
|---|---|---|---|---|---|---|
| include/format/format.hpp:708-719 | the search for each position below the maximum scans all `3*Arity` slots. The unfilled slots are default specifiers with position 0, so they always supply position 0 | `format("{1}{1}", a, b)` with `a` and `b` two `const char*` prvalues (or two `int` prvalues): argument `a` is never used, yet the template is accepted | "All positions must be used." should search only the slots the scan filled, rejecting this template | high; not executed | Validation.SkippedFirstArgument | Validation.ValidateMeaning |
