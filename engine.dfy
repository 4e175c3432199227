/** The run-time half of `fmt::format`: the arguments are wrapped in
    `Appendable` objects (`map_args`), then `_format_impl` walks the
    template once more, copying the literal text and appending each
    placeholder's argument as its specifier asks. */
module Engine {
  import opened Errors
  import opened Detail
  import opened Specifiers
  import opened Arguments
  import opened Scanner
  import opened Validation

  /** The arguments of a call: every one of a kind `format` can bind, and
      in the range of its type. */
  predicate Bound(table: seq<Arg>) {
    forall k :: 0 <= k < |table| ==> table[k].Bindable() && table[k].WellFormed()
  }

  /** The nibble count of `to_hex(n, hex_len)`: the given length, or two
      per byte of the type when the default argument is used. */
  function HexLength(w: Width, hexLen: Option<nat>): nat {
    match hexLen
    case None => 2 * w.Bytes()
    case Some(len) => len
  }

  /** Whether every shift `n >> j` of `to_hex` stays below the width of
      the promoted type: the first and largest is `(len - 1) * 4`, and
      there is none when `len` is 0. */
  predicate ShiftDefined(w: Width, len: nat) {
    len == 0 || 4 * (len - 1) < w.PromotedBits()
  }

  /** What `Appendable<Type>::append` appends for one argument: a C string
      up to its terminator, a `std::string` in full, and an integer as
      `to_hex` under the Hex flag (with the width as nibble count when one
      is given) or as `std::to_string` otherwise. A shift that would reach
      the promoted width is undefined in the source and fails here. */
  function AppendText(arg: Arg, spec: Specifier): Result<string>
    requires arg.Bindable() && arg.WellFormed()
  {
    if arg.CString? then Ok(CStringText(arg.bytes))
    else if arg.StdString? then Ok(arg.text)
    else if spec.IsHex() then
      var len := HexLength(arg.width, if spec.hasSize then Some(spec.size) else None);
      if ShiftDefined(arg.width, len) then Ok(Digits(arg.value, 4, len)) else Err(ShiftOutOfRange)
    else Ok(ToDecimal(arg.value))
  }

  /** `prefix` in front of a successful result. */
  function Extend(prefix: string, r: Result<string>): Result<string> {
    match r
    case Ok(s) => Ok(prefix + s)
    case Err(e) => Err(e)
  }

  /** The text one placeholder of `_format_impl` appends: its specifier
      parsed, the position defaulting to the occurrence index `index`
      (without `has_position_` being set), the argument at that position
      looked up with `at`, and appended. */
  function Substitute(text: string, table: seq<Arg>, index: nat): Result<string>
    requires Bound(table)
  {
    match Parse(text)
    case Err(e) => Err(e)
    case Ok(parsed) =>
      var spec := if parsed.hasPosition then parsed else parsed.(position := index);
      if spec.position >= |table| then Err(ArgumentOutOfRange)
      else AppendText(table[spec.position], spec)
  }

  /** What `_format_impl` produces from the pieces of the template, the
      `index`-th placeholder first: each literal and its substitution in
      turn, then the text after the last '{' or "Missing closing brace". */
  function Render(pieces: seq<Piece>, end: Result<string>, table: seq<Arg>, index: nat): Result<string>
    requires Bound(table)
    decreases |pieces|
  {
    if pieces == [] then end
    else
      match Substitute(pieces[0].text, table, index)
      case Err(e) => Err(e)
      case Ok(t) => Extend(pieces[0].literal + t, Render(pieces[1..], end, table, index + 1))
  }

  /** What `format` returns: the template is checked by `verify_arg_count`,
      as written, when the format string is built and then rendered with
      the arguments. */
  function Formatted(fmt: string, args: seq<Arg>): Result<string>
    requires Bound(args)
  {
    match ValidateAsWritten(fmt, |args|)
    case Fail(e) => Err(e)
    case Pass => Render(Lex(fmt).pieces, Lex(fmt).end, args, 0)
  }

  /** `format` with the corrected check, which also rejects a template that
      leaves the first argument unused. */
  function FormattedIntended(fmt: string, args: seq<Arg>): Result<string>
    requires Bound(args)
  {
    match Validate(fmt, |args|)
    case Fail(e) => Err(e)
    case Pass => Render(Lex(fmt).pieces, Lex(fmt).end, args, 0)
  }

  /** The output of the placeholders recorded by the scan: each literal,
      then its argument as its resolved specifier asks. */
  function Expand(ps: seq<Placeholder>, tail: string, table: seq<Arg>): Result<string>
    requires Bound(table)
    decreases |ps|
  {
    if ps == [] then Ok(tail)
    else if ps[0].spec.position >= |table| then Err(ArgumentOutOfRange)
    else
      match AppendText(table[ps[0].spec.position], ps[0].spec)
      case Err(e) => Err(e)
      case Ok(t) => Extend(ps[0].literal + t, Expand(ps[1..], tail, table))
  }

  // ---------------------------------------------------------------------
  // The imperative engine.

  /** `detail::to_hex` of format.hpp: `hexLen` nibbles of `n` (two per
      byte when no length is given), each `(n >> j) & 0x0f` with `j`
      stepping down from `(hexLen - 1) * 4`. */
  method ToHexSized(n: int, w: Width, hexLen: Option<nat>) returns (r: Result<string>)
    ensures r.Ok? <==> ShiftDefined(w, HexLength(w, hexLen))
    ensures r.Err? ==> r.error == ShiftOutOfRange
    ensures r.Ok? ==> r.value == Digits(n, 4, HexLength(w, hexLen))
    ensures r.Ok? ==> |r.value| == HexLength(w, hexLen) && BaseValue(r.value, 16) == n % Pow2(4 * HexLength(w, hexLen))
  {
    var len := if hexLen.Some? then hexLen.value else 2 * w.Bytes();
    if !ShiftDefined(w, len) {
      return Err(ShiftOutOfRange);
    }
    var digits := FillNibbles(n, len);
    DigitsValue(n, 4, len);
    assert Radix(4) == 16;
    return Ok(digits);
  }

  /** `Appendable<Type>::append` for the three bindable kinds: appends to
      `str` and leaves what was there untouched. */
  method AppendArg(str: string, arg: Arg, spec: Specifier) returns (r: Result<string>)
    requires arg.Bindable() && arg.WellFormed()
    ensures r == Extend(str, AppendText(arg, spec))
  {
    match arg {
      case CString(bytes) =>
        return Ok(str + CStringText(bytes));
      case StdString(text) =>
        return Ok(str + text);
      case Integer(_, w, value) =>
        if spec.IsHex() {
          var digits := ToHexSized(value, w, if spec.hasSize then Some(spec.size) else None);
          if digits.Err? {
            return Err(digits.error);
          }
          return Ok(str + digits.value);
        }
        return Ok(str + ToDecimal(value));
      case StringView(_) =>
        assert false;
      case Character(_) =>
        assert false;
    }
  }

  /** `MappedArgs`: one `Appendable` per argument, in order, built by
      `map_args`; `at` looks one up and throws when the index is out of range. */
  class MappedArgs {
    const slots: array<Arg>
    ghost const args: seq<Arg>

    ghost predicate Valid()
      reads this, slots
    {
      slots[..] == args
    }

    constructor(args: seq<Arg>)
      ensures Valid() && this.args == args
    {
      var arr := MapArgs(args);
      slots := arr;
      this.args := args;
    }

    /** `MappedArgs::at`: the argument at `index`, or `std::out_of_range`. */
    function At(index: nat): (r: Result<Arg>)
      requires Valid()
      reads this, slots
      ensures index < |args| ==> r == Ok(args[index])
      ensures index >= |args| ==> r == Err(ArgumentOutOfRange)
    {
      if index < slots.Length then Ok(slots[index]) else Err(ArgumentOutOfRange)
    }
  }

  /** `map_args`: a new array holding the arguments in order. */
  method MapArgs(args: seq<Arg>) returns (arr: array<Arg>)
    ensures fresh(arr) && arr[..] == args
  {
    arr := new Arg[|args|];
    ArrayFill(arr, args, 0);
  }

  /** `array_fill<Index>`: stores the arguments from `index` on and recurses
      on `index + 1` until the arity is reached; earlier slots keep their contents. */
  method ArrayFill(arr: array<Arg>, args: seq<Arg>, index: nat)
    requires arr.Length == |args| && index <= |args|
    modifies arr
    ensures arr[..index] == old(arr[..index])
    ensures arr[index..] == args[index..]
    decreases |args| - index
  {
    if index < |args| {
      arr[index] := args[index];
      ArrayFill(arr, args, index + 1);
      assert arr[index..] == [args[index]] + arr[index + 1..];
      assert args[index..] == [args[index]] + args[index + 1..];
    }
  }

  /** The result of one round of `_format_impl`: either the call is over,
      or the output so far and the rest of the template. */
  datatype Progress = Finished(result: Result<string>) | Continue(out: string, rest: string)

  /** `_format_impl`: appends the rendering of `fmt` to `out`, numbering
      the placeholders from `index`. */
  method FormatImpl(fmt: string, mapped: MappedArgs, out: string, index: nat) returns (r: Result<string>)
    requires mapped.Valid() && Bound(mapped.args) && |fmt| < SizeTModulus
    ensures r == Extend(out, Render(Lex(fmt).pieces, Lex(fmt).end, mapped.args, index))
  {
    var view := fmt;
    var acc := out;
    var i := index;
    while view != []
      invariant |view| < SizeTModulus
      invariant Extend(out, Render(Lex(fmt).pieces, Lex(fmt).end, mapped.args, index)) ==
        Extend(acc, Render(Lex(view).pieces, Lex(view).end, mapped.args, i))
      decreases |view|
    {
      var step := FormatRound(view, mapped, acc, i);
      match step {
        case Finished(result) =>
          return result;
        case Continue(more, rest) =>
          acc, view, i := more, rest, i + 1;
      }
    }
    assert Lex(view) == Lexed([], Ok([]));
    assert acc + [] == acc;
    return Ok(acc);
  }

  /** One round of the `_format_impl` loop on the non-empty text `view`. */
  method FormatRound(view: string, mapped: MappedArgs, acc: string, index: nat) returns (p: Progress)
    requires view != [] && |view| < SizeTModulus
    requires mapped.Valid() && Bound(mapped.args)
    ensures p.Finished? ==> p.result == Extend(acc, Render(Lex(view).pieces, Lex(view).end, mapped.args, index))
    ensures p.Continue? ==> |p.rest| < |view|
    ensures p.Continue? ==>
      Extend(acc, Render(Lex(view).pieces, Lex(view).end, mapped.args, index)) ==
      Extend(p.out, Render(Lex(p.rest).pieces, Lex(p.rest).end, mapped.args, index + 1))
  {
    var left := IndexOf(view, '{');
    if left == |view| {
      assert Lex(view) == Lexed([], Ok(view));
      return Finished(Ok(acc + view));
    }
    var right := IndexOf(view, '}');
    if right == |view| {
      assert Lex(view) == Lexed([], Err(MissingClosingBrace));
      return Finished(Err(MissingClosingBrace));
    }
    var text := Substr(view, left + 1, (right - left - 1) % SizeTModulus);
    var rest := view[right + 1..];
    RenderCut(view, left, right, mapped.args, index);
    var parsed := ParseSpecifier(text);
    if parsed.Err? {
      return Finished(Err(parsed.error));
    }
    var spec := parsed.value;
    if !spec.hasPosition {
      spec := spec.(position := index);
    }
    var literal := view[..left];
    var arg := mapped.At(spec.position);
    if arg.Err? {
      return Finished(Err(arg.error));
    }
    var appended := AppendArg(acc + literal, arg.value, spec);
    if appended.Err? {
      return Finished(Err(appended.error));
    }
    ExtendAssoc(acc, literal, AppendText(arg.value, spec).value, Render(Lex(rest).pieces, Lex(rest).end, mapped.args, index + 1));
    return Continue(appended.value, rest);
  }

  /** `string_view::substr(pos, count)`: at most `count` characters from
      `pos`, clamped to the end of the view. */
  function Substr(s: string, pos: nat, count: nat): (r: string)
    requires pos <= |s|
    ensures r <= s[pos..]
    ensures |r| == if pos + count <= |s| then count else |s| - pos
  {
    if pos + count <= |s| then s[pos..pos + count] else s[pos..]
  }

  /** One round of the rendering, for text holding both braces. The text
      between them is `substr(left + 1, right - left - 1)` in `size_t`:
      when the '}' comes first the length wraps and the text runs to the end. */
  lemma RenderCut(t: string, left: nat, right: nat, table: seq<Arg>, index: nat)
    requires left == IndexOf(t, '{') < |t| && right == IndexOf(t, '}') < |t| && |t| < SizeTModulus
    requires Bound(table)
    ensures Substr(t, left + 1, (right - left - 1) % SizeTModulus) == Cut(t, left, right).text
    ensures Render(Lex(t).pieces, Lex(t).end, table, index) ==
      match Substitute(Cut(t, left, right).text, table, index)
      case Err(e) => Err(e)
      case Ok(s) => Extend(t[..left] + s, Render(Lex(t[right + 1..]).pieces, Lex(t[right + 1..]).end, table, index + 1))
  {
    SubstrClamp(t, left, right);
    var later := Lex(t[right + 1..]);
    assert Lex(t) == LexCons(Cut(t, left, right), later);
    RenderCons(Cut(t, left, right), later.pieces, later.end, table, index);
  }

  /** The wrapped length of `substr` selects exactly the text of the cut. */
  lemma SubstrClamp(t: string, left: nat, right: nat)
    requires left < |t| && right < |t| && t[left] == '{' && t[right] == '}' && |t| < SizeTModulus
    ensures Substr(t, left + 1, (right - left - 1) % SizeTModulus) == Cut(t, left, right).text
  {
    if right < left {
      assert (right - left - 1) % SizeTModulus == SizeTModulus + right - left - 1;
    }
  }

  lemma RenderCons(pc: Piece, pieces: seq<Piece>, end: Result<string>, table: seq<Arg>, index: nat)
    requires Bound(table)
    ensures Render([pc] + pieces, end, table, index) ==
      match Substitute(pc.text, table, index)
      case Err(e) => Err(e)
      case Ok(s) => Extend(pc.literal + s, Render(pieces, end, table, index + 1))
  {
    assert ([pc] + pieces)[0] == pc && ([pc] + pieces)[1..] == pieces;
  }

  lemma ExtendAssoc(acc: string, literal: string, s: string, r: Result<string>)
    ensures Extend(acc, Extend(literal + s, r)) == Extend(acc + literal + s, r)
  {
    if r.Ok? {
      assert acc + (literal + s + r.value) == acc + literal + s + r.value;
    }
  }

  /** `format`: builds the output from an empty string. The template was
      checked when the format string was built; a template the check
      rejects is reported with its error. */
  method Format(fmt: string, args: seq<Arg>) returns (r: Result<string>)
    requires Bound(args) && |fmt| < SizeTModulus
    ensures r == Formatted(fmt, args)
  {
    var checked := VerifyArgCount(fmt, |args|);
    if checked.Fail? {
      return Err(checked.error);
    }
    var mapped := new MappedArgs(args);
    r := FormatImpl(fmt, mapped, [], 0);
    ExtendEmpty(Render(Lex(fmt).pieces, Lex(fmt).end, args, 0));
  }

  lemma ExtendEmpty(r: Result<string>)
    ensures Extend([], r) == r
  {
    if r.Ok? {
      assert [] + r.value == r.value;
    }
  }

  // ---------------------------------------------------------------------
  // What the output is.

  /** Only the layout flag and the width reach `append`: the position and
      whether it was given are never looked at. */
  lemma AppendSettings(arg: Arg, a: Specifier, b: Specifier)
    requires arg.Bindable() && arg.WellFormed()
    requires a.flags == b.flags && a.hasSize == b.hasSize && a.size == b.size
    ensures AppendText(arg, a) == AppendText(arg, b)
  {
    assert a.IsHex() == b.IsHex();
  }

  /** What the appended text means: a C string contributes its characters
      before the terminator, a `std::string` itself, a decimal integer
      reads back as its value, a hexadecimal one as its value modulo
      `16^len` in exactly `len` digits; the default length covers the
      whole type and is always defined, and the only failure is a width
      too large for the shift. */
  lemma AppendTextMeaning(arg: Arg, spec: Specifier)
    requires arg.Bindable() && arg.WellFormed()
    ensures arg.CString? ==>
      AppendText(arg, spec).Ok? && NUL !in AppendText(arg, spec).value && AppendText(arg, spec).value <= arg.bytes
    ensures arg.StdString? ==> AppendText(arg, spec) == Ok(arg.text)
    ensures arg.Integer? && !spec.IsHex() ==>
      AppendText(arg, spec).Ok? && SignedDecimalValue(AppendText(arg, spec).value) == arg.value
    ensures arg.Integer? && spec.IsHex() && AppendText(arg, spec).Ok? ==>
      var len := if spec.hasSize then spec.size else 2 * arg.width.Bytes();
      |AppendText(arg, spec).value| == len &&
      BaseValue(AppendText(arg, spec).value, 16) == arg.value % Pow2(4 * len)
    ensures arg.Integer? && spec.IsHex() && !spec.hasSize ==>
      AppendText(arg, spec).Ok? && BaseValue(AppendText(arg, spec).value, 16) == arg.value % Pow2(arg.width.Bits())
    ensures AppendText(arg, spec).Err? <==>
      arg.Integer? && spec.IsHex() && spec.hasSize && spec.size > 0 && 4 * (spec.size - 1) >= arg.width.PromotedBits()
    ensures AppendText(arg, spec).Err? ==> AppendText(arg, spec).error == ShiftOutOfRange
  {
    if arg.Integer? {
      if spec.IsHex() {
        var len := if spec.hasSize then spec.size else 2 * arg.width.Bytes();
        DigitsValue(arg.value, 4, len);
        assert Radix(4) == 16;
        assert arg.width.Bits() == 4 * (2 * arg.width.Bytes());
      } else {
        ToDecimalRoundTrip(arg.value);
      }
    }
  }

  /** The render loop and the scan agree: on a template the scan accepts,
      `_format_impl` outputs each recorded literal and then the argument
      at the position the scan resolved, formatted by the scanned
      specifier, and finally the tail. */
  lemma {:induction false} RecordRender(pieces: seq<Piece>, end: Result<string>, count: nat, cap: nat, table: seq<Arg>)
    requires Bound(table) && Record(pieces, end, count, cap).Ok?
    ensures Render(pieces, end, table, count) ==
      Expand(Record(pieces, end, count, cap).value.placeholders, Record(pieces, end, count, cap).value.tail, table)
    decreases |pieces|
  {
    if pieces != [] {
      var parsed, rest := RecordHead(pieces, end, count, cap);
      SubstituteResolved(pieces[0].text, table, count, parsed);
      RecordRender(pieces[1..], end, count + 1, cap, table);
      var p := Placeholder(pieces[0].literal, pieces[0].text, Resolve(parsed, count));
      ExpandCons(p, rest.placeholders, rest.tail, table);
    }
  }

  /** The first piece of a successful recording: its parsed specifier and
      the recording of the pieces after it. */
  lemma RecordHead(pieces: seq<Piece>, end: Result<string>, count: nat, cap: nat) returns (parsed: Specifier, rest: Scanned)
    requires pieces != [] && Record(pieces, end, count, cap).Ok?
    ensures Parse(pieces[0].text) == Ok(parsed)
    ensures Record(pieces[1..], end, count + 1, cap) == Ok(rest)
    ensures Record(pieces, end, count, cap).value ==
      Scanned([Placeholder(pieces[0].literal, pieces[0].text, Resolve(parsed, count))] + rest.placeholders, rest.tail)
  {
    parsed := Parse(pieces[0].text).value;
    rest := Record(pieces[1..], end, count + 1, cap).value;
  }

  /** The substitution of a parsed placeholder is the appended text of the
      argument its resolved specifier names. */
  lemma SubstituteResolved(text: string, table: seq<Arg>, index: nat, parsed: Specifier)
    requires Bound(table) && Parse(text) == Ok(parsed)
    ensures Resolve(parsed, index).position < |table| ==>
      Substitute(text, table, index) == AppendText(table[Resolve(parsed, index).position], Resolve(parsed, index))
    ensures Resolve(parsed, index).position >= |table| ==> Substitute(text, table, index) == Err(ArgumentOutOfRange)
  {
    var spec := if parsed.hasPosition then parsed else parsed.(position := index);
    if spec.position < |table| {
      AppendSettings(table[spec.position], spec, Resolve(parsed, index));
    }
  }

  /** One step of the expansion. */
  lemma ExpandCons(p: Placeholder, ps: seq<Placeholder>, tail: string, table: seq<Arg>)
    requires Bound(table)
    ensures p.spec.position >= |table| ==> Expand([p] + ps, tail, table) == Err(ArgumentOutOfRange)
    ensures p.spec.position < |table| && AppendText(table[p.spec.position], p.spec).Err? ==>
      Expand([p] + ps, tail, table) == AppendText(table[p.spec.position], p.spec)
    ensures p.spec.position < |table| && AppendText(table[p.spec.position], p.spec).Ok? ==>
      Expand([p] + ps, tail, table) == Extend(p.literal + AppendText(table[p.spec.position], p.spec).value, Expand(ps, tail, table))
  {
    assert ([p] + ps)[0] == p && ([p] + ps)[1..] == ps;
  }

  /** `RecordRender` for a whole template. */
  lemma ScanRender(fmt: string, cap: nat, table: seq<Arg>)
    requires Bound(table) && Scan(fmt, 0, cap).Ok?
    ensures Render(Lex(fmt).pieces, Lex(fmt).end, table, 0) ==
      Expand(Scan(fmt, 0, cap).value.placeholders, Scan(fmt, 0, cap).value.tail, table)
  {
    RecordRender(Lex(fmt).pieces, Lex(fmt).end, 0, cap, table);
  }

  /** With every position naming an argument, the expansion can fail only
      by a hexadecimal width too large for the shift. */
  lemma {:induction false} ExpandErrors(ps: seq<Placeholder>, tail: string, table: seq<Arg>)
    requires Bound(table)
    requires forall k :: 0 <= k < |ps| ==> ps[k].spec.position < |table|
    ensures Expand(ps, tail, table).Err? ==> Expand(ps, tail, table).error == ShiftOutOfRange
    decreases |ps|
  {
    if ps != [] {
      AppendTextMeaning(table[ps[0].spec.position], ps[0].spec);
      assert forall k :: 0 <= k < |ps[1..]| ==> ps[1..][k] == ps[k + 1];
      ExpandErrors(ps[1..], tail, table);
    }
  }

  /** A template the check accepts renders as the expansion of its scan,
      and the only error left for run time is a hexadecimal width too
      large for the shift: no parse error, missing brace or argument out
      of range can occur. */
  lemma FormattedErrors(fmt: string, args: seq<Arg>)
    requires Bound(args) && ValidateAsWritten(fmt, |args|) == Pass
    ensures Formatted(fmt, args) ==
      Expand(Scan(fmt, 0, 3 * |args|).value.placeholders, Scan(fmt, 0, 3 * |args|).value.tail, args)
    ensures Formatted(fmt, args).Err? ==> Formatted(fmt, args).error == ShiftOutOfRange
  {
    var cap := 3 * |args|;
    AsWrittenAccepts(fmt, |args|);
    ScanRender(fmt, cap, args);
    ExpandErrors(Scan(fmt, 0, cap).value.placeholders, Scan(fmt, 0, cap).value.tail, args);
  }

  /** The corrected `format` gives the same output as the program wherever
      it accepts the template; where they differ, the program renders a
      template whose first argument is unused and the corrected one
      reports "All positions must be used.". */
  lemma IntendedAgrees(fmt: string, args: seq<Arg>)
    requires Bound(args)
    ensures FormattedIntended(fmt, args).Ok? ==> Formatted(fmt, args) == FormattedIntended(fmt, args)
    ensures FormattedIntended(fmt, args) != Formatted(fmt, args) ==>
      FormattedIntended(fmt, args) == Err(PositionsUnused) && ValidateAsWritten(fmt, |args|) == Pass &&
      !Used(Specs(Scan(fmt, 0, 3 * |args|).value.placeholders), 0)
  {
    AsWrittenDiffers(fmt, |args|);
  }

  /** `format("{1}{1}", a, b)` with two `const char*` prvalues pointing at
      "a" and "b": the program accepts it and outputs "bb"; the corrected
      check rejects it. */
  lemma SkippedFirstFormatted()
    ensures Formatted("{1}{1}", [CString("a"), CString("b")]) == Ok("bb")
    ensures FormattedIntended("{1}{1}", [CString("a"), CString("b")]) == Err(PositionsUnused)
  {
    SkippedFirstArgument();
    ScanSkipped();
    FormattedSkipped("{1}{1}", [CString("a"), CString("b")]);
  }

  lemma FormattedSkipped(fmt: string, args: seq<Arg>)
    requires args == [CString("a"), CString("b")]
    requires ValidateAsWritten(fmt, 2) == Pass && Validate(fmt, 2) == Fail(PositionsUnused)
    requires Scan(fmt, 0, 6) == Ok(Scanned([Placeholder([], "1", Specifier({}, 1, 0, true, false, NUL)), Placeholder([], "1", Specifier({}, 1, 0, true, false, NUL))], []))
    ensures Formatted(fmt, args) == Ok("bb")
    ensures FormattedIntended(fmt, args) == Err(PositionsUnused)
  {
    FormattedErrors(fmt, args);
    ExpandSkipped(Placeholder([], "1", Specifier({}, 1, 0, true, false, NUL)), args);
  }

  lemma ExpandSkipped(p: Placeholder, args: seq<Arg>)
    requires p == Placeholder([], "1", Specifier({}, 1, 0, true, false, NUL))
    requires args == [CString("a"), CString("b")]
    ensures Expand([p, p], [], args) == Ok("bb")
  {
    assert NUL !in "b";
    assert AppendText(args[1], p.spec) == Ok("b");
    ExpandCons(p, [], [], args);
    assert [p] + [] == [p] && [] + "b" + [] == "b";
    ExpandCons(p, [p], [], args);
    assert [p] + [p] == [p, p] && [] + "b" + "b" == "bb";
  }

  /** Text without a '{' is copied as it is. */
  lemma RenderLiteral(fmt: string, table: seq<Arg>, index: nat)
    requires Bound(table) && '{' !in fmt
    ensures Render(Lex(fmt).pieces, Lex(fmt).end, table, index) == Ok(fmt)
  {
    IndexOfAbsent(fmt, '{');
  }

  /** A template without placeholders is rejected when the format string
      is built, whatever the arguments: no placeholder is fewer than one
      argument, and with none the largest position, 0, is not below 0. */
  lemma FormattedNeedsPlaceholder(fmt: string, args: seq<Arg>)
    requires Bound(args) && '{' !in fmt
    ensures Formatted(fmt, args) == Err(TooFewArguments)
  {
    IndexOfAbsent(fmt, '{');
    ScanDone(fmt, 0, 3 * |args|);
  }

  /** `format("{:4x}", 260)`, the last placeholder of the example program:
      the `int` 260 gives the four nibbles "0104". */
  lemma HexWidthExample()
    ensures Formatted("{:4x}", [Integer(true, W32, 260)]) == Ok("0104")
  {
    ValidateHexWidth();
    ValidateStricter("{:4x}", 1);
    ScanHexWidth();
    ExpandHexWidth();
    FormattedHexWidth("{:4x}", [Integer(true, W32, 260)]);
  }

  lemma FormattedHexWidth(fmt: string, args: seq<Arg>)
    requires args == [Integer(true, W32, 260)] && ValidateAsWritten(fmt, 1) == Pass
    requires Scan(fmt, 0, 3) == Ok(Scanned([Placeholder([], ":4x", Specifier({Hex}, 0, 4, true, true, NUL))], []))
    requires Expand([Placeholder([], ":4x", Specifier({Hex}, 0, 4, true, true, NUL))], [], args) == Ok("0104")
    ensures Formatted(fmt, args) == Ok("0104")
  {
    FormattedErrors(fmt, args);
  }

  lemma ScanHexWidth()
    ensures Scan("{:4x}", 0, 3) ==
      Ok(Scanned([Placeholder([], ":4x", Specifier({Hex}, 0, 4, true, true, NUL))], []))
  {
    var t := "{:4x}";
    IndexOfAt(t, '{', 0);
    IndexOfAt(t, '}', 4);
    assert t[1..4] == ":4x";
    ParseHexWidth();
    ScanCut(t, 0, 4, 0, 3);
    ScanDone([], 1, 3);
    assert t[..0] == [] && t[5..] == [];
    var p := Placeholder([], ":4x", Specifier({Hex}, 0, 4, true, true, NUL));
    assert [p] + [] == [p];
  }

  lemma ParseHexWidth()
    ensures Parse(":4x") == Ok(Specifier({Hex}, 0, 4, false, true, NUL))
  {
    assert DecimalDigits(4) == "4";
    ParseWidth(4, 'x');
    assert ":" + DecimalDigits(4) + ['x'] == ":4x";
  }

  lemma ValidateHexWidth()
    ensures Validate("{:4x}", 1) == Pass
  {
    var spec := Specifier({Hex}, 0, 4, true, true, NUL);
    var p := Placeholder([], ":4x", spec);
    ScanHexWidth();
    assert Specs([p]) == [spec];
    assert [spec][..0] == [];
    assert MaxPosition([spec]) == 0;
  }

  lemma ExpandHexWidth()
    ensures Expand([Placeholder([], ":4x", Specifier({Hex}, 0, 4, true, true, NUL))], [], [Integer(true, W32, 260)]) == Ok("0104")
  {
    var p := Placeholder([], ":4x", Specifier({Hex}, 0, 4, true, true, NUL));
    HexDigits260();
    assert AppendText(Integer(true, W32, 260), p.spec) == Ok("0104");
    assert [p][1..] == [];
    assert [] + "0104" + [] == "0104";
  }

  lemma HexDigits260()
    ensures Digits(260, 4, 4) == "0104"
  {
    forall i | 0 <= i < 4
      ensures Digits(260, 4, 4)[i] == "0104"[i]
    {
      Nibble(i);
    }
  }

  /** Digit `i` of the four hexadecimal digits of 260. */
  lemma Nibble(i: nat)
    requires i < 4
    ensures Digits(260, 4, 4)[i] == "0104"[i]
  {
    NibblePowers();
    assert Radix(4) == 16 && HexDigits[0] == '0' && HexDigits[1] == '1' && HexDigits[4] == '4';
    if i == 0 {
      assert 260 / Pow2(12) % 16 == 0;
    } else if i == 1 {
      assert 260 / Pow2(8) % 16 == 1;
    } else if i == 2 {
      assert 260 / Pow2(4) % 16 == 0;
    } else {
      assert 260 / Pow2(0) % 16 == 4;
    }
  }

  /** The place values of four hexadecimal digits. */
  lemma NibblePowers()
    ensures Pow2(0) == 1 && Pow2(4) == 16 && Pow2(8) == 256 && Pow2(12) == 4096
  {
    assert Pow2(2) == 4;
    assert Pow2(4) == 16;
    assert Pow2(6) == 64;
    assert Pow2(8) == 256;
    assert Pow2(10) == 1024;
  }
}
