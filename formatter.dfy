/** The type-directed formatters of formatter.hpp: `Formatter<T>::buf_print`
    appends the text of one value to a caller's buffer, choosing the
    conversion from the specifier's layout flags. */
module Formatters {
  import opened Detail
  import opened Specifiers
  import opened Arguments

  /** The conversion `Formatter<Integer>` applies: the first of hex, octal
      and binary whose flag is set, else decimal. Every conversion is called
      with its default length, so `to_octal` yields the empty string. */
  function IntegerText(w: Width, value: int, spec: Specifier): string {
    if spec.IsHex() then Digits(value, 4, 2 * w.Bytes())
    else if spec.IsOctal() then Digits(value, 4, 0)
    else if spec.IsBinary() then ToBinary(value, w, 0)
    else ToDecimal(value)
  }

  /** The text `buf_print` appends for one argument. Strings go in verbatim
      (a C string up to its terminator); a `char` is pushed as itself under
      the Char flag and otherwise formatted as an `int`. */
  function FormatterText(arg: Arg, spec: Specifier): string
    requires arg.WellFormed()
  {
    match arg
    case StringView(text) => text
    case CString(bytes) => CStringText(bytes)
    case StdString(text) => text
    case Integer(_, w, value) => IntegerText(w, value, spec)
    case Character(value) => if spec.IsChar() then [ByteChar(value)] else IntegerText(W32, value, spec)
  }

  /** `Formatter<T>::buf_print`: appends to `str` and never alters what was
      there before. */
  method BufPrint(str: string, arg: Arg, spec: Specifier) returns (out: string)
    requires arg.WellFormed()
    ensures out == str + FormatterText(arg, spec)
  {
    match arg {
      case StringView(text) =>
        out := str + text;
      case CString(bytes) =>
        out := str + CStringText(bytes);
      case StdString(text) =>
        out := str + text;
      case Integer(_, w, value) =>
        out := PrintInteger(str, w, value, spec);
      case Character(value) =>
        if spec.IsChar() {
          out := str + [ByteChar(value)];
        } else {
          out := PrintInteger(str, W32, value, spec);
        }
    }
  }

  /** `Formatter<IsIntegerNoChar>::buf_print`. */
  method PrintInteger(str: string, w: Width, value: int, spec: Specifier) returns (out: string)
    ensures out == str + IntegerText(w, value, spec)
  {
    if spec.IsHex() {
      var digits := ToHex(value, w, 0);
      out := str + digits;
    } else if spec.IsOctal() {
      var digits := ToOctal(value, w, 0);
      out := str + digits;
    } else if spec.IsBinary() {
      out := str + ToBinary(value, w, 0);
    } else {
      out := str + ToDecimal(value);
    }
  }

  // ---------------------------------------------------------------------
  // What the appended text means.

  /** Reading an integer's text back: hex gives `2 * sizeof` digits holding
      the value's bits, octal gives nothing, binary gives the value's bits
      from the first set bit, decimal gives the value itself. */
  lemma IntegerTextMeaning(w: Width, value: int, spec: Specifier)
    ensures spec.IsHex() ==>
      |IntegerText(w, value, spec)| == 2 * w.Bytes() &&
      BaseValue(IntegerText(w, value, spec), 16) == value % Pow2(w.Bits())
    ensures !spec.IsHex() && spec.IsOctal() ==> IntegerText(w, value, spec) == ""
    ensures !spec.IsHex() && !spec.IsOctal() && spec.IsBinary() ==>
      BaseValue(IntegerText(w, value, spec), 2) == value % Pow2(w.Bits()) &&
      (value % Pow2(w.Bits()) != 0 ==> IntegerText(w, value, spec)[0] == '1')
    ensures !spec.IsHex() && !spec.IsOctal() && !spec.IsBinary() ==>
      SignedDecimalValue(IntegerText(w, value, spec)) == value
  {
    if spec.IsHex() {
      DigitsValue(value, 4, 2 * w.Bytes());
      assert w.Bits() == 4 * (2 * w.Bytes());
    } else if !spec.IsOctal() && !spec.IsBinary() {
      ToDecimalRoundTrip(value);
    }
  }

  /** Only the layout flags matter: the position, width and fill of the
      specifier never change what a formatter appends. */
  lemma SettingsIgnored(arg: Arg, spec: Specifier, position: nat, size: nat, hasPosition: bool, hasSize: bool, fill: char)
    requires arg.WellFormed()
    ensures FormatterText(arg, spec) == FormatterText(arg, Specifier(spec.flags, position, size, hasPosition, hasSize, fill))
  {
    var other := Specifier(spec.flags, position, size, hasPosition, hasSize, fill);
    assert spec.IsHex() == other.IsHex() && spec.IsOctal() == other.IsOctal();
    assert spec.IsBinary() == other.IsBinary() && spec.IsChar() == other.IsChar();
  }

  /** A `char` without the Char flag is formatted as the `int` of its code,
      and in decimal that text reads back as the code. */
  lemma CharAsInteger(v: int, spec: Specifier)
    requires -128 <= v < 128 && !spec.IsChar()
    ensures FormatterText(Character(v), spec) == IntegerText(W32, v, spec)
    ensures !spec.IsHex() && !spec.IsOctal() && !spec.IsBinary() ==>
      SignedDecimalValue(FormatterText(Character(v), spec)) == v
  {
    IntegerTextMeaning(W32, v, spec);
  }

  /** 'A' with no flags appends "65". */
  lemma CharCodeExample()
    ensures FormatterText(Character('A' as int), Default) == "65"
  {
    assert DecimalDigits(6) == "6";
    assert DecimalDigits(65) == DecimalDigits(6) + [HexDigits[5]];
  }

  /** A `char` under the Char flag appends exactly itself. */
  lemma CharVerbatim(c: char, spec: Specifier)
    requires c as int < 128 && spec.IsChar()
    ensures FormatterText(Character(c as int), spec) == [c]
  {
    assert (c as int + 256) % 256 == c as int;
  }
}
