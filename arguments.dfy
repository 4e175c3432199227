/** The kinds of argument a template can be filled with. The C++ argument
    pack is a sequence of these values; the type lists of the concepts
    become the constructors and the ranges of `WellFormed`. */
module Arguments {
  import opened Detail

  datatype Arg =
    | StringView(text: string)
      /** A `const char*`: the characters up to the first NUL are its text. */
    | CString(bytes: string)
    | StdString(text: string)
      /** A signed or unsigned integer of 16, 32 or 64 bits. The 8-bit types
          are not in the integer lists, only in the character ones. */
    | Integer(signed: bool, width: Width, value: int)
      /** A plain `char`, signed on the modelled platform. */
    | Character(value: int)
  {
    /** The value lies in the range of its C++ type. */
    predicate WellFormed() {
      match this
      case Integer(signed, width, value) =>
        if signed then -(Pow2(width.Bits() - 1) as int) <= value < Pow2(width.Bits() - 1)
        else 0 <= value < Pow2(width.Bits())
      case Character(value) => -128 <= value < 128
      case _ => true
    }

    /** The kinds `format` can bind: format.hpp specialises `Appendable` for
        C strings, `std::string` and integers only. */
    predicate Bindable() {
      CString? || StdString? || Integer?
    }
  }

  /** What `std::string::append(const char*)` copies: up to the terminator. */
  function CStringText(bytes: string): (r: string)
    ensures NUL !in r
    ensures r <= bytes
    ensures NUL !in bytes ==> r == bytes
    ensures |r| < |bytes| ==> bytes[|r|] == NUL
  {
    var n := IndexOf(bytes, NUL);
    IndexOfFirst(bytes, NUL);
    assert forall i :: 0 <= i < n ==> bytes[..n][i] != NUL;
    bytes[..n]
  }

  /** The byte a `char` value occupies, as `push_back` stores it. */
  function ByteChar(value: int): char
    requires -128 <= value < 128
  {
    ((value + 256) % 256) as char
  }
}
