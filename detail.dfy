/** Character classes and the digit-string helpers of the engine:
    `is_alpha`, `is_digit`, `to_hex`, `to_octal`, `to_binary` and
    `to_decimal`, together with the numeral readings (`BaseValue`) that
    state what their results mean. */
module Detail {

  predicate IsAlpha(c: char) {
    ('a' <= c <= 'z') || ('A' <= c <= 'Z')
  }

  predicate IsDigit(c: char) {
    '0' <= c <= '9'
  }

  predicate AllDigits(s: string) {
    forall i :: 0 <= i < |s| ==> IsDigit(s[i])
  }

  /** The terminating NUL character, `'\0'`. */
  const NUL: char := 0 as char

  /** The digit table shared by every conversion (binary uses its first two entries). */
  const HexDigits: string := "0123456789ABCDEF"

  /** The width of a fixed-size integer type: `sizeof(Type)` in bytes. */
  datatype Width = W16 | W32 | W64 {
    function Bytes(): nat {
      match this
      case W16 => 2
      case W32 => 4
      case W64 => 8
    }

    function Bits(): nat { 8 * Bytes() }

    /** The width in which `n >> j` is evaluated: types narrower than
        `int` are promoted to the 32-bit `int` first. */
    function PromotedBits(): nat {
      if W64? then 64 else 32
    }
  }

  function Pow2(k: nat): (r: nat)
    ensures r > 0
  {
    if k == 0 then 1 else 2 * Pow2(k - 1)
  }

  /** `n >> j`: since C++20 the shift of a signed value is arithmetic, so
      for every integer it rounds toward negative infinity. Dafny's `/` by
      a positive divisor rounds the same way. */
  function Shr(n: int, j: nat): int {
    n / Pow2(j)
  }

  /** The value of one digit character of `HexDigits` (0 for any other character). */
  function DigitValue(c: char): nat {
    if '0' <= c <= '9' then c as int - '0' as int
    else if 'A' <= c <= 'F' then c as int - 'A' as int + 10
    else 0
  }

  /** `s` read as a numeral in `base`, most significant digit first. */
  function BaseValue(s: string, base: nat): nat {
    if s == [] then 0 else base * BaseValue(s[..|s| - 1], base) + DigitValue(s[|s| - 1])
  }

  function DecimalValue(s: string): nat {
    BaseValue(s, 10)
  }

  /** `find_first_of(c)` on a view, with `npos` written as `|s|`. */
  function IndexOf(s: string, c: char): (r: nat)
    ensures r <= |s|
    ensures r < |s| ==> s[r] == c
  {
    IndexFrom(s, c, 0)
  }

  /** The search of `find_first_of`, having passed the first `i` characters. */
  function IndexFrom(s: string, c: char, i: nat): (r: nat)
    requires i <= |s|
    ensures i <= r <= |s|
    ensures r < |s| ==> s[r] == c
    decreases |s| - i
  {
    if i == |s| || s[i] == c then i else IndexFrom(s, c, i + 1)
  }

  /** `find_first_of` finds the first occurrence: `c` does not occur before it. */
  lemma IndexOfFirst(s: string, c: char)
    ensures forall i :: 0 <= i < IndexOf(s, c) ==> s[i] != c
  {
    IndexFromFirst(s, c, 0);
  }

  lemma {:induction false} IndexFromFirst(s: string, c: char, i: nat)
    requires i <= |s|
    ensures forall j :: i <= j < IndexFrom(s, c, i) ==> s[j] != c
    decreases |s| - i
  {
    if i < |s| && s[i] != c {
      IndexFromFirst(s, c, i + 1);
    }
  }

  /** Conversely, the first occurrence is what `find_first_of` finds. */
  lemma IndexOfAt(s: string, c: char, i: nat)
    requires i < |s| && s[i] == c
    requires forall j :: 0 <= j < i ==> s[j] != c
    ensures IndexOf(s, c) == i
  {
    IndexFromAt(s, c, 0, i);
  }

  lemma {:induction false} IndexFromAt(s: string, c: char, j: nat, i: nat)
    requires j <= i < |s| && s[i] == c
    requires forall m :: j <= m < i ==> s[m] != c
    ensures IndexFrom(s, c, j) == i
    decreases i - j
  {
    if j < i {
      IndexFromAt(s, c, j + 1, i);
    }
  }

  /** `find_first_of` returns `npos` exactly when the character is absent. */
  lemma IndexOfAbsent(s: string, c: char)
    ensures IndexOf(s, c) == |s| <==> c !in s
  {
    var r := IndexOf(s, c);
    IndexOfFirst(s, c);
    if r < |s| {
      assert s[r] in s;
    }
  }

  /** The `len` digits of `n` in base 2^k, most significant first: digit `i`
      is `(n >> k * (len - 1 - i)) & (2^k - 1)`, looked up in `HexDigits`.
      With k = 4 this is the nibble loop of `to_hex` and `to_octal`; with
      k = 1 it is the bit string of `std::bitset`. Two's complement comes
      for free: a negative `n` yields the digits of `n mod 2^(k * len)`. */
  function Digits(n: int, k: nat, len: nat): (r: string)
    requires 1 <= k <= 4
    ensures |r| == len
    ensures forall i :: 0 <= i < len ==> r[i] in HexDigits
  {
    seq(len, i requires 0 <= i < len => HexDigits[Shr(n, k * (len - 1 - i)) % Radix(k)])
  }

  /** The base of a k-bit digit, 2^k, which indexes into `HexDigits`. */
  function Radix(k: nat): (b: nat)
    requires 1 <= k <= 4
    ensures b == Pow2(k) && 2 <= b <= 16
    ensures k == 1 ==> b == 2
    ensures k == 4 ==> b == 16
  {
    assert Pow2(4) == 16;
    Pow2Monotone(k, 4);
    Pow2Monotone(1, k);
    Pow2(k)
  }

  /** The bit string of `std::bitset<bits>(n).to_string()`. */
  function BitString(n: int, bits: nat): (r: string)
    ensures |r| == bits
    ensures forall i :: 0 <= i < bits ==> r[i] == '0' || r[i] == '1'
  {
    var r := Digits(n, 1, bits);
    assert Radix(1) == 2;
    assert forall i :: 0 <= i < bits ==> r[i] == HexDigits[Shr(n, 1 * (bits - 1 - i)) % 2];
    r
  }

  /** The loop shared by `to_hex` and `to_octal` (and by the `to_hex` of
      the single-header variant): a string of `len` characters whose
      character `i` is the nibble `(n >> j) & 0x0f` with `j` stepping down
      from `(len - 1) * 4` by 4. */
  method FillNibbles(n: int, len: nat) returns (r: string)
    ensures r == Digits(n, 4, len)
  {
    assert Pow2(4) == 16;
    r := seq(len, _ => '0');
    var i: nat := 0;
    var j: int := (len - 1) * 4;
    while i < len
      invariant i <= len && |r| == len
      invariant j == 4 * (len - 1 - i)
      invariant r[..i] == Digits(n, 4, len)[..i]
    {
      r := r[i := HexDigits[Shr(n, j) % 16]];
      i, j := i + 1, j - 4;
    }
  }

  /** `detail::to_hex`: exactly two digits per byte of the type; the
      requested length is ignored. Read back in base 16 the digits give the
      low `8 * sizeof(Type)` bits of `n`. */
  method ToHex(n: int, w: Width, hexLen: nat) returns (r: string)
    ensures r == Digits(n, 4, 2 * w.Bytes())
    ensures |r| == 2 * w.Bytes()
    ensures forall i :: 0 <= i < |r| ==> r[i] in HexDigits
    ensures BaseValue(r, 16) == n % Pow2(w.Bits())
  {
    var len := 2 * w.Bytes();
    r := FillNibbles(n, len);
    DigitsValue(n, 4, len);
    assert Radix(4) == 16;
    assert w.Bits() == 8 * w.Bytes() == 4 * len;
  }

  /** `detail::to_octal`: despite its name it emits `len` hexadecimal
      nibbles, so the default `len = 0` yields the empty string. A shift
      reaching the promoted width is undefined in the source, hence the
      precondition. */
  method ToOctal(n: int, w: Width, len: nat) returns (r: string)
    requires len == 0 || 4 * (len - 1) < w.PromotedBits()
    ensures r == Digits(n, 4, len)
    ensures |r| == len
    ensures forall i :: 0 <= i < |r| ==> r[i] in HexDigits
    ensures BaseValue(r, 16) == n % Pow2(4 * len)
  {
    r := FillNibbles(n, len);
    DigitsValue(n, 4, len);
    assert Radix(4) == 16;
  }

  /** `detail::to_binary`: the full bit string when no bit is set, otherwise
      the string from its first '1' when `len` is below the number of
      significant bits (always, for the default `len = 0`), else the full
      string. Whatever the branch, the result read in base 2 is `n`'s bits. */
  function ToBinary(n: int, w: Width, len: nat): (r: string)
    ensures |r| <= w.Bits()
    ensures r == BitString(n, w.Bits())[w.Bits() - |r|..]
    ensures forall i :: 0 <= i < |r| ==> r[i] == '0' || r[i] == '1'
    ensures BaseValue(r, 2) == n % Pow2(w.Bits())
    ensures n % Pow2(w.Bits()) == 0 ==> r == BitString(n, w.Bits())
    ensures len == 0 && n % Pow2(w.Bits()) != 0 ==> r[0] == '1'
  {
    var bin := BitString(n, w.Bits());
    var left := IndexOf(bin, '1');
    BitStringValue(n, w.Bits(), left);
    if left == |bin| then bin
    else if len < |bin| - left then bin[left..]
    else bin
  }

  /** Which string `to_binary` returns: the one from the first '1' exactly
      when `len` is below the number of significant bits, else the full
      `bitset` string. */
  lemma ToBinaryChoice(n: int, w: Width, len: nat, bin: string, left: nat)
    requires bin == BitString(n, w.Bits()) && left == IndexOf(bin, '1')
    ensures len < |bin| - left ==> ToBinary(n, w, len) == bin[left..] && ToBinary(n, w, len)[0] == '1'
    ensures len >= |bin| - left ==> ToBinary(n, w, len) == bin
  {
  }

  /** The bit string reads back as the low `bits` bits of `n`, from its
      first '1' as well as in full, and it holds a '1' exactly when those
      bits are not all zero. */
  lemma BitStringValue(n: int, bits: nat, left: nat)
    requires left == IndexOf(BitString(n, bits), '1')
    ensures BaseValue(BitString(n, bits), 2) == n % Pow2(bits)
    ensures BaseValue(BitString(n, bits)[left..], 2) == n % Pow2(bits)
    ensures left == bits <==> n % Pow2(bits) == 0
  {
    var bin := BitString(n, bits);
    DigitsValue(n, 1, bits);
    assert Radix(1) == 2 && 1 * bits == bits;
    IndexOfFirst(bin, '1');
    assert forall i :: 0 <= i < left ==> bin[i] == '0';
    LeadingZeros(bin, left, 2);
    if left < bits {
      LeadingOne(bin[left..], 2);
    } else {
      assert bin[left..] == [];
    }
  }

  /** A numeral whose first digit is not zero has a positive value. */
  lemma {:induction false} LeadingOne(s: string, b: nat)
    requires s != [] && DigitValue(s[0]) >= 1 && b >= 1
    ensures BaseValue(s, b) >= 1
    decreases |s|
  {
    if |s| > 1 {
      var init := s[..|s| - 1];
      LeadingOne(init, b);
      MulAtLeast(BaseValue(init, b), b);
    } else {
      assert s[..|s| - 1] == [];
    }
  }

  /** The decimal digits of `n`, without sign or padding. */
  function DecimalDigits(n: nat): (r: string)
    ensures |r| >= 1 && AllDigits(r)
    ensures r[0] == '0' ==> n == 0
    decreases n
  {
    if n < 10 then [HexDigits[n]] else DecimalDigits(n / 10) + [HexDigits[n % 10]]
  }

  /** `detail::to_decimal`, i.e. `std::to_string` of an integer: an optional
      '-' and the decimal digits, with no padding (the length argument of
      the source is ignored). */
  function ToDecimal(n: int): (r: string) {
    if n < 0 then "-" + DecimalDigits(-n) else DecimalDigits(n)
  }

  /** The reading of an optionally signed decimal numeral. */
  function SignedDecimalValue(s: string): int {
    if |s| > 0 && s[0] == '-' then -(DecimalValue(s[1..]) as int) else DecimalValue(s)
  }

  lemma ToDecimalRoundTrip(n: int)
    ensures SignedDecimalValue(ToDecimal(n)) == n
    ensures |ToDecimal(n)| >= 1 && AllDigits(if n < 0 then ToDecimal(n)[1..] else ToDecimal(n))
  {
    var r := ToDecimal(n);
    if n < 0 {
      var d := DecimalDigits(-n);
      assert r == "-" + d;
      DecimalDigitsValue(-n);
      Negated(d);
    } else {
      var d := DecimalDigits(n);
      assert r == d;
      assert d[0] != '-' by { assert IsDigit(d[0]); }
      DecimalDigitsValue(n);
    }
  }

  lemma Negated(d: string)
    ensures ("-" + d)[1..] == d
    ensures SignedDecimalValue("-" + d) == -(DecimalValue(d) as int)
  {
    assert ("-" + d)[0] == '-';
  }

  lemma {:induction false} DecimalDigitsValue(n: nat)
    ensures DecimalValue(DecimalDigits(n)) == n
    decreases n
  {
    if n < 10 {
      BaseValueSnoc([], HexDigits[n], 10);
      HexDigitValue(n);
    } else {
      BaseValueSnoc(DecimalDigits(n / 10), HexDigits[n % 10], 10);
      DecimalDigitsValue(n / 10);
      HexDigitValue(n % 10);
    }
  }

  /** Appending a digit multiplies the value by the base and adds the digit. */
  lemma BaseValueSnoc(s: string, c: char, b: nat)
    ensures BaseValue(s + [c], b) == b * BaseValue(s, b) + DigitValue(c)
  {
    assert (s + [c])[..|s|] == s;
  }

  // ---------------------------------------------------------------------
  // Arithmetic facts behind the digit strings.

  lemma HexDigitValue(x: nat)
    requires x < 16
    ensures DigitValue(HexDigits[x]) == x
  {
    if x < 10 {
      assert HexDigits[x] == ('0' as int + x) as char;
    } else {
      assert HexDigits[x] == ('A' as int + x - 10) as char;
    }
  }

  lemma {:induction false} Pow2Monotone(a: nat, b: nat)
    requires a <= b
    ensures Pow2(a) <= Pow2(b)
    decreases b
  {
    if a < b {
      Pow2Monotone(a, b - 1);
    }
  }

  lemma {:induction false} Pow2Add(a: nat, b: nat)
    ensures Pow2(a + b) == Pow2(a) * Pow2(b)
    decreases a
  {
    if a > 0 {
      Pow2Add(a - 1, b);
      assert Pow2(a + b) == 2 * Pow2(a - 1 + b);
    }
  }

  lemma MulAtLeast(a: int, d: int)
    requires a >= 1 && d > 0
    ensures a * d >= d
  {}

  lemma MulSub(a: int, b: int, d: int)
    ensures (a - b) * d == a * d - b * d
  {}

  lemma MulPos(a: int, b: int)
    requires a > 0 && b > 0
    ensures a * b > 0
  {}

  lemma MulLeMono(a: int, x: int, y: int)
    requires a > 0 && x <= y
    ensures a * x <= a * y
  {}

  lemma MulPred(a: int, b: int)
    ensures a * (b - 1) == a * b - a
  {}

  lemma MulAssocDist(a: int, b: int, q: int, r: int, s: int)
    ensures a * (b * q + r) + s == q * (a * b) + (a * r + s)
  {}

  /** Euclidean division is unique. */
  lemma DivModUnique(n: int, d: int, q: int, r: int)
    requires d > 0 && 0 <= r < d && n == q * d + r
    ensures n / d == q && n % d == r
  {
    var q', r' := n / d, n % d;
    assert n == q' * d + r';
    if q' < q {
      MulSub(q, q', d);
      MulAtLeast(q - q', d);
    } else if q' > q {
      MulSub(q', q, d);
      MulAtLeast(q' - q, d);
    }
  }

  /** Shifting by a then by b is shifting by a + b. */
  lemma DivDiv(n: int, a: int, b: int)
    requires a > 0 && b > 0
    ensures n / a / b == n / (a * b)
  {
    var q1, r1 := n / a, n % a;
    var q2, r2 := q1 / b, q1 % b;
    assert n == a * q1 + r1;
    assert q1 == b * q2 + r2;
    MulAssocDist(a, b, q2, r2, r1);
    MulLeMono(a, r2, b - 1);
    MulPred(a, b);
    MulPos(a, b);
    DivModUnique(n, a * b, q2, a * r2 + r1);
  }

  /** The low digit and the remaining digits together make the remainder. */
  lemma ModSplit(n: int, b: int, m: int)
    requires b > 0 && m > 0
    ensures b * ((n / b) % m) + n % b == n % (b * m)
  {
    var q1, r1 := n / b, n % b;
    var q2, r2 := q1 / m, q1 % m;
    assert n == b * q1 + r1;
    assert q1 == m * q2 + r2;
    MulAssocDist(b, m, q2, r2, r1);
    MulLeMono(b, r2, m - 1);
    MulPred(b, m);
    MulPos(b, m);
    DivModUnique(n, b * m, q2, b * r2 + r1);
  }

  lemma MulSucc(a: int, b: int)
    ensures a * (b + 1) == a * b + a
  {}

  /** The last digit is the low digit; the others are the digits of `n >> k`. */
  lemma DigitsSplit(n: int, k: nat, len: nat)
    requires 1 <= k <= 4
    ensures Digits(n, k, len + 1) == Digits(n / Radix(k), k, len) + [HexDigits[n % Radix(k)]]
  {
    var b := Radix(k);
    var s, t := Digits(n, k, len + 1), Digits(n / b, k, len);
    forall i | 0 <= i < len
      ensures s[i] == t[i]
    {
      DigitShift(n, k, len, i);
    }
    assert s[len] == HexDigits[Shr(n, 0) % b];
    assert s == t + [HexDigits[n % b]];
  }

  lemma DigitShift(n: int, k: nat, len: nat, i: nat)
    requires 1 <= k <= 4 && i < len
    ensures Digits(n, k, len + 1)[i] == Digits(n / Radix(k), k, len)[i]
  {
    var j := k * (len - 1 - i);
    MulSucc(k, len - 1 - i);
    assert k * (len - i) == k + j;
    Pow2Add(k, j);
    DivDiv(n, Radix(k), Pow2(j));
    assert Shr(n, k * (len - i)) == Shr(n / Radix(k), j);
  }

  /** Reading the digits back in base 2^k gives the low `k * len` bits of `n`. */
  lemma {:induction false} DigitsValue(n: int, k: nat, len: nat)
    requires 1 <= k <= 4
    ensures BaseValue(Digits(n, k, len), Radix(k)) == n % Pow2(k * len)
    decreases len
  {
    var b := Radix(k);
    if len == 0 {
      assert Digits(n, k, 0) == [];
    } else {
      var m := Pow2(k * (len - 1));
      var t := Digits(n / b, k, len - 1);
      calc {
        BaseValue(Digits(n, k, len), b);
        { DigitsSplit(n, k, len - 1); }
        BaseValue(t + [HexDigits[n % b]], b);
        { BaseValueSnoc(t, HexDigits[n % b], b); HexDigitValue(n % b); }
        b * BaseValue(t, b) + n % b;
        { DigitsValue(n / b, k, len - 1); }
        b * ((n / b) % m) + n % b;
        { ModSplit(n, b, m); }
        n % (b * m);
        { MulSucc(k, len - 1); Pow2Add(k, k * (len - 1)); }
        n % Pow2(k * len);
      }
    }
  }

  /** Leading zeros do not change the value of a numeral. */
  lemma {:induction false} LeadingZeros(s: string, left: nat, b: nat)
    requires left <= |s|
    requires forall i :: 0 <= i < left ==> s[i] == '0'
    ensures BaseValue(s[left..], b) == BaseValue(s, b)
    decreases |s|
  {
    if s != [] {
      var init := s[..|s| - 1];
      if left == |s| {
        LeadingZeros(init, |s| - 1, b);
        assert init[|s| - 1..] == [];
      } else {
        LeadingZeros(init, left, b);
        assert s[left..][..|s[left..]| - 1] == init[left..];
      }
    }
  }
}
