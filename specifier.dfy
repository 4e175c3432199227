/** The format specifier: the text between a pair of braces, such as
    `1:08x`, read into an optional position, an optional width, a fill
    character and one layout flag. */
module Specifiers {
  import opened Errors
  import opened Detail

  /** The layout flags of a specifier (the bits `HexMask` … `PointerMask`). */
  datatype Layout = Hex | Octal | Binary | Float | Char | Pointer

  /** A parsed specifier. The flag bitmask is modelled as the set of flags it holds. */
  datatype Specifier = Specifier(
    flags: set<Layout>,
    position: nat,
    size: nat,
    hasPosition: bool,
    hasSize: bool,
    fill: char)
  {
    predicate IsHex() { Hex in flags }
    predicate IsOctal() { Octal in flags }
    predicate IsBinary() { Binary in flags }
    predicate IsFloat() { Float in flags }
    predicate IsChar() { Char in flags }
    predicate IsPointer() { Pointer in flags }
  }

  /** The field defaults: no flags, no position, no size, a blank fill. */
  const Default := Specifier({}, 0, 0, false, false, ' ')

  /** A specifier at an explicit position with no other settings, as built
      for the padding slots of the specifier array. */
  function AtPosition(position: nat): Specifier {
    Default.(position := position)
  }

  const SizeTModulus: nat := 0x1_0000_0000_0000_0000

  /** Reduction to the 64-bit `size_t`. */
  function ToSizeT(n: nat): (r: nat)
    ensures r < SizeTModulus
    ensures n < SizeTModulus ==> r == n
  {
    n % SizeTModulus
  }

  /** The layout a specifier's last character selects, ignoring case. */
  function LayoutOf(c: char): Option<Layout> {
    if c == 'x' || c == 'X' then Some(Hex)
    else if c == 'o' || c == 'O' then Some(Octal)
    else if c == 'b' || c == 'B' then Some(Binary)
    else if c == 'f' || c == 'F' then Some(Float)
    else if c == 'c' || c == 'C' then Some(Char)
    else if c == 'p' || c == 'P' then Some(Pointer)
    else None
  }

  /** A character the `Fill` state captures as the fill: a letter or '0'. */
  predicate IsFillChar(c: char) {
    IsAlpha(c) || c == '0'
  }

  /** The first index at or after `j` that is not a digit (or `|s|`): where
      the `Size` state, entered at `j - 1`, meets its end. */
  function RunEnd(s: string, j: nat): (k: nat)
    requires j <= |s|
    ensures j <= k <= |s|
    ensures k < |s| ==> !IsDigit(s[k])
    decreases |s| - j
  {
    if j == |s| || !IsDigit(s[j]) then j else RunEnd(s, j + 1)
  }

  /** Everything `RunEnd` skips is a digit. */
  lemma {:induction false} RunEndDigits(s: string, j: nat)
    requires j <= |s|
    ensures forall m :: j <= m < RunEnd(s, j) ==> IsDigit(s[m])
    decreases |s| - j
  {
    if j < |s| && IsDigit(s[j]) {
      RunEndDigits(s, j + 1);
    }
  }

  /** Where the width run begins, given the colon at `c`: after the fill
      character if there is one, else right after the colon. */
  function SizeStart(fmt: string, c: nat): nat
    requires c + 1 < |fmt|
  {
    if IsFillChar(fmt[c + 1]) then c + 2 else c + 1
  }

  /** The fill a completed width run leaves behind: the captured fill
      character, or NUL when the width followed the colon directly. */
  function FillOf(fmt: string, c: nat): char
    requires c + 1 < |fmt|
  {
    if IsFillChar(fmt[c + 1]) then fmt[c + 1] else NUL
  }

  /** Adds the flag named by the last character, or fails with "Invalid layout specifier". */
  function WithLayout(spec: Specifier, last: char): Result<Specifier> {
    match LayoutOf(last)
    case None => Err(InvalidLayout)
    case Some(l) => Ok(spec.(flags := spec.flags + {l}))
  }

  /** The grammar the state machine of `parse_specifier` accepts, stated
      declaratively:
        digits* [ ':' [fill] [digits] [layout] ]
      with the errors in the order the machine meets them. */
  function Parse(fmt: string): (r: Result<Specifier>)
  {
    if fmt == [] then Ok(Default)
    else
      var c := IndexOf(fmt, ':');
      if !AllDigits(fmt[..c]) then Err(InvalidPositionChar)
      else
        var hasPosition := fmt[0] != ':';
        var base := Specifier({}, if hasPosition then ToSizeT(DecimalValue(fmt[..c])) else 0, 0, hasPosition, false, NUL);
        if c + 1 >= |fmt| then Ok(base)
        else if !IsFillChar(fmt[c + 1]) && !IsDigit(fmt[c + 1]) then Err(InvalidCharAfterColon)
        else if IsFillChar(fmt[c + 1]) && c + 2 == |fmt| then WithLayout(base.(fill := ' '), fmt[c + 1])
        else
          var sb := SizeStart(fmt, c);
          var k := RunEnd(fmt, sb + 1);
          if k + 1 < |fmt| then Err(UnexpectedTrailing)
          else if !AllDigits(fmt[sb..k]) then Err(InvalidNumberChar)
          else
            var spec := base.(size := ToSizeT(DecimalValue(fmt[sb..k])), hasSize := true, fill := FillOf(fmt, c));
            if k < |fmt| then WithLayout(spec, fmt[k]) else Ok(spec)
  }

  /** "Invalid character in the positional argument" arises exactly when a
      non-digit precedes the first ':'; "Invalid character after ':'" exactly
      when the character after that colon is neither a letter nor a digit. */
  lemma ParseErrors(fmt: string)
    ensures Parse(fmt) == Err(InvalidPositionChar) <==> fmt != [] && !AllDigits(fmt[..IndexOf(fmt, ':')])
    ensures Parse(fmt) == Err(InvalidCharAfterColon) <==>
      fmt != [] && AllDigits(fmt[..IndexOf(fmt, ':')]) && IndexOf(fmt, ':') + 1 < |fmt| &&
      !IsAlpha(fmt[IndexOf(fmt, ':') + 1]) && !IsDigit(fmt[IndexOf(fmt, ':') + 1])
  {
  }

  /** A position is present exactly when the text is non-empty and does not
      start with ':'; it is the prefix before the first ':' read in decimal. */
  lemma ParsePositionFacts(fmt: string)
    requires Parse(fmt).Ok?
    ensures Parse(fmt).value.hasPosition <==> fmt != [] && fmt[0] != ':'
    ensures Parse(fmt).value.hasPosition ==>
      Parse(fmt).value.position == ToSizeT(DecimalValue(fmt[..IndexOf(fmt, ':')]))
    ensures !Parse(fmt).value.hasPosition ==> Parse(fmt).value.position == 0
  {
  }

  /** At most one layout flag is set, and only by the last character. */
  lemma ParseLayoutFacts(fmt: string)
    requires Parse(fmt).Ok?
    ensures |Parse(fmt).value.flags| <= 1
    ensures forall l :: l in Parse(fmt).value.flags ==> fmt != [] && LayoutOf(fmt[|fmt| - 1]) == Some(l)
  {
  }

  /** A successful parse whose last character names a flag sets exactly
      that flag. */
  lemma ParseLayoutSet(fmt: string)
    requires Parse(fmt).Ok? && fmt != [] && LayoutOf(fmt[|fmt| - 1]).Some?
    ensures Parse(fmt).value.flags == {LayoutOf(fmt[|fmt| - 1]).value}
  {
    var c := IndexOf(fmt, ':');
    IndexOfFirst(fmt, ':');
    if EntersWidth(fmt) {
      RunEndDigits(fmt, SizeStart(fmt, c) + 1);
    }
  }

  /** The fill the machine leaves: a blank for an empty text or a lone
      layout letter after the colon, the captured character (or NUL) when
      a width follows, and NUL when nothing follows the colon. A captured
      fill character always comes with a width. */
  lemma ParseFillFacts(fmt: string)
    requires Parse(fmt).Ok?
    ensures fmt == [] ==> Parse(fmt).value.fill == ' '
    ensures PastColon(fmt) && IsFillChar(fmt[IndexOf(fmt, ':') + 1]) && IndexOf(fmt, ':') + 2 == |fmt| ==>
      Parse(fmt).value.fill == ' '
    ensures EntersWidth(fmt) ==> Parse(fmt).value.fill == FillOf(fmt, IndexOf(fmt, ':'))
    ensures fmt != [] && !PastColon(fmt) ==> Parse(fmt).value.fill == NUL
    ensures fmt != [] && Parse(fmt).value.fill == ' ' ==> |Parse(fmt).value.flags| == 1 && !Parse(fmt).value.hasSize
    ensures IsFillChar(Parse(fmt).value.fill) ==>
      Parse(fmt).value.hasSize && IndexOf(fmt, ':') + 1 < |fmt| && Parse(fmt).value.fill == fmt[IndexOf(fmt, ':') + 1]
  {
    if fmt != [] {
      var c := IndexOf(fmt, ':');
      assert !IsFillChar(NUL) && !IsFillChar(' ');
      if c + 1 < |fmt| && (IsFillChar(fmt[c + 1]) || IsDigit(fmt[c + 1])) && !(IsFillChar(fmt[c + 1]) && c + 2 == |fmt|) {
        assert Parse(fmt).value.hasSize && Parse(fmt).value.fill == FillOf(fmt, c);
      }
    }
  }

  /** The text gets past the `Position` state and has a character after
      the first ':'. */
  predicate PastColon(fmt: string) {
    fmt != [] && AllDigits(fmt[..IndexOf(fmt, ':')]) && IndexOf(fmt, ':') + 1 < |fmt|
  }

  /** The machine enters the `Size` state: the character after the colon
      is a digit, or a fill character with more text after it. */
  predicate EntersWidth(fmt: string) {
    PastColon(fmt) &&
    var c := IndexOf(fmt, ':');
    (IsFillChar(fmt[c + 1]) || IsDigit(fmt[c + 1])) && !(IsFillChar(fmt[c + 1]) && c + 2 == |fmt|)
  }

  /** Where the `Size` state stops: the first non-digit after the run's
      first character, or the end of the text. */
  function WidthEnd(fmt: string): (k: nat)
    requires EntersWidth(fmt)
    ensures SizeStart(fmt, IndexOf(fmt, ':')) < k <= |fmt|
  {
    RunEnd(fmt, SizeStart(fmt, IndexOf(fmt, ':')) + 1)
  }

  /** A width is recorded exactly when the `Size` state was entered; it is
      the run from its start to where that state stopped, read in decimal
      and wrapped to `size_t`. */
  lemma ParseSizeFacts(fmt: string)
    requires Parse(fmt).Ok?
    ensures Parse(fmt).value.hasSize <==> EntersWidth(fmt)
    ensures EntersWidth(fmt) ==>
      Parse(fmt).value.size == ToSizeT(DecimalValue(fmt[SizeStart(fmt, IndexOf(fmt, ':'))..WidthEnd(fmt)]))
    ensures !EntersWidth(fmt) ==> Parse(fmt).value.size == 0
  {
  }

  /** The errors of the width and the layout. "Unexpected additional
      characters" arises exactly when more than one character follows the
      width run; "Invalid character in number" exactly when the run starts
      with a non-digit (a fill letter followed by one); "Invalid layout
      specifier" exactly when the character read as the layout, a lone
      one after the colon or the one ending the run, names no flag. */
  lemma ParseLateErrors(fmt: string)
    ensures Parse(fmt) == Err(UnexpectedTrailing) <==> EntersWidth(fmt) && WidthEnd(fmt) + 1 < |fmt|
    ensures Parse(fmt) == Err(InvalidNumberChar) <==>
      EntersWidth(fmt) && WidthEnd(fmt) + 1 >= |fmt| && !IsDigit(fmt[SizeStart(fmt, IndexOf(fmt, ':'))])
    ensures Parse(fmt) == Err(InvalidLayout) <==>
      (PastColon(fmt) && IsFillChar(fmt[IndexOf(fmt, ':') + 1]) && IndexOf(fmt, ':') + 2 == |fmt| &&
       LayoutOf(fmt[|fmt| - 1]).None?) ||
      (EntersWidth(fmt) && WidthEnd(fmt) + 1 == |fmt| && IsDigit(fmt[SizeStart(fmt, IndexOf(fmt, ':'))]) &&
       LayoutOf(fmt[|fmt| - 1]).None?)
  {
    if EntersWidth(fmt) {
      var c := IndexOf(fmt, ':');
      var sb := SizeStart(fmt, c);
      var k := WidthEnd(fmt);
      RunEndDigits(fmt, sb + 1);
      RunDigits(fmt, sb, k);
    }
  }

  /** A run whose characters after the first are digits is all digits
      exactly when its first one is. */
  lemma RunDigits(s: string, lo: nat, hi: nat)
    requires lo < hi <= |s|
    requires forall m :: lo + 1 <= m < hi ==> IsDigit(s[m])
    ensures AllDigits(s[lo..hi]) <==> IsDigit(s[lo])
  {
    assert s[lo..hi][0] == s[lo];
    assert forall m :: 0 <= m < hi - lo ==> s[lo..hi][m] == s[lo + m];
  }

  // ---------------------------------------------------------------------
  // The imperative parser.

  /** `to_number`: accumulates the decimal value of `s[lo..hi]` in a
      wrapping 64-bit `size_t`, failing on the first non-digit. */
  method ToNumber(s: string, lo: nat, hi: nat) returns (r: Result<nat>)
    requires lo <= hi <= |s|
    ensures AllDigits(s[lo..hi]) ==> r == Ok(ToSizeT(DecimalValue(s[lo..hi])))
    ensures !AllDigits(s[lo..hi]) ==> r == Err(InvalidNumberChar)
  {
    var value: nat := 0;
    var p := lo;
    while p != hi
      invariant lo <= p <= hi
      invariant AllDigits(s[lo..p])
      invariant value == ToSizeT(DecimalValue(s[lo..p]))
      decreases hi - p
    {
      if s[p] < '0' || s[p] > '9' {
        assert s[lo..hi][p - lo] == s[p];
        return Err(InvalidNumberChar);
      }
      AccumulateStep(s, lo, p);
      value := (value * 10) % SizeTModulus;
      value := (value + (s[p] as int - '0' as int)) % SizeTModulus;
      p := p + 1;
    }
    return Ok(value);
  }

  /** One round of the `to_number` loop: a further digit extends the run
      and `value * 10 + d` in `size_t` tracks the reading of the longer run. */
  lemma AccumulateStep(s: string, lo: nat, p: nat)
    requires lo <= p < |s| && IsDigit(s[p])
    ensures AllDigits(s[lo..p]) ==> AllDigits(s[lo..p + 1])
    ensures ToSizeT(DecimalValue(s[lo..p + 1])) ==
      (ToSizeT(DecimalValue(s[lo..p])) * 10 % SizeTModulus + (s[p] as int - '0' as int)) % SizeTModulus
  {
    assert s[lo..p + 1] == s[lo..p] + [s[p]];
    BaseValueSnoc(s[lo..p], s[p], 10);
    WrapStep(DecimalValue(s[lo..p]), s[p] as int - '0' as int, SizeTModulus);
  }

  /** The states of the machine. The source's `Begin` state is never
      entered (the machine starts in `Position`), so it is not modelled. */
  datatype State = Position | Fill | SizeBegin | Size | End

  /** `FormatSpecifier::parse_specifier`: one pass over the text driving the
      state machine, then the position, width, fill and layout are read
      from the marks it left. It accepts exactly the grammar `Parse`. */
  method ParseSpecifier(fmt: string) returns (r: Result<Specifier>)
    ensures r == Parse(fmt)
  {
    var spec := Default;
    if |fmt| == 0 {
      return Ok(spec);
    }
    var state := Position;
    var current: nat := 0;
    var sizeBegin: Option<nat> := None;
    var sizeEnd: Option<nat> := None;
    var positionEnd: Option<nat> := None;
    var fillIntermediate := NUL;
    ghost var c := IndexOf(fmt, ':');

    while current < |fmt|
      invariant current <= |fmt|
      invariant state == Position ==>
        current <= c && AllDigits(fmt[..current]) && positionEnd == None && sizeBegin == None && fillIntermediate == NUL
      invariant state != Position ==> c < |fmt| && positionEnd == Some(c) && AllDigits(fmt[..c]) && c < current
      invariant state == Fill ==> current == c + 1 && sizeBegin == None && fillIntermediate == NUL
      invariant state == SizeBegin ==>
        current == c + 2 && IsFillChar(fmt[c + 1]) && fillIntermediate == fmt[c + 1] && sizeBegin == None
      invariant state == Size || state == End ==>
        c + 1 < |fmt| && (IsFillChar(fmt[c + 1]) || IsDigit(fmt[c + 1])) &&
        sizeBegin == Some(SizeStart(fmt, c)) && SizeStart(fmt, c) < current && fillIntermediate == FillOf(fmt, c)
      invariant state == Size ==> forall m :: SizeStart(fmt, c) + 1 <= m < current ==> IsDigit(fmt[m])
      invariant state == End ==>
        sizeEnd == Some(RunEnd(fmt, SizeStart(fmt, c) + 1)) && current == RunEnd(fmt, SizeStart(fmt, c) + 1) + 1
      invariant state != End ==> sizeEnd == None
      decreases |fmt| - current
    {
      match state {
      case Position =>
        if fmt[current] == ':' {
          assert forall j :: 0 <= j < current ==> fmt[..current][j] == fmt[j];
          IndexOfAt(fmt, ':', current);
          positionEnd := Some(current);
          state := Fill;
        } else if !IsDigit(fmt[current]) {
          assert fmt[..c][current] == fmt[current];
          return Err(InvalidPositionChar);
        }
      case Fill =>
        if IsAlpha(fmt[current]) {
          fillIntermediate := fmt[current];
          state := SizeBegin;
        } else if fmt[current] == '0' {
          fillIntermediate := fmt[current];
          state := SizeBegin;
        } else if IsDigit(fmt[current]) {
          sizeBegin := Some(current);
          state := Size;
        } else {
          return Err(InvalidCharAfterColon);
        }
      case SizeBegin =>
        sizeBegin := Some(current);
        state := Size;
      case Size =>
        if !IsDigit(fmt[current]) {
          RunEndAt(fmt, SizeStart(fmt, c) + 1, current);
          sizeEnd := Some(current);
          state := End;
        }
      case End =>
        return Err(UnexpectedTrailing);
      }
      current := current + 1;
    }

    r := ReadMarks(fmt, state, positionEnd, sizeBegin, sizeEnd, fillIntermediate, c);
  }

  /** The reads at the end of `parse_specifier`: the position, width, fill
      and layout taken from the marks the pass over a non-empty text left. */
  method ReadMarks(fmt: string, state: State, positionEnd: Option<nat>, sizeBegin: Option<nat>, sizeEnd: Option<nat>,
                   fillIntermediate: char, ghost c: nat) returns (r: Result<Specifier>)
    requires fmt != [] && c == IndexOf(fmt, ':')
    requires state == Position ==>
      |fmt| <= c && AllDigits(fmt[..|fmt|]) && positionEnd == None && sizeBegin == None && fillIntermediate == NUL
    requires state != Position ==> c < |fmt| && positionEnd == Some(c) && AllDigits(fmt[..c])
    requires state == Fill ==> |fmt| == c + 1 && sizeBegin == None && fillIntermediate == NUL
    requires state == SizeBegin ==>
      |fmt| == c + 2 && IsFillChar(fmt[c + 1]) && fillIntermediate == fmt[c + 1] && sizeBegin == None
    requires state == Size || state == End ==>
      c + 1 < |fmt| && (IsFillChar(fmt[c + 1]) || IsDigit(fmt[c + 1])) &&
      sizeBegin == Some(SizeStart(fmt, c)) && SizeStart(fmt, c) < |fmt| && fillIntermediate == FillOf(fmt, c)
    requires state == Size ==> forall m :: SizeStart(fmt, c) + 1 <= m < |fmt| ==> IsDigit(fmt[m])
    requires state == End ==>
      sizeEnd == Some(RunEnd(fmt, SizeStart(fmt, c) + 1)) && |fmt| == RunEnd(fmt, SizeStart(fmt, c) + 1) + 1
    requires state != End ==> sizeEnd == None
    ensures r == Parse(fmt)
  {
    var spec := Default;
    var current := |fmt|;
    if fmt[0] != ':' {
      var positionStop := if positionEnd.Some? then positionEnd.value else |fmt|;
      var position := ToNumber(fmt, 0, positionStop);
      if position.Err? {
        assert false;
      }
      spec := spec.(position := position.value, hasPosition := true);
    }
    if sizeBegin.Some? {
      var sizeStop := if sizeEnd.Some? then sizeEnd.value else current;
      var size := ToNumber(fmt, sizeBegin.value, sizeStop);
      if size.Err? {
        return Err(size.error);
      }
      spec := spec.(size := size.value, hasSize := true);
    }
    if state != SizeBegin {
      spec := spec.(fill := fillIntermediate);
    }
    if state == End || state == SizeBegin {
      var layout := fmt[|fmt| - 1];
      match LayoutOf(layout)
      case None =>
        return Err(InvalidLayout);
      case Some(l) =>
        spec := spec.(flags := spec.flags + {l});
    }
    return Ok(spec);
  }

  // ---------------------------------------------------------------------
  // Arithmetic of the wrapping accumulator.

  lemma MulAddDist(q: int, k: int, m: int)
    ensures q * m + k * m == (q + k) * m
  {}

  /** Adding a multiple of `m` does not change the remainder. */
  lemma ModAddMultiple(x: int, k: int, m: int)
    requires m > 0
    ensures (x + k * m) % m == x % m
  {
    assert x == (x / m) * m + x % m;
    MulAddDist(x / m, k, m);
    DivModUnique(x + k * m, m, x / m + k, x % m);
  }

  /** One step of `value *= 10; value += d` in `size_t` keeps `value` equal
      to the unbounded numeral reduced modulo 2^64. */
  lemma WrapStep(v: nat, d: nat, m: nat)
    requires m > 0
    ensures ((v % m) * 10 % m + d) % m == (10 * v + d) % m
  {
    var r := v % m;
    var q := v / m;
    assert v == q * m + r;
    assert 10 * v + d == (10 * r + d) + (10 * q) * m;
    ModAddMultiple(10 * r + d, 10 * q, m);
    assert r * 10 == (r * 10 % m) + (r * 10 / m) * m;
    ModAddMultiple(r * 10 % m + d, r * 10 / m, m);
  }

  // ---------------------------------------------------------------------
  // Round trips: specifiers written out in the canonical form read back.

  /** `RunEnd` stops at the first non-digit. */
  lemma {:induction false} RunEndAt(s: string, j: nat, k: nat)
    requires j <= k < |s| && !IsDigit(s[k])
    requires forall m :: j <= m < k ==> IsDigit(s[m])
    ensures RunEnd(s, j) == k
    decreases k - j
  {
    if j < k {
      RunEndAt(s, j + 1, k);
    }
  }

  /** The decimal text of a position that fits `size_t` reads back as that position. */
  lemma DecimalReadBack(n: nat)
    requires n < SizeTModulus
    ensures ToSizeT(DecimalValue(DecimalDigits(n))) == n
  {
    DecimalDigitsValue(n);
  }

  /** `{p:fwl}`: position, fill, width and layout all read back. */
  lemma ParseFull(p: nat, f: char, w: nat, l: char)
    requires p < SizeTModulus && w < SizeTModulus
    requires IsFillChar(f) && LayoutOf(l).Some?
    ensures Parse(DecimalDigits(p) + ":" + [f] + DecimalDigits(w) + [l])
         == Ok(Specifier({LayoutOf(l).value}, p, w, true, true, f))
  {
    var fmt := DecimalDigits(p) + ":" + [f] + DecimalDigits(w) + [l];
    var c, k := FullFacts(p, f, w, l, fmt);
    ParseFilledWidth(fmt, c, k, p, w);
  }

  /** The facts about `p:fwl` that its parse reads. */
  lemma FullFacts(p: nat, f: char, w: nat, l: char, fmt: string) returns (c: nat, k: nat)
    requires p < SizeTModulus && w < SizeTModulus
    requires IsFillChar(f) && LayoutOf(l).Some?
    requires fmt == DecimalDigits(p) + ":" + [f] + DecimalDigits(w) + [l]
    ensures c == IndexOf(fmt, ':') && c + 2 <= k && k + 1 == |fmt|
    ensures AllDigits(fmt[..c]) && fmt[0] != ':' && fmt[c + 1] == f && fmt[k] == l
    ensures k == RunEnd(fmt, c + 3) && AllDigits(fmt[c + 2..k])
    ensures ToSizeT(DecimalValue(fmt[..c])) == p && ToSizeT(DecimalValue(fmt[c + 2..k])) == w
  {
    var d, e := DecimalDigits(p), DecimalDigits(w);
    DecimalReadBack(p);
    DecimalReadBack(w);
    c, k := FullLayout(fmt, d, f, e, l);
  }

  /** Where the parts of `d:fel` sit, and that the width run ends at `l`. */
  lemma FullLayout(fmt: string, d: string, f: char, e: string, l: char) returns (c: nat, k: nat)
    requires fmt == d + ":" + [f] + e + [l]
    requires |d| >= 1 && AllDigits(d) && |e| >= 1 && AllDigits(e) && IsFillChar(f) && !IsDigit(l)
    ensures c == IndexOf(fmt, ':') && c + 2 <= k && k + 1 == |fmt|
    ensures fmt[..c] == d && AllDigits(fmt[..c]) && fmt[0] != ':' && fmt[c + 1] == f && fmt[k] == l
    ensures k == RunEnd(fmt, c + 3) && fmt[c + 2..k] == e && AllDigits(fmt[c + 2..k])
  {
    c, k := |d|, |d| + 2 + |e|;
    FullShape(fmt, d, f, e, l);
    RunEndAt(fmt, |d| + 3, k);
  }

  /** A text `position:fill width layout` whose width runs to the last character. */
  lemma ParseFilledWidth(fmt: string, c: nat, k: nat, p: nat, w: nat)
    requires c == IndexOf(fmt, ':') && c + 2 <= k && k + 1 == |fmt|
    requires AllDigits(fmt[..c]) && fmt[0] != ':' && IsFillChar(fmt[c + 1]) && LayoutOf(fmt[k]).Some?
    requires k == RunEnd(fmt, c + 3) && AllDigits(fmt[c + 2..k])
    requires ToSizeT(DecimalValue(fmt[..c])) == p && ToSizeT(DecimalValue(fmt[c + 2..k])) == w
    ensures Parse(fmt) == Ok(Specifier({LayoutOf(fmt[k]).value}, p, w, true, true, fmt[c + 1]))
  {
    assert SizeStart(fmt, c) == c + 2 && FillOf(fmt, c) == fmt[c + 1];
    assert {} + {LayoutOf(fmt[k]).value} == {LayoutOf(fmt[k]).value};
  }

  /** Where the parts of `d:fel` sit. */
  lemma FullShape(fmt: string, d: string, f: char, e: string, l: char)
    requires fmt == d + ":" + [f] + e + [l]
    requires |d| >= 1 && AllDigits(d) && |e| >= 1 && AllDigits(e) && IsFillChar(f)
    ensures IndexOf(fmt, ':') == |d| && fmt[..|d|] == d && fmt[0] != ':' && fmt[|d| + 1] == f
    ensures |fmt| == |d| + 2 + |e| + 1 && fmt[|d| + 2 + |e|] == l && fmt[|d| + 2..|d| + 2 + |e|] == e
    ensures forall m :: |d| + 3 <= m < |d| + 2 + |e| ==> IsDigit(fmt[m])
  {
    var c := |d|;
    assert fmt[c] == ':';
    assert forall j :: 0 <= j < c ==> fmt[j] == d[j];
    IndexOfAt(fmt, ':', c);
    assert fmt[..c] == d;
    assert forall m :: c + 2 <= m < c + 2 + |e| ==> fmt[m] == e[m - c - 2];
    assert fmt[c + 2..c + 2 + |e|] == e;
  }

  /** `{:wl}`: a width without a fill leaves the fill NUL and no position. */
  lemma ParseWidth(w: nat, l: char)
    requires 1 <= w < SizeTModulus && LayoutOf(l).Some?
    ensures Parse(":" + DecimalDigits(w) + [l]) == Ok(Specifier({LayoutOf(l).value}, 0, w, false, true, NUL))
  {
    var fmt := ":" + DecimalDigits(w) + [l];
    var k := WidthFacts(w, l, fmt);
    ParseBareWidth(fmt, k, w);
  }

  /** The facts about `:wl` that its parse reads. */
  lemma WidthFacts(w: nat, l: char, fmt: string) returns (k: nat)
    requires 1 <= w < SizeTModulus && LayoutOf(l).Some?
    requires fmt == ":" + DecimalDigits(w) + [l]
    ensures IndexOf(fmt, ':') == 0 && 2 <= k && k + 1 == |fmt| && fmt[k] == l
    ensures IsDigit(fmt[1]) && !IsFillChar(fmt[1])
    ensures k == RunEnd(fmt, 2) && AllDigits(fmt[1..k]) && ToSizeT(DecimalValue(fmt[1..k])) == w
  {
    var e := DecimalDigits(w);
    IndexOfAt(fmt, ':', 0);
    assert fmt[1] == e[0] && !IsFillChar(e[0]);
    k := 1 + |e|;
    assert forall m :: 1 <= m < k ==> fmt[m] == e[m - 1];
    RunEndAt(fmt, 2, k);
    assert fmt[1..k] == e;
    DecimalReadBack(w);
  }

  /** A text `:` width layout, with no fill, whose width runs to the last character. */
  lemma ParseBareWidth(fmt: string, k: nat, w: nat)
    requires IndexOf(fmt, ':') == 0 && 2 <= k && k + 1 == |fmt| && LayoutOf(fmt[k]).Some?
    requires IsDigit(fmt[1]) && !IsFillChar(fmt[1])
    requires k == RunEnd(fmt, 2) && AllDigits(fmt[1..k]) && ToSizeT(DecimalValue(fmt[1..k])) == w
    ensures Parse(fmt) == Ok(Specifier({LayoutOf(fmt[k]).value}, 0, w, false, true, NUL))
  {
    assert SizeStart(fmt, 0) == 1 && FillOf(fmt, 0) == NUL;
    assert AllDigits(fmt[..0]);
    assert {} + {LayoutOf(fmt[k]).value} == {LayoutOf(fmt[k]).value};
  }

  /** `{p}`: a bare position; the fill is overwritten with NUL. */
  lemma ParsePosition(p: nat)
    requires p < SizeTModulus
    ensures Parse(DecimalDigits(p)) == Ok(Specifier({}, p, 0, true, false, NUL))
  {
    var d := DecimalDigits(p);
    assert d[..|d|] == d;
    DecimalReadBack(p);
  }
}
