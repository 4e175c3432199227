/** The placeholder scan of `FormatStringImpl::count_format_args`: every
    `{…}` of the template is parsed into a specifier and stored, in
    template order, in a fixed array of `3 * Arity` slots.

    The scan is described in two layers. `Lex` is the brace search that
    `count_format_args` and `_format_impl` share: from the cursor, the first
    '{' and the first '}' delimit the next piece. `Record` then parses the
    pieces in order and stores them. */
module Scanner {
  import opened Errors
  import opened Detail
  import opened Specifiers

  /** The text before a '{' and the text after it up to the '}'. A piece
      is `stray` when the first '}' came before the '{'; its text then runs
      to the end, as `substr` clamps the underflowed length. */
  datatype Piece = Piece(literal: string, text: string, stray: bool)

  /** The pieces found before the search stopped, and how it stopped: with
      the text after the last piece, or with "Missing closing brace". */
  datatype Lexed = Lexed(pieces: seq<Piece>, end: Result<string>)

  /** One placeholder: the literal text before it (since the previous one),
      the text between its braces and its specifier with the position resolved. */
  datatype Placeholder = Placeholder(literal: string, text: string, spec: Specifier)

  /** The placeholders of a template and the literal text after the last one. */
  datatype Scanned = Scanned(placeholders: seq<Placeholder>, tail: string)

  function LexCons(pc: Piece, l: Lexed): Lexed {
    Lexed([pc] + l.pieces, l.end)
  }

  /** The piece delimited by the '{' at `left` and the '}' at `right`. */
  function Cut(t: string, left: nat, right: nat): Piece
    requires left < |t| && right < |t| && t[left] == '{' && t[right] == '}'
  {
    if right < left then Piece(t[..left], t[left + 1..], true)
    else Piece(t[..left], t[left + 1..right], false)
  }

  /** The brace search over the text `t` after the cursor. Each round finds
      the first '{' and the first '}' of the remaining text and goes on
      after that '}'. */
  function Lex(t: string): Lexed
    decreases |t|
  {
    var left := IndexOf(t, '{');
    if left == |t| then Lexed([], Ok(t))
    else
      var right := IndexOf(t, '}');
      if right == |t| then Lexed([], Err(MissingClosingBrace))
      else LexCons(Cut(t, left, right), Lex(t[right + 1..]))
  }

  /** A specifier without an explicit position takes the occurrence index. */
  function Resolve(spec: Specifier, count: nat): (r: Specifier)
    ensures r.hasPosition
    ensures spec.hasPosition ==> r == spec
    ensures !spec.hasPosition ==>
      r.position == count && r.flags == spec.flags && r.size == spec.size && r.hasSize == spec.hasSize && r.fill == spec.fill
  {
    if spec.hasPosition then spec else spec.(position := count, hasPosition := true)
  }

  function Prepend(ps: seq<Placeholder>, r: Result<Scanned>): Result<Scanned> {
    match r
    case Err(e) => Err(e)
    case Ok(sc) => Ok(Scanned(ps + sc.placeholders, sc.tail))
  }

  /** Parsing and storing the pieces, `count` of them having been stored
      already in an array of `cap` slots: a stray piece is undefined in the
      source and fails here, a text that does not parse fails with the
      parser's error, and a `count` that reaches `cap` makes `args.at`
      throw. Only after every piece is stored does a missing '}' fail. */
  function Record(pieces: seq<Piece>, end: Result<string>, count: nat, cap: nat): Result<Scanned>
    decreases |pieces|
  {
    if pieces == [] then
      match end
      case Ok(tail) => Ok(Scanned([], tail))
      case Err(e) => Err(e)
    else if pieces[0].stray then Err(StrayClosingBrace)
    else
      match Parse(pieces[0].text)
      case Err(e) => Err(e)
      case Ok(spec) =>
        if count >= cap then Err(SlotOverflow)
        else
          var p := Placeholder(pieces[0].literal, pieces[0].text, Resolve(spec, count));
          Prepend([p], Record(pieces[1..], end, count + 1, cap))
  }

  /** The scan of the text `t` after the cursor. */
  function Scan(t: string, count: nat, cap: nat): Result<Scanned> {
    Record(Lex(t).pieces, Lex(t).end, count, cap)
  }

  /** The template written back from its pieces. */
  function Join(ps: seq<Placeholder>, tail: string): string {
    if ps == [] then tail else ps[0].literal + "{" + ps[0].text + "}" + Join(ps[1..], tail)
  }

  function JoinPieces(pieces: seq<Piece>, tail: string): string {
    if pieces == [] then tail else pieces[0].literal + "{" + pieces[0].text + "}" + JoinPieces(pieces[1..], tail)
  }

  // ---------------------------------------------------------------------
  // The imperative scan.

  /** `count_format_args`: stores the resolved specifier of each placeholder
      in `args[0..count)` and returns `count`; the slots after them keep
      their previous contents. The view `[current, end)` of the source is
      the string `view`. */
  method CountFormatArgs(fmt: string, args: array<Specifier>) returns (r: Result<nat>)
    modifies args
    ensures r.Ok? <==> Scan(fmt, 0, args.Length).Ok?
    ensures r.Err? ==> Scan(fmt, 0, args.Length) == Err(r.error)
    ensures r.Ok? ==> r.value == |Scan(fmt, 0, args.Length).value.placeholders| <= args.Length
    ensures r.Ok? ==> forall i :: 0 <= i < r.value ==> args[i] == Scan(fmt, 0, args.Length).value.placeholders[i].spec
    ensures r.Ok? ==> forall i :: r.value <= i < args.Length ==> args[i] == old(args[i])
  {
    var view := fmt;
    var count: nat := 0;
    ghost var done: seq<Placeholder> := [];
    ghost var tail: string := [];
    PrependNone(Scan(fmt, 0, args.Length));
    while view != []
      invariant count == |done| <= args.Length
      invariant view != [] ==> Scan(fmt, 0, args.Length) == Prepend(done, Scan(view, count, args.Length))
      invariant view == [] ==> Scan(fmt, 0, args.Length) == Ok(Scanned(done, tail))
      invariant forall i :: 0 <= i < count ==> args[i] == done[i].spec
      invariant forall i :: count <= i < args.Length ==> args[i] == old(args[i])
      decreases |view|
    {
      var left := IndexOf(view, '{');
      if left != |view| {
        var spec, after, p := NextPlaceholder(view, count, args.Length);
        if spec.Err? {
          return Err(spec.error);
        }
        if count >= args.Length {
          return Err(SlotOverflow);
        }
        Advance(fmt, args.Length, done, view, count, p, after);
        args[count] := spec.value;
        count := count + 1;
        done := done + [p];
        view := after;
        tail := [];
      } else {
        ScanDone(view, count, args.Length);
        PrependDone(done, view);
        tail := view;
        view := [];
      }
    }
    return Ok(count);
  }

  /** One round of the loop of `count_format_args` on the text `rest` after
      the cursor, which holds a '{': the first '{' and the first '}' delimit
      a specifier, which is parsed and given the occurrence index `count` as
      position when it has none; `after` is the text after the '}'. */
  method NextPlaceholder(rest: string, count: nat, cap: nat) returns (r: Result<Specifier>, after: string, ghost p: Placeholder)
    requires IndexOf(rest, '{') < |rest|
    ensures r.Err? ==> Scan(rest, count, cap) == Err(r.error)
    ensures r.Ok? ==> |after| < |rest| && r.value == p.spec
    ensures r.Ok? && count >= cap ==> Scan(rest, count, cap) == Err(SlotOverflow)
    ensures r.Ok? && count < cap ==> Scan(rest, count, cap) == Prepend([p], Scan(after, count + 1, cap))
  {
    var left := IndexOf(rest, '{');
    var right := IndexOf(rest, '}');
    p := Placeholder([], [], Default);
    if right == |rest| {
      assert Lex(rest) == Lexed([], Err(MissingClosingBrace));
      return Err(MissingClosingBrace), [], p;
    }
    after := rest[right + 1..];
    ScanCut(rest, left, right, count, cap);
    if right < left {
      return Err(StrayClosingBrace), after, p;
    }
    var parsed := ParseSpecifier(rest[left + 1..right]);
    if parsed.Err? {
      return Err(parsed.error), after, p;
    }
    var spec := parsed.value;
    if !spec.hasPosition {
      spec := spec.(position := count, hasPosition := true);
    }
    p := Placeholder(rest[..left], rest[left + 1..right], spec);
    return Ok(spec), after, p;
  }

  /** One round of the scan, for text holding both braces. */
  lemma ScanCut(t: string, left: nat, right: nat, count: nat, cap: nat)
    requires left == IndexOf(t, '{') < |t| && right == IndexOf(t, '}') < |t|
    ensures Scan(t, count, cap) ==
        if right < left then Err(StrayClosingBrace)
        else match Parse(t[left + 1..right])
          case Err(e) => Err(e)
          case Ok(spec) =>
            if count >= cap then Err(SlotOverflow)
            else Prepend([Placeholder(t[..left], t[left + 1..right], Resolve(spec, count))], Scan(t[right + 1..], count + 1, cap))
  {
    var later := Lex(t[right + 1..]);
    assert Lex(t) == LexCons(Cut(t, left, right), later);
    RecordCons(Cut(t, left, right), later.pieces, later.end, count, cap);
  }

  /** The bookkeeping of one recorded placeholder `p`: the scan of the
      template is the placeholders so far, then `p`, then the scan of the
      text after it. */
  lemma Advance(fmt: string, cap: nat, done: seq<Placeholder>, view: string, count: nat, p: Placeholder, after: string)
    requires count < cap
    requires Scan(fmt, 0, cap) == Prepend(done, Scan(view, count, cap))
    requires Scan(view, count, cap) == Prepend([p], Scan(after, count + 1, cap))
    ensures after != [] ==> Scan(fmt, 0, cap) == Prepend(done + [p], Scan(after, count + 1, cap))
    ensures after == [] ==> Scan(fmt, 0, cap) == Ok(Scanned(done + [p], []))
  {
    PrependAssoc(done, [p], Scan(after, count + 1, cap));
    if after == [] {
      assert Scan(after, count + 1, cap) == Ok(Scanned([], []));
      assert done + [p] + [] == done + [p];
    }
  }

  lemma RecordCons(pc: Piece, pieces: seq<Piece>, end: Result<string>, count: nat, cap: nat)
    ensures Record([pc] + pieces, end, count, cap) ==
      if pc.stray then Err(StrayClosingBrace)
      else match Parse(pc.text)
        case Err(e) => Err(e)
        case Ok(spec) =>
          if count >= cap then Err(SlotOverflow)
          else Prepend([Placeholder(pc.literal, pc.text, Resolve(spec, count))], Record(pieces, end, count + 1, cap))
  {
    assert ([pc] + pieces)[0] == pc && ([pc] + pieces)[1..] == pieces;
  }

  lemma PrependNone(r: Result<Scanned>)
    ensures Prepend([], r) == r
  {
    if r.Ok? {
      assert [] + r.value.placeholders == r.value.placeholders;
    }
  }

  lemma PrependAssoc(a: seq<Placeholder>, b: seq<Placeholder>, r: Result<Scanned>)
    ensures Prepend(a, Prepend(b, r)) == Prepend(a + b, r)
  {
    if r.Ok? {
      assert a + (b + r.value.placeholders) == (a + b) + r.value.placeholders;
    }
  }

  lemma PrependDone(done: seq<Placeholder>, tail: string)
    ensures Prepend(done, Ok(Scanned([], tail))) == Ok(Scanned(done, tail))
  {
    assert done + [] == done;
  }

  // ---------------------------------------------------------------------
  // Properties of the brace search.

  /** Text without a '{' holds no placeholder: all of it is the tail. */
  lemma ScanDone(t: string, count: nat, cap: nat)
    requires IndexOf(t, '{') == |t|
    ensures Scan(t, count, cap) == Ok(Scanned([], t))
  {
    assert Lex(t) == Lexed([], Ok(t));
  }

  /** A '{' with no '}' anywhere after the cursor fails with "Missing closing brace". */
  lemma MissingBrace(t: string, count: nat, cap: nat)
    requires '{' in t && '}' !in t
    ensures Scan(t, count, cap) == Err(MissingClosingBrace)
  {
    IndexOfAbsent(t, '{');
    IndexOfAbsent(t, '}');
    assert Lex(t) == Lexed([], Err(MissingClosingBrace));
  }

  /** The pieces of a piece-by-piece search are brace-free where they
      should be: no literal holds a '{', the literal and text of a piece
      that is not stray hold no '}', and the tail holds no '{'. */
  lemma {:induction false} LexClean(t: string)
    ensures forall k :: 0 <= k < |Lex(t).pieces| ==> '{' !in Lex(t).pieces[k].literal
    ensures forall k :: 0 <= k < |Lex(t).pieces| && !Lex(t).pieces[k].stray ==>
      '}' !in Lex(t).pieces[k].literal && '}' !in Lex(t).pieces[k].text
    ensures Lex(t).end.Ok? ==> '{' !in Lex(t).end.value
    decreases |t|
  {
    var left := IndexOf(t, '{');
    IndexOfAbsent(t, '{');
    if left < |t| {
      var right := IndexOf(t, '}');
      if right < |t| {
        var pc := Cut(t, left, right);
        var later := Lex(t[right + 1..]);
        LexClean(t[right + 1..]);
        assert '{' !in pc.literal && (!pc.stray ==> '}' !in pc.literal && '}' !in pc.text) by {
          IndexOfFirst(t, '{');
          IndexOfFirst(t, '}');
          NoneBefore(t, '{', left, left);
          if !pc.stray {
            NoneBefore(t, '}', right, left);
            NoneBetween(t, '}', right, left + 1);
          }
        }
        PiecesCons(pc, later.pieces);
      }
    }
  }

  lemma PiecesCons(pc: Piece, pieces: seq<Piece>)
    ensures |[pc] + pieces| == 1 + |pieces|
    ensures ([pc] + pieces)[0] == pc
    ensures forall k :: 0 < k < 1 + |pieces| ==> ([pc] + pieces)[k] == pieces[k - 1]
  {
  }

  lemma NoneBefore(t: string, c: char, at: nat, i: nat)
    requires i <= at <= |t| && forall j :: 0 <= j < at ==> t[j] != c
    ensures c !in t[..i]
  {
    assert forall j :: 0 <= j < i ==> t[..i][j] == t[j];
  }

  lemma NoneBetween(t: string, c: char, at: nat, i: nat)
    requires i <= at <= |t| && forall j :: 0 <= j < at ==> t[j] != c
    ensures c !in t[i..at]
  {
    assert forall j :: 0 <= j < at - i ==> t[i..at][j] == t[i + j];
  }

  /** A search that ends normally, with no stray piece, loses nothing: its
      pieces and tail join back into the text. */
  lemma {:induction false} LexJoin(t: string)
    requires Lex(t).end.Ok?
    requires forall k :: 0 <= k < |Lex(t).pieces| ==> !Lex(t).pieces[k].stray
    ensures JoinPieces(Lex(t).pieces, Lex(t).end.value) == t
    decreases |t|
  {
    var left := IndexOf(t, '{');
    if left < |t| {
      var right := IndexOf(t, '}');
      var rest := t[right + 1..];
      var later := LexStep(t, left, right, rest);
      NoStrayCons(Cut(t, left, right), later.pieces);
      LexJoin(rest);
      JoinStep(t, left, right, later.pieces, later.end.value);
    }
  }

  /** One round of the search: the first piece and the search after it. */
  lemma LexStep(t: string, left: nat, right: nat, rest: string) returns (later: Lexed)
    requires left == IndexOf(t, '{') < |t| && right == IndexOf(t, '}')
    requires Lex(t).end.Ok? && rest == t[right + 1..]
    ensures right < |t| && later == Lex(rest)
    ensures Lex(t) == LexCons(Cut(t, left, right), later)
  {
    later := Lex(rest);
  }

  /** A piece that is not stray, joined before the pieces of the rest,
      rebuilds the text. */
  lemma JoinStep(t: string, left: nat, right: nat, pieces: seq<Piece>, tail: string)
    requires left < |t| && right < |t| && t[left] == '{' && t[right] == '}'
    requires !Cut(t, left, right).stray
    requires JoinPieces(pieces, tail) == t[right + 1..]
    ensures JoinPieces([Cut(t, left, right)] + pieces, tail) == t
  {
    JoinCons(Cut(t, left, right), pieces, tail);
    Split(t, left, right);
  }

  lemma NoStrayCons(pc: Piece, pieces: seq<Piece>)
    requires forall k :: 0 <= k < |[pc] + pieces| ==> !([pc] + pieces)[k].stray
    ensures !pc.stray && forall k :: 0 <= k < |pieces| ==> !pieces[k].stray
  {
    assert ([pc] + pieces)[0] == pc;
    assert forall k :: 0 <= k < |pieces| ==> pieces[k] == ([pc] + pieces)[k + 1];
  }

  lemma JoinCons(pc: Piece, pieces: seq<Piece>, tail: string)
    ensures JoinPieces([pc] + pieces, tail) == pc.literal + "{" + pc.text + "}" + JoinPieces(pieces, tail)
  {
    assert ([pc] + pieces)[1..] == pieces;
  }

  lemma Split(t: string, left: nat, right: nat)
    requires left < right < |t| && t[left] == '{' && t[right] == '}'
    ensures t == t[..left] + "{" + t[left + 1..right] + "}" + t[right + 1..]
  {
    assert t == t[..left] + [t[left]] + t[left + 1..];
    assert t[left + 1..] == t[left + 1..right] + [t[right]] + t[right + 1..];
  }

  // ---------------------------------------------------------------------
  // Properties of the recording.

  /** A successful recording keeps every piece, in order: the k-th
      placeholder has the k-th piece's literal and text, no piece was stray
      and the search ended normally with the recorded tail. */
  lemma {:induction false} RecordShape(pieces: seq<Piece>, end: Result<string>, count: nat, cap: nat)
    requires Record(pieces, end, count, cap).Ok?
    ensures |Record(pieces, end, count, cap).value.placeholders| == |pieces|
    ensures end == Ok(Record(pieces, end, count, cap).value.tail)
    ensures forall k :: 0 <= k < |pieces| ==>
      !pieces[k].stray &&
      Record(pieces, end, count, cap).value.placeholders[k].literal == pieces[k].literal &&
      Record(pieces, end, count, cap).value.placeholders[k].text == pieces[k].text
    decreases |pieces|
  {
    if pieces != [] {
      var rest := Record(pieces[1..], end, count + 1, cap);
      RecordShape(pieces[1..], end, count + 1, cap);
      var ps := Record(pieces, end, count, cap).value.placeholders;
      assert ps[1..] == rest.value.placeholders;
      forall k | 0 < k < |pieces|
        ensures !pieces[k].stray && ps[k].literal == pieces[k].literal && ps[k].text == pieces[k].text
      {
        assert ps[k] == ps[1..][k - 1] && pieces[k] == pieces[1..][k - 1];
      }
    }
  }

  /** Each recorded specifier is its piece's text parsed, with the position
      resolved to the occurrence index `count + k` when it had none. */
  lemma {:induction false} RecordSpecs(pieces: seq<Piece>, end: Result<string>, count: nat, cap: nat)
    requires Record(pieces, end, count, cap).Ok?
    ensures forall k :: 0 <= k < |Record(pieces, end, count, cap).value.placeholders| ==>
      var p := Record(pieces, end, count, cap).value.placeholders[k];
      Parse(p.text).Ok? && p.spec == Resolve(Parse(p.text).value, count + k)
    decreases |pieces|
  {
    if pieces != [] {
      var rest := Record(pieces[1..], end, count + 1, cap);
      RecordSpecs(pieces[1..], end, count + 1, cap);
      var ps := Record(pieces, end, count, cap).value.placeholders;
      assert ps[1..] == rest.value.placeholders;
      forall k | 0 < k < |ps|
        ensures Parse(ps[k].text).Ok? && ps[k].spec == Resolve(Parse(ps[k].text).value, count + k)
      {
        assert ps[k] == ps[1..][k - 1];
      }
    }
  }

  /** A successful recording fits the slots left in the array. */
  lemma {:induction false} RecordBound(pieces: seq<Piece>, end: Result<string>, count: nat, cap: nat)
    requires Record(pieces, end, count, cap).Ok? && count <= cap
    ensures count + |Record(pieces, end, count, cap).value.placeholders| <= cap
    decreases |pieces|
  {
    if pieces != [] {
      RecordBound(pieces[1..], end, count + 1, cap);
    }
  }

  /** The number of slots matters only for overflow: with `cap` slots the
      recording gives the same result as with more, unless the placeholders
      do not fit, in which case `args.at` throws. */
  lemma {:induction false} RecordCapacity(pieces: seq<Piece>, end: Result<string>, count: nat, big: nat, cap: nat)
    requires Record(pieces, end, count, big).Ok? && count <= cap <= big
    ensures Record(pieces, end, count, cap) ==
      if count + |Record(pieces, end, count, big).value.placeholders| <= cap then Record(pieces, end, count, big)
      else Err(SlotOverflow)
    decreases |pieces|
  {
    if pieces != [] && count < cap {
      RecordCapacity(pieces[1..], end, count + 1, big, cap);
    }
  }

  // ---------------------------------------------------------------------
  // Properties of the scan.

  /** A successful scan fits the slots left in the array. */
  lemma ScanBound(t: string, count: nat, cap: nat)
    requires Scan(t, count, cap).Ok? && count <= cap
    ensures count + |Scan(t, count, cap).value.placeholders| <= cap
  {
    RecordBound(Lex(t).pieces, Lex(t).end, count, cap);
  }

  /** A successful scan loses nothing: its pieces join back into the template. */
  lemma ScanJoin(t: string, count: nat, cap: nat)
    requires Scan(t, count, cap).Ok?
    ensures Join(Scan(t, count, cap).value.placeholders, Scan(t, count, cap).value.tail) == t
  {
    var l := Lex(t);
    RecordShape(l.pieces, l.end, count, cap);
    LexJoin(t);
    JoinAgree(Scan(t, count, cap).value.placeholders, l.pieces, l.end.value);
  }

  lemma {:induction false} JoinAgree(ps: seq<Placeholder>, pieces: seq<Piece>, tail: string)
    requires |ps| == |pieces|
    requires forall k :: 0 <= k < |ps| ==> ps[k].literal == pieces[k].literal && ps[k].text == pieces[k].text
    ensures Join(ps, tail) == JoinPieces(pieces, tail)
    decreases |ps|
  {
    if ps != [] {
      JoinAgree(ps[1..], pieces[1..], tail);
    }
  }

  /** What the scan records for the placeholder with occurrence index
      `index`: brace-free literal text, a brace-free specifier text that
      parses, and the parsed specifier with its position resolved to the
      occurrence index when it had none. */
  predicate Recorded(p: Placeholder, index: nat) {
    '{' !in p.literal && '}' !in p.literal && '}' !in p.text &&
    Parse(p.text).Ok? && p.spec == Resolve(Parse(p.text).value, index)
  }

  /** Every placeholder of a successful scan is recorded as `Recorded`
      says, and the tail after the last one holds no '{'. */
  lemma ScanPlaceholders(t: string, count: nat, cap: nat)
    requires Scan(t, count, cap).Ok?
    ensures forall k :: 0 <= k < |Scan(t, count, cap).value.placeholders| ==>
      Recorded(Scan(t, count, cap).value.placeholders[k], count + k)
    ensures '{' !in Scan(t, count, cap).value.tail
  {
    var l := Lex(t);
    RecordShape(l.pieces, l.end, count, cap);
    RecordSpecs(l.pieces, l.end, count, cap);
    LexClean(t);
  }

  /** Positions follow occurrence: the k-th placeholder of a successful scan
      carries its explicit position, or `k` when it has none. */
  lemma ImplicitPositions(t: string, cap: nat, k: nat)
    requires Scan(t, 0, cap).Ok? && k < |Scan(t, 0, cap).value.placeholders|
    ensures var p := Scan(t, 0, cap).value.placeholders[k];
      Parse(p.text).Ok? && p.spec.hasPosition &&
      (Parse(p.text).value.hasPosition ==> p.spec.position == Parse(p.text).value.position) &&
      (!Parse(p.text).value.hasPosition ==> p.spec.position == k)
  {
    RecordSpecs(Lex(t).pieces, Lex(t).end, 0, cap);
  }

  /** More placeholders than slots overflow the specifier array: with `cap`
      slots a template scans as it would with more, unless its placeholders
      do not fit, and then `args.at` throws. */
  lemma ScanCapacity(t: string, count: nat, big: nat, cap: nat)
    requires Scan(t, count, big).Ok? && count <= cap <= big
    ensures Scan(t, count, cap) ==
      if count + |Scan(t, count, big).value.placeholders| <= cap then Scan(t, count, big) else Err(SlotOverflow)
  {
    RecordCapacity(Lex(t).pieces, Lex(t).end, count, big, cap);
  }
}
