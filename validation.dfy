/** The compile-time check of `FormatStringImpl::verify_arg_count`: the
    template is scanned into an array of `3 * Arity` specifiers, then the
    number of placeholders and the positions they refer to are checked
    against the number of arguments.

    The array is filled from the front; the slots after the placeholders
    keep their default specifier, whose position is 0. The source's gap
    check reads the whole array, so those padding slots count as uses of
    position 0. `ValidateAsWritten` models that, and `format` uses it;
    `Validate` is the corrected check over the placeholders alone, which
    `VerifyPositions` computes and the corrected `FormattedIntended` uses. */
module Validation {
  import opened Errors
  import opened Detail
  import opened Specifiers
  import opened Scanner

  /** The specifiers of the placeholders, in template order. */
  function Specs(ps: seq<Placeholder>): seq<Specifier> {
    seq(|ps|, k requires 0 <= k < |ps| => ps[k].spec)
  }

  /** The specifier array after the scan: the placeholders' specifiers,
      then default specifiers up to `cap` slots. */
  function Slots(ps: seq<Placeholder>, cap: nat): seq<Specifier>
    requires |ps| <= cap
  {
    Specs(ps) + seq(cap - |ps|, _ => Default)
  }

  /** The `std::accumulate` of `verify_arg_count`: the largest position in
      the array, starting from 0. */
  function MaxPosition(specs: seq<Specifier>): nat {
    if specs == [] then 0
    else
      var a := MaxPosition(specs[..|specs| - 1]);
      var b := specs[|specs| - 1].position;
      if a > b then a else b
  }

  /** Some specifier of the array refers to position `i`. */
  predicate Used(specs: seq<Specifier>, i: nat) {
    exists k :: 0 <= k < |specs| && specs[k].position == i
  }

  /** The checks after the scan, on `count` placeholders and the array
      `specs`: too few placeholders or a position at or beyond `arity`
      fails with "Too few arguments"; a position below the largest one
      that nothing in `specs` refers to fails with "All positions must be
      used.". The "Not enough arguments" loop between them can never
      fail, since every position is at most the largest. */
  function Check(count: nat, specs: seq<Specifier>, arity: nat): Outcome {
    var m := MaxPosition(specs);
    if count < arity || m >= arity then Fail(TooFewArguments)
    else if exists i :: 0 <= i < m && !Used(specs, i) then Fail(PositionsUnused)
    else Pass
  }

  /** `verify_arg_count` as written: the gap check reads the padding slots too. */
  function ValidateAsWritten(fmt: string, arity: nat): Outcome
  {
    match Scan(fmt, 0, 3 * arity)
    case Err(e) => Fail(e)
    case Ok(sc) =>
      ScanBound(fmt, 0, 3 * arity);
      Check(|sc.placeholders|, Slots(sc.placeholders, 3 * arity), arity)
  }

  /** `verify_arg_count` with the gap check over the placeholders only. */
  function Validate(fmt: string, arity: nat): Outcome
  {
    match Scan(fmt, 0, 3 * arity)
    case Err(e) => Fail(e)
    case Ok(sc) => Check(|sc.placeholders|, Specs(sc.placeholders), arity)
  }

  // ---------------------------------------------------------------------
  // The imperative check.

  /** `verify_arg_count`, on a template and the arity of the argument pack. */
  method VerifyArgCount(fmt: string, arity: nat) returns (o: Outcome)
    ensures o == ValidateAsWritten(fmt, arity)
  {
    var counted, args := FillSlots(fmt, arity);
    if counted.Err? {
      return Fail(counted.error);
    }
    assert args[..args.Length] == args[..];
    o := CheckSlots(args, counted.value, args.Length, arity);
  }

  /** `verify_arg_count` with the gap check over the `count` slots the
      scan filled, leaving the padding out. */
  method VerifyPositions(fmt: string, arity: nat) returns (o: Outcome)
    ensures o == Validate(fmt, arity)
  {
    var counted, args := FillSlots(fmt, arity);
    if counted.Err? {
      return Fail(counted.error);
    }
    var count := counted.value;
    ghost var ps := Scan(fmt, 0, 3 * arity).value.placeholders;
    SlotsPrefix(ps, 3 * arity);
    assert args[..count] == args[..][..count];
    o := CheckSlots(args, count, count, arity);
  }

  /** The checks of `verify_arg_count` after the count: enough placeholders,
      every position below the arity, and no position below the largest
      one left out, the last searched for in the first `n` slots. */
  method CheckSlots(args: array<Specifier>, count: nat, n: nat, arity: nat) returns (o: Outcome)
    requires n <= args.Length && MaxPosition(args[..n]) == MaxPosition(args[..])
    ensures o == Check(count, args[..n], arity)
  {
    var max := MaxOf(args);
    if count < arity || max >= arity {
      return Fail(TooFewArguments);
    }
    var bounded := BoundsLoop(args, max, arity);
    NotEnoughUnreachable(args[..], arity);
    if bounded.Fail? {
      assert false;
    }
    var complete := AllUsedBelow(args, n, max);
    o := if complete then Pass else Fail(PositionsUnused);
  }

  /** The first step of `verify_arg_count`: a value-initialised array of
      `3 * arity` specifiers, filled by `count_format_args`. */
  method FillSlots(fmt: string, arity: nat) returns (counted: Result<nat>, args: array<Specifier>)
    ensures fresh(args) && args.Length == 3 * arity
    ensures counted.Err? ==> Scan(fmt, 0, 3 * arity) == Err(counted.error)
    ensures counted.Ok? ==>
      Scan(fmt, 0, 3 * arity).Ok? &&
      counted.value == |Scan(fmt, 0, 3 * arity).value.placeholders| <= 3 * arity &&
      args[..] == Slots(Scan(fmt, 0, 3 * arity).value.placeholders, 3 * arity)
  {
    args := new Specifier[3 * arity](_ => Default);
    counted := CountFormatArgs(fmt, args);
    if counted.Ok? {
      ghost var ps := Scan(fmt, 0, args.Length).value.placeholders;
      assert args[..] == Slots(ps, args.Length);
    }
  }

  /** The gap check: every position below `max` is referred to by one of
      the first `n` slots. */
  method AllUsedBelow(args: array<Specifier>, n: nat, max: nat) returns (complete: bool)
    requires n <= args.Length
    ensures complete <==> forall i :: 0 <= i < max ==> Used(args[..n], i)
  {
    var i := 0;
    while i < max
      invariant i <= max
      invariant forall i' :: 0 <= i' < i ==> Used(args[..n], i')
    {
      var found := Find(args, n, i);
      if !found {
        return false;
      }
      i := i + 1;
    }
    return true;
  }

  /** The `std::accumulate` over the array. */
  method MaxOf(args: array<Specifier>) returns (max: nat)
    ensures max == MaxPosition(args[..])
  {
    max := 0;
    var j := 0;
    while j < args.Length
      invariant j <= args.Length
      invariant max == MaxPosition(args[..j])
    {
      assert args[..j + 1][..j] == args[..j];
      max := if max > args[j].position then max else args[j].position;
      j := j + 1;
    }
    assert args[..j] == args[..];
  }

  /** The "Not enough arguments" loop: it fails exactly when some slot
      lies beyond `max` or at or beyond the arity. */
  method BoundsLoop(args: array<Specifier>, max: nat, arity: nat) returns (o: Outcome)
    ensures o == Pass <==> forall k :: 0 <= k < args.Length ==> args[k].position <= max && args[k].position < arity
    ensures o.Fail? ==> o.error == NotEnoughArguments
  {
    var j := 0;
    while j < args.Length
      invariant j <= args.Length
      invariant forall k :: 0 <= k < j ==> args[k].position <= max && args[k].position < arity
    {
      if args[j].position > max || args[j].position >= arity {
        return Fail(NotEnoughArguments);
      }
      j := j + 1;
    }
    return Pass;
  }

  /** "Not enough arguments" is never raised: after "Too few arguments"
      has let the largest position through, every slot is at most that
      position and below the arity. */
  lemma NotEnoughUnreachable(specs: seq<Specifier>, arity: nat)
    requires MaxPosition(specs) < arity
    ensures forall k :: 0 <= k < |specs| ==> specs[k].position <= MaxPosition(specs) && specs[k].position < arity
  {
    MaxPositionBound(specs);
  }

  /** The inner loop of the gap check: whether one of the first `n` slots refers to `i`. */
  method Find(args: array<Specifier>, n: nat, i: nat) returns (found: bool)
    requires n <= args.Length
    ensures found <==> Used(args[..n], i)
  {
    var j := 0;
    while j < n
      invariant j <= n
      invariant forall k :: 0 <= k < j ==> args[k].position != i
    {
      if args[j].position == i {
        assert args[..n][j].position == i;
        return true;
      }
      j := j + 1;
    }
    return false;
  }

  // ---------------------------------------------------------------------
  // Properties of the largest position.

  /** The largest position bounds every position, and some specifier holds
      it unless it is the starting value 0. */
  lemma {:induction false} MaxPositionBound(specs: seq<Specifier>)
    ensures forall k :: 0 <= k < |specs| ==> specs[k].position <= MaxPosition(specs)
    ensures MaxPosition(specs) == 0 || Used(specs, MaxPosition(specs))
    decreases |specs|
  {
    if specs != [] {
      var init := specs[..|specs| - 1];
      MaxPositionBound(init);
      assert forall k :: 0 <= k < |init| ==> init[k] == specs[k];
      if MaxPosition(init) > specs[|specs| - 1].position && MaxPosition(init) != 0 {
        var k :| 0 <= k < |init| && init[k].position == MaxPosition(init);
        assert specs[k].position == MaxPosition(specs);
      }
    }
  }

  /** Default padding, at position 0, never raises the largest position. */
  lemma {:induction false} MaxPadding(specs: seq<Specifier>, n: nat)
    ensures MaxPosition(specs + seq(n, _ => Default)) == MaxPosition(specs)
    decreases n
  {
    if n > 0 {
      var shorter := specs + seq(n - 1, _ => Default);
      assert (specs + seq(n, _ => Default))[..|shorter|] == shorter;
      MaxPadding(specs, n - 1);
    } else {
      assert specs + seq(n, _ => Default) == specs;
    }
  }

  /** The filled slots are the placeholders' specifiers, and the padding
      leaves the largest position as it is. */
  lemma SlotsPrefix(ps: seq<Placeholder>, cap: nat)
    requires |ps| <= cap
    ensures Slots(ps, cap)[..|ps|] == Specs(ps)
    ensures MaxPosition(Slots(ps, cap)) == MaxPosition(Specs(ps))
  {
    MaxPadding(Specs(ps), cap - |ps|);
  }

  /** Padding adds exactly one use: of position 0, when there is any. */
  lemma UsedPadding(specs: seq<Specifier>, n: nat, i: nat)
    ensures Used(specs + seq(n, _ => Default), i) <==> Used(specs, i) || (n > 0 && i == 0)
  {
    var all := specs + seq(n, _ => Default);
    if Used(specs, i) {
      var k :| 0 <= k < |specs| && specs[k].position == i;
      assert all[k] == specs[k];
    }
    if n > 0 && i == 0 {
      assert all[|specs|].position == 0;
    }
    if Used(all, i) {
      var k :| 0 <= k < |all| && all[k].position == i;
      if k < |specs| {
        assert specs[k] == all[k];
      }
    }
  }

  // ---------------------------------------------------------------------
  // What the checks mean.

  /** Every position below a used one is used. */
  predicate DownwardClosed(specs: seq<Specifier>) {
    forall k, i :: 0 <= k < |specs| && 0 <= i < specs[k].position ==> Used(specs, i)
  }

  /** The check accepts exactly when there is an argument, there are at
      least `arity` placeholders, every position names an argument, and
      the positions used leave no gap. With no argument the largest
      position, 0 at least, is never below the arity. */
  lemma CheckMeaning(count: nat, specs: seq<Specifier>, arity: nat)
    ensures Check(count, specs, arity) == Pass <==>
      arity >= 1 && count >= arity &&
      (forall k :: 0 <= k < |specs| ==> specs[k].position < arity) &&
      DownwardClosed(specs)
  {
    var m := MaxPosition(specs);
    MaxPositionBound(specs);
    if Check(count, specs, arity) == Pass {
      forall k, i | 0 <= k < |specs| && 0 <= i < specs[k].position
        ensures Used(specs, i)
      {
        assert i < m;
      }
    }
    if count >= arity && (forall k :: 0 <= k < |specs| ==> specs[k].position < arity) && DownwardClosed(specs) {
      if m != 0 {
        var k :| 0 <= k < |specs| && specs[k].position == m;
        assert m < arity;
        forall i | 0 <= i < m
          ensures Used(specs, i)
        {
          assert 0 <= k < |specs| && 0 <= i < specs[k].position;
        }
      }
    }
  }

  /** `Validate` accepts exactly the templates that scan, have at least as
      many placeholders as arguments (of which there is one at least),
      refer to arguments only, and leave no position below a used one unused. */
  lemma ValidateMeaning(fmt: string, arity: nat)
    ensures Validate(fmt, arity) == Pass <==>
      arity >= 1 && Scan(fmt, 0, 3 * arity).Ok? &&
      |Scan(fmt, 0, 3 * arity).value.placeholders| >= arity &&
      (forall k :: 0 <= k < |Scan(fmt, 0, 3 * arity).value.placeholders| ==>
         Scan(fmt, 0, 3 * arity).value.placeholders[k].spec.position < arity) &&
      DownwardClosed(Specs(Scan(fmt, 0, 3 * arity).value.placeholders))
  {
    if Scan(fmt, 0, 3 * arity).Ok? {
      var ps := Scan(fmt, 0, 3 * arity).value.placeholders;
      assert forall k :: 0 <= k < |ps| ==> Specs(ps)[k].position == ps[k].spec.position;
      CheckMeaning(|ps|, Specs(ps), arity);
    }
  }

  /** The two checks differ on one kind of template only: one that the
      source accepts although no placeholder refers to position 0, because
      a padding slot does. */
  lemma AsWrittenDiffers(fmt: string, arity: nat)
    ensures ValidateAsWritten(fmt, arity) != Validate(fmt, arity) <==>
      ValidateAsWritten(fmt, arity) == Pass &&
      |Scan(fmt, 0, 3 * arity).value.placeholders| < 3 * arity &&
      !Used(Specs(Scan(fmt, 0, 3 * arity).value.placeholders), 0)
    ensures ValidateAsWritten(fmt, arity) != Validate(fmt, arity) ==> Validate(fmt, arity) == Fail(PositionsUnused)
  {
    var cap := 3 * arity;
    if Scan(fmt, 0, cap).Ok? {
      var ps := Scan(fmt, 0, cap).value.placeholders;
      ScanBound(fmt, 0, cap);
      var specs := Specs(ps);
      var n := cap - |ps|;
      assert Slots(ps, cap) == specs + seq(n, _ => Default);
      MaxPadding(specs, n);
      var m := MaxPosition(specs);
      forall i | 0 <= i < m
        ensures Used(Slots(ps, cap), i) <==> Used(specs, i) || (n > 0 && i == 0)
      {
        UsedPadding(specs, n, i);
      }
      if n > 0 && !Used(specs, 0) && |ps| >= arity {
        // Every position is at least 1, and there is one, so 0 is below the largest.
        MaxPositionBound(specs);
        assert specs[0].position >= 1;
      }
    }
  }

  /** The corrected check accepts only what the source accepts. */
  lemma ValidateStricter(fmt: string, arity: nat)
    requires Validate(fmt, arity) == Pass
    ensures ValidateAsWritten(fmt, arity) == Pass
  {
    AsWrittenDiffers(fmt, arity);
  }

  /** What acceptance as written guarantees: there is an argument, the
      template scans, it has at least as many placeholders as arguments and
      each placeholder names an argument. */
  lemma AsWrittenAccepts(fmt: string, arity: nat)
    requires ValidateAsWritten(fmt, arity) == Pass
    ensures arity >= 1 && Scan(fmt, 0, 3 * arity).Ok?
    ensures |Scan(fmt, 0, 3 * arity).value.placeholders| >= arity
    ensures forall k :: 0 <= k < |Scan(fmt, 0, 3 * arity).value.placeholders| ==>
      Scan(fmt, 0, 3 * arity).value.placeholders[k].spec.position < arity
  {
    var cap := 3 * arity;
    var ps := Scan(fmt, 0, cap).value.placeholders;
    ScanBound(fmt, 0, cap);
    var slots := Slots(ps, cap);
    CheckMeaning(|ps|, slots, arity);
    forall k | 0 <= k < |ps|
      ensures ps[k].spec.position < arity
    {
      assert slots[k] == ps[k].spec;
    }
  }

  /** `"{1}{1}"` with two arguments: the source accepts it although the
      first argument is never used; the corrected check rejects it. */
  lemma SkippedFirstArgument()
    ensures ValidateAsWritten("{1}{1}", 2) == Pass
    ensures Validate("{1}{1}", 2) == Fail(PositionsUnused)
  {
    ScanSkipped();
    SkippedSlots();
    AsWrittenDiffers("{1}{1}", 2);
  }

  /** The array of `"{1}{1}"` with two arguments: two specifiers at
      position 1 and four default ones. Only the padding uses position 0. */
  lemma SkippedSlots()
    ensures var p := Placeholder([], "1", Specifier({}, 1, 0, true, false, NUL));
      Check(2, Slots([p, p], 6), 2) == Pass && !Used(Specs([p, p]), 0)
  {
    var one := Specifier({}, 1, 0, true, false, NUL);
    var p := Placeholder([], "1", one);
    var specs := Specs([p, p]);
    assert specs == [one, one];
    assert MaxPosition([one]) == 1 by {
      assert [one][..0] == [];
    }
    assert specs[..1] == [one];
    assert !Used(specs, 0);
    MaxPadding(specs, 4);
    UsedPadding(specs, 4, 0);
    assert Slots([p, p], 6) == specs + seq(4, _ => Default);
  }

  lemma ScanSkipped()
    ensures Scan("{1}{1}", 0, 6) ==
      Ok(Scanned([Placeholder([], "1", Specifier({}, 1, 0, true, false, NUL)), Placeholder([], "1", Specifier({}, 1, 0, true, false, NUL))], []))
  {
    var p := Placeholder([], "1", Specifier({}, 1, 0, true, false, NUL));
    var fmt := "{1}{1}";
    assert fmt[3..] == "{1}" && fmt[..3] == "{1}";
    ScanTwice(fmt);
  }

  lemma ScanTwice(t: string)
    requires |t| == 6 && t[..3] == "{1}" && t[3..] == "{1}"
    ensures Scan(t, 0, 6) ==
      Ok(Scanned([Placeholder([], "1", Specifier({}, 1, 0, true, false, NUL)), Placeholder([], "1", Specifier({}, 1, 0, true, false, NUL))], []))
  {
    var p := Placeholder([], "1", Specifier({}, 1, 0, true, false, NUL));
    ScanOne();
    ScanPositionOne(t, 0);
    assert [p] + [p] == [p, p];
  }

  lemma ScanOne()
    ensures Scan("{1}", 1, 6) == Ok(Scanned([Placeholder([], "1", Specifier({}, 1, 0, true, false, NUL))], []))
  {
    var p := Placeholder([], "1", Specifier({}, 1, 0, true, false, NUL));
    ScanPositionOne("{1}", 1);
    assert "{1}"[3..] == [];
    ScanDone([], 2, 6);
    assert [p] + [] == [p];
  }

  /** A text starting with `{1}` scans as that placeholder followed by the
      scan of the rest. */
  lemma ScanPositionOne(t: string, count: nat)
    requires count < 6 && |t| >= 3 && t[..3] == "{1}"
    ensures Scan(t, count, 6) == Prepend([Placeholder([], "1", Specifier({}, 1, 0, true, false, NUL))], Scan(t[3..], count + 1, 6))
  {
    assert t[0] == '{' && t[1] == '1' && t[2] == '}';
    assert t[1..2] == "1" && t[..0] == [];
    IndexOfAt(t, '{', 0);
    IndexOfAt(t, '}', 2);
    ParseOne();
    ScanCut(t, 0, 2, count, 6);
  }

  lemma ParseOne()
    ensures Parse("1") == Ok(Specifier({}, 1, 0, true, false, NUL))
  {
    ParsePosition(1);
    assert DecimalDigits(1) == "1";
  }
}
