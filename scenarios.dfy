/**
 * Concrete runs of the model on the declarations and tokens of
 * examples/math.cpp and examples/rainbow.cpp.
 */
module Scenarios {
  import opened Wrappers
  import opened Errors
  import opened LexicalConversion
  import opened OpTypes
  import opened Declarations
  import opened Matching
  import opened Binding
  import opened StringViews

  const HelpNames := Names(Some("help"), Some('h'))
  const OperatorNames := Names(Some("operator"), Some('o'))

  /** `flags.flag("h,help", ...)` and `flags.option_required<...>("o,operator", ...)` name what they say. */
  lemma MathSchemas()
    ensures GetFlagNames("h,help") == Success(HelpNames)
    ensures GetFlagNames("o,operator") == Success(OperatorNames)
  {
    SchemaWithComma("h", "help");
    SchemaWithComma("o", "operator");
  }

  /**
   * The handles examples/math.cpp passes to its second `parse`: the OpType
   * operator, required with default "+", and the two int positionals.
   */
  function MathDecls(): seq<Decl> {
    [ OptionDecl(OperatorNames, TOp, true, Some(VOp(Plus)), None)
    , PositionalDecl("Number A", TInt(Int), None)
    , PositionalDecl("Number B", TInt(Int), None) ]
  }

  /** The same handles with a plain int operator that has no default. */
  function IntDecls(): seq<Decl> {
    [ OptionDecl(OperatorNames, TInt(Int), true, None, None)
    , PositionalDecl("Number A", TInt(Int), None)
    , PositionalDecl("Number B", TInt(Int), None) ]
  }

  /** A token no option and no flag takes goes to the positional in slot `j`, the first still empty. */
  lemma PositionalStep(args: seq<string>, idx: nat, s: seq<Decl>, j: nat)
    requires idx < |args|
    requires forall m :: 0 <= m < |s| ==> !OptionMatchesAt(args[idx], s, m) && !FlagHitAt(args[idx], s, m)
    requires j < |s| && EmptyPositionalAt(s, j)
    requires forall m :: 0 <= m < j ==> !EmptyPositionalAt(s, m)
    ensures ScanFrom(args, idx, s) == ScanFrom(args, idx + 1, s[j := PositionalDecl(s[j].labelName, s[j].ty, Some(args[idx]))])
  {
    ScanStep(args, idx, s);
    UnmatchedTokenStep(args, idx, s);
    SetPositionalFirst(s, args[idx], 0, j);
  }

  /**
   * "-o x a b" on the handles of examples/math.cpp: the option takes x, the
   * positionals a and b in order, for any x and any a and b that do not
   * name the operator option ("-5" among them).
   */
  lemma MathScan(x: string, a: string, b: string)
    requires OptionMatch(a, OperatorNames).None? && OptionMatch(b, OperatorNames).None?
    ensures ScanFrom(["-o", x, a, b], 0, MathDecls())
         == [ OptionDecl(OperatorNames, TOp, true, Some(VOp(Plus)), Some(x))
            , PositionalDecl("Number A", TInt(Int), Some(a))
            , PositionalDecl("Number B", TInt(Int), Some(b)) ]
  {
    var args := ["-o", x, a, b];
    var o0 := OptionDecl(OperatorNames, TOp, true, Some(VOp(Plus)), None);
    var o := OptionDecl(OperatorNames, TOp, true, Some(VOp(Plus)), Some(x));
    var a0 := PositionalDecl("Number A", TInt(Int), None);
    var b0 := PositionalDecl("Number B", TInt(Int), None);
    assert ScanFrom(args, 0, [o0, a0, b0]) == ScanFrom(args, 2, [o, a0, b0]) by {
      OperatorAt(args, 0, o0, a0, b0);
    }
    var a1 := PositionalDecl("Number A", TInt(Int), Some(a));
    var b1 := PositionalDecl("Number B", TInt(Int), Some(b));
    assert ScanFrom(args, 2, [o, a0, b0]) == [o, a1, b1] by {
      TwoPositionals(args, 2, o, a0, b0);
    }
  }

  /** "-o" followed by a token, with the operator option in the first of three slots. */
  lemma OperatorAt(args: seq<string>, idx: nat, o: Decl, a0: Decl, b0: Decl)
    requires idx + 1 < |args| && args[idx] == "-o"
    requires o.OptionDecl? && o.names == OperatorNames
    ensures ScanFrom(args, idx, [o, a0, b0])
         == ScanFrom(args, idx + 2, [OptionDecl(o.names, o.ty, o.required, o.defaultValue, Some(args[idx + 1])), a0, b0])
  {
    var s := [o, a0, b0];
    var t := [OptionDecl(o.names, o.ty, o.required, o.defaultValue, Some(args[idx + 1])), a0, b0];
    assert SetValue(s, 0, args[idx + 1]) == t;
    OperatorTakesNext(args, idx, s);
  }

  /** A token the option does not match is taken by no option and no flag of `[o, p, q]`. */
  lemma OnlyPositionalsTake(tok: string, o: Decl, p: Decl, q: Decl)
    requires o.OptionDecl? && OptionMatch(tok, o.names).None?
    requires p.PositionalDecl? && q.PositionalDecl?
    ensures forall m :: 0 <= m < 3 ==> !OptionMatchesAt(tok, [o, p, q], m) && !FlagHitAt(tok, [o, p, q], m)
  {
    var s := [o, p, q];
    assert s[0] == o && s[1] == p && s[2] == q;
  }

  /** A token the option does not match fills the first positional of `[o, p, q]` while it is empty ... */
  lemma FirstPositional(args: seq<string>, idx: nat, o: Decl, p: Decl, q: Decl)
    requires idx < |args| && o.OptionDecl? && OptionMatch(args[idx], o.names).None?
    requires p.PositionalDecl? && p.value.None? && q.PositionalDecl?
    ensures ScanFrom(args, idx, [o, p, q])
         == ScanFrom(args, idx + 1, [o, PositionalDecl(p.labelName, p.ty, Some(args[idx])), q])
  {
    var s := [o, p, q];
    OnlyPositionalsTake(args[idx], o, p, q);
    assert !EmptyPositionalAt(s, 0);
    PositionalStep(args, idx, s, 1);
    assert s[1 := PositionalDecl(p.labelName, p.ty, Some(args[idx]))] == [o, PositionalDecl(p.labelName, p.ty, Some(args[idx])), q];
  }

  /** ... and the second once the first is filled. */
  lemma SecondPositional(args: seq<string>, idx: nat, o: Decl, p: Decl, q: Decl)
    requires idx < |args| && o.OptionDecl? && OptionMatch(args[idx], o.names).None?
    requires p.PositionalDecl? && p.value.Some? && q.PositionalDecl? && q.value.None?
    ensures ScanFrom(args, idx, [o, p, q])
         == ScanFrom(args, idx + 1, [o, p, PositionalDecl(q.labelName, q.ty, Some(args[idx]))])
  {
    var s := [o, p, q];
    OnlyPositionalsTake(args[idx], o, p, q);
    assert !EmptyPositionalAt(s, 0) && !EmptyPositionalAt(s, 1);
    PositionalStep(args, idx, s, 2);
    assert s[2 := PositionalDecl(q.labelName, q.ty, Some(args[idx]))] == [o, p, PositionalDecl(q.labelName, q.ty, Some(args[idx]))];
  }

  /** The last two tokens, matching the option in the first slot neither, fill two empty positionals in order. */
  lemma TwoPositionals(args: seq<string>, idx: nat, o: Decl, a0: Decl, b0: Decl)
    requires idx + 2 == |args| && o.OptionDecl?
    requires OptionMatch(args[idx], o.names).None? && OptionMatch(args[idx + 1], o.names).None?
    requires a0.PositionalDecl? && a0.value.None? && b0.PositionalDecl? && b0.value.None?
    ensures ScanFrom(args, idx, [o, a0, b0])
         == [ o
            , PositionalDecl(a0.labelName, a0.ty, Some(args[idx]))
            , PositionalDecl(b0.labelName, b0.ty, Some(args[idx + 1])) ]
  {
    var a1 := PositionalDecl(a0.labelName, a0.ty, Some(args[idx]));
    var b1 := PositionalDecl(b0.labelName, b0.ty, Some(args[idx + 1]));
    assert ScanFrom(args, idx, [o, a0, b0]) == ScanFrom(args, idx + 1, [o, a1, b0]) by {
      FirstPositional(args, idx, o, a0, b0);
    }
    assert ScanFrom(args, idx + 1, [o, a1, b0]) == ScanFrom(args, idx + 2, [o, a1, b1]) by {
      SecondPositional(args, idx + 1, o, a1, b0);
    }
    assert ScanFrom(args, idx + 2, [o, a1, b1]) == [o, a1, b1];
  }

  /** The three integers convert as written. */
  lemma SmallInts()
    ensures Convert(TInt(Int), "2") == Success(VInt(2))
    ensures Convert(TInt(Int), "5") == Success(VInt(5))
    ensures Convert(TInt(Int), "7") == Success(VInt(7))
  {
    FromCharsOfShown(2, Int, "");
    FromCharsOfShown(5, Int, "");
    FromCharsOfShown(7, Int, "");
    assert ShowInt(2) + "" == "2" && ShowInt(5) + "" == "5" && ShowInt(7) + "" == "7";
  }

  /** Binding one int slot given the rendering of `n`. */
  lemma BindIntSlot(d: Decl, n: int)
    requires d.PositionalDecl? || (d.OptionDecl? && d.required)
    requires d.ty == TInt(Int) && d.value == Some(ShowInt(n)) && MinOf(Int) <= n <= MaxOf(Int)
    ensures BindDecl(d) == Success(Just(VInt(n)))
  {
    assert Canonical(VInt(n), TInt(Int));
    ConvertShow(VInt(n), TInt(Int));
  }

  /**
   * The rendering of an integer, negative ones included, never names the
   * operator option: it starts with a digit, or with '-' and a digit.
   */
  lemma NumeralNotOperator(n: int)
    ensures OptionMatch(ShowInt(n), OperatorNames).None?
  {
    var d := ShowNat(if n < 0 then -n else n);
    var t := ShowInt(n);
    assert IsDigit(d[0]);
    if n < 0 {
      assert t == "-" + d && t[1] == d[0];
      NotStartsWith(t, "--", 1);
      assert t[1..] != ['o'] by {
        assert t[1..][0] == d[0];
      }
    } else {
      assert t == d;
      NotStartsWith(t, "--", 0);
      NotStartsWith(t, "-", 0);
    }
  }

  /** Binding three slots one after the other. */
  lemma BindThree(d0: Decl, d1: Decl, d2: Decl, r0: Out, r1: Out, r2: Out)
    requires BindDecl(d0) == Success(r0) && BindDecl(d1) == Success(r1) && BindDecl(d2) == Success(r2)
    ensures BindAll([d0, d1, d2]) == Success([r0, r1, r2])
  {
    assert [d2][1..] == [] && [r2] + [] == [r2];
    assert BindAll([d2]) == Success([r2]);
    assert [d1, d2][1..] == [d2] && [r1] + [r2] == [r1, r2];
    assert BindAll([d1, d2]) == Success([r1, r2]);
    assert [d0, d1, d2][1..] == [d1, d2] && [r0] + [r1, r2] == [r0, r1, r2];
  }

  /**
   * ... and the whole `parse(flag_operator, flag_a, flag_b)` call of
   * examples/math.cpp returns the operator and the two numbers written,
   * for every operator and any two ints, negative ones included.
   */
  lemma MathParse(op: OpType, a: int, b: int)
    requires MinOf(Int) <= a <= MaxOf(Int) && MinOf(Int) <= b <= MaxOf(Int)
    ensures ParseResult(["-o", [Symbol(op)], ShowInt(a), ShowInt(b)], MathDecls())
         == Success([Just(VOp(op)), Just(VInt(a)), Just(VInt(b))])
  {
    NumeralNotOperator(a);
    NumeralNotOperator(b);
    MathScan([Symbol(op)], ShowInt(a), ShowInt(b));
    var o := OptionDecl(OperatorNames, TOp, true, Some(VOp(Plus)), Some([Symbol(op)]));
    var pa := PositionalDecl("Number A", TInt(Int), Some(ShowInt(a)));
    var pb := PositionalDecl("Number B", TInt(Int), Some(ShowInt(b)));
    assert BindDecl(o) == Success(Just(VOp(op))) by {
      BindShown(OperatorNames, TOp, true, Some(VOp(Plus)), VOp(op));
    }
    BindIntSlot(pa, a);
    BindIntSlot(pb, b);
    BindThree(o, pa, pb, Just(VOp(op)), Just(VInt(a)), Just(VInt(b)));
  }

  /** `parse(flag_help)` on "-h": the switch is on. */
  lemma HelpGiven()
    ensures ParseResult(["-h"], [FlagDecl(HelpNames, false)]) == Success([Switch(true)])
  {
    var s := [FlagDecl(HelpNames, false)];
    NotStartsWith("-h", "--", 1);
    assert StartsWith("-h", "-");
    assert Find("-h", 'h', 0) == 1;
    assert FlagMatch("-h", HelpNames) == ShortHit;
    var on := [FlagDecl(HelpNames, true)];
    assert SwitchOn(s, 0) == on;
    assert TurnOnFlags(on, "-h", 1) == (on, false);
    assert TurnOnFlags(s, "-h", 0) == (on, true);
    assert ScanFrom(["-h"], 0, s) == on;
    assert on[1..] == [] && [Switch(true)] + [] == [Switch(true)];
    assert BindDecl(on[0]) == Success(Switch(true));
    assert BindAll(on) == Success([Switch(true)]);
  }

  /**
   * examples/math.cpp given only the two numbers: the operator's default
   * "+" comes back as it was stored.
   */
  lemma OperatorDefault(a: int, b: int)
    requires MinOf(Int) <= a <= MaxOf(Int) && MinOf(Int) <= b <= MaxOf(Int)
    ensures ParseResult([ShowInt(a), ShowInt(b)], MathDecls())
         == Success([Just(VOp(Plus)), Just(VInt(a)), Just(VInt(b))])
  {
    var args := [ShowInt(a), ShowInt(b)];
    var o := OptionDecl(OperatorNames, TOp, true, Some(VOp(Plus)), None);
    var a0, a1 := PositionalDecl("Number A", TInt(Int), None), PositionalDecl("Number A", TInt(Int), Some(ShowInt(a)));
    var b0, b1 := PositionalDecl("Number B", TInt(Int), None), PositionalDecl("Number B", TInt(Int), Some(ShowInt(b)));
    NumeralNotOperator(a);
    NumeralNotOperator(b);
    TwoPositionals(args, 0, o, a0, b0);
    BindIntSlot(a1, a);
    BindIntSlot(b1, b);
    BindThree(o, a1, b1, Just(VOp(Plus)), Just(VInt(a)), Just(VInt(b)));
  }

  /** A required option without a default and without a token: the error names its long name. */
  lemma OperatorMissing()
    ensures ParseResult([], IntDecls()) == Failure(RequiredFlagNotGiven(OptionNotGiven(Some("operator"))))
  {
  }

  /** `parse(flag_text)` in examples/rainbow.cpp with no tokens: the error names the label. */
  lemma TextMissing()
    ensures ParseResult([], [PositionalDecl("Text", TString, None)]) == Failure(RequiredFlagNotGiven(PositionalNotGiven("Text")))
  {
  }

  /** "-o" followed by a token gives that token to the operator option in slot 0. */
  lemma OperatorTakesNext(args: seq<string>, idx: nat, s: seq<Decl>)
    requires idx + 1 < |args| && args[idx] == "-o"
    requires |s| > 0 && s[0].OptionDecl? && s[0].names == OperatorNames
    ensures ScanFrom(args, idx, s) == ScanFrom(args, idx + 2, SetValue(s, 0, args[idx + 1]))
  {
    ShortOptionMatches('o', OperatorNames);
    assert OptionPresent("-o", s, 0) == Some(Hit(0, 2));
  }

  /** A repeated option keeps the last value given. */
  lemma LastValueWins(first: string, last: string)
    ensures ScanFrom(["-o", first, "-o", last], 0, IntDecls())
         == [ OptionDecl(OperatorNames, TInt(Int), true, None, Some(last))
            , PositionalDecl("Number A", TInt(Int), None)
            , PositionalDecl("Number B", TInt(Int), None) ]
  {
    var args := ["-o", first, "-o", last];
    var a0, b0 := PositionalDecl("Number A", TInt(Int), None), PositionalDecl("Number B", TInt(Int), None);
    var o0 := OptionDecl(OperatorNames, TInt(Int), true, None, None);
    var o1 := OptionDecl(OperatorNames, TInt(Int), true, None, Some(first));
    var o2 := OptionDecl(OperatorNames, TInt(Int), true, None, Some(last));
    assert IntDecls() == [o0, a0, b0];
    assert ScanFrom(args, 0, [o0, a0, b0]) == ScanFrom(args, 2, [o1, a0, b0]) by { OperatorAt(args, 0, o0, a0, b0); }
    assert ScanFrom(args, 2, [o1, a0, b0]) == ScanFrom(args, 4, [o2, a0, b0]) by { OperatorAt(args, 2, o1, a0, b0); }
    assert ScanFrom(args, 4, [o2, a0, b0]) == [o2, a0, b0];
  }

  const TestNames := Names(Some("test"), Some('t'))

  /** "-ht" switches on both flags of src/main.cpp that it names by short name. */
  lemma CombinedShortFlags()
    ensures TurnOnFlags([FlagDecl(HelpNames, false), FlagDecl(TestNames, false)], "-ht", 0)
         == ([FlagDecl(HelpNames, true), FlagDecl(TestNames, true)], true)
  {
    var s := [FlagDecl(HelpNames, false), FlagDecl(TestNames, false)];
    NotStartsWith("-ht", "--", 1);
    assert StartsWith("-ht", "-");
    assert Find("-ht", 'h', 0) == 1;
    assert Find("-ht", 't', 0) == 2 by {
      FindIs("-ht", 't', 0, 2);
    }
    assert FlagMatch("-ht", HelpNames) == ShortHit;
    assert FlagMatch("-ht", TestNames) == ShortHit;
    ShortFlagsAllOn(s, "-ht", 0);
    TurnOnFlagsFound(s, "-ht", 0);
    assert FlagHitAt("-ht", s, 0);
    var r := TurnOnFlags(s, "-ht", 0).0;
    assert r[0] == FlagDecl(HelpNames, true) && r[1] == FlagDecl(TestNames, true);
    assert r == [FlagDecl(HelpNames, true), FlagDecl(TestNames, true)];
    assert TurnOnFlags(s, "-ht", 0).1;
  }

  /** A rendered integer holds no comma. */
  lemma NumeralCommaFree(n: int)
    ensures CommaFree(ShowInt(n))
  {
    var d := ShowNat(if n < 0 then -n else n);
    assert forall j :: 0 <= j < |d| ==> IsDigit(d[j]);
    if n < 0 {
      assert ShowInt(n) == "-" + d;
      assert forall j :: 1 <= j < |ShowInt(n)| ==> ShowInt(n)[j] == d[j - 1];
    }
  }

  /** A list of three integers is shown as the three renderings with commas between them. */
  lemma ShowThree(x: int, y: int, z: int)
    ensures Show(VList([VInt(x), VInt(y), VInt(z)])) == ShowInt(x) + "," + ShowInt(y) + "," + ShowInt(z)
  {
    var items := [VInt(x), VInt(y), VInt(z)];
    var parts := [ShowInt(x), ShowInt(y), ShowInt(z)];
    assert seq(3, j requires 0 <= j < 3 => Show(items[j])) == parts;
    assert parts[1..] == [ShowInt(y), ShowInt(z)] && parts[1..][1..] == [ShowInt(z)];
    assert Join(parts[1..]) == ShowInt(y) + "," + ShowInt(z);
    assert Join(parts) == ShowInt(x) + "," + (ShowInt(y) + "," + ShowInt(z));
  }

  /** Three integers written with commas between them convert back to the list of the three. */
  lemma IntList(x: int, y: int, z: int)
    requires MinOf(Int) <= x <= MaxOf(Int) && MinOf(Int) <= y <= MaxOf(Int) && MinOf(Int) <= z <= MaxOf(Int)
    ensures Convert(TList(TInt(Int)), ShowInt(x) + "," + ShowInt(y) + "," + ShowInt(z))
         == Success(VList([VInt(x), VInt(y), VInt(z)]))
  {
    var items := [VInt(x), VInt(y), VInt(z)];
    var v := VList(items);
    var parts := [ShowInt(x), ShowInt(y), ShowInt(z)];
    ShowThree(x, y, z);
    assert Canonical(v, TList(TInt(Int))) by {
      NumeralCommaFree(x);
      NumeralCommaFree(y);
      NumeralCommaFree(z);
      assert forall j :: 0 <= j < 3 ==> Show(items[j]) == parts[j];
    }
    ConvertShow(v, TList(TInt(Int)));
  }

  /** "1,,3" fails on its empty middle segment. */
  lemma IntListDoubledComma()
    ensures Convert(TList(TInt(Int)), "1,,3") == Failure(InList("", NotANumber("")))
  {
    assert CommaFree("1");
    assert Convert(TInt(Int), "1") == Success(VInt(1)) by {
      assert ShowInt(1) == "1";
      ConvertShow(VInt(1), TInt(Int));
    }
    assert Join(["1"]) == "1";
    DoubledCommaFails(TInt(Int), ["1"], "3");
    assert "1" + ",," + "3" == "1,,3";
  }
}
