/**
 * include/flags.hpp, class Flags: the token list, the help records the
 * declaration methods append to, and `parse`, which copies the handles
 * into slots, scans the tokens once writing into those slots, then binds
 * every slot to its result.
 */
module FlagMod {
  import opened Wrappers
  import opened Errors
  import opened LexicalConversion
  import opened Declarations
  import opened Matching
  import opened Binding

  /** Help::OptionHelp; the default is kept as a value (its rendering is only help text). */
  datatype OptionHelp = OptionHelp(names: Names, help: string, defaultValue: Option<Value>)

  /** Help::FlagHelp */
  datatype FlagHelp = FlagHelp(names: Names, help: string)

  /** Help::PositionalHelp */
  datatype PositionalHelp = PositionalHelp(labelName: string)

  class Flags {
    /** The command-line tokens after the program name. */
    var args: seq<string>
    /** Help::executable, the program name argv[0]. */
    var executable: string
    var optionHelp: seq<OptionHelp>
    var flagHelp: seq<FlagHelp>
    var positionalHelp: seq<PositionalHelp>

    /** `Flags(argc, argv)`: every argument after argv[0], in order. */
    constructor (argv: seq<string>)
      requires |argv| >= 1
      ensures args == argv[1..] && executable == argv[0]
      ensures optionHelp == [] && flagHelp == [] && positionalHelp == []
    {
      var tokens: seq<string> := [];
      for i := 1 to |argv|
        invariant tokens == argv[1..i]
      {
        tokens := tokens + [argv[i]];
      }
      args := tokens;
      executable := argv[0];
      optionHelp := [];
      flagHelp := [];
      positionalHelp := [];
    }

    /**
     * `flag(schema, help)`: a switch, initially off, recorded for help; an
     * invalid schema raises InvalidFlagSpec and records nothing.
     */
    method Flag(schema: string, help: string) returns (r: Result<Decl, Error>)
      modifies this
      ensures args == old(args) && optionHelp == old(optionHelp) && positionalHelp == old(positionalHelp)
      ensures executable == old(executable)
      ensures GetFlagNames(schema).Failure? ==> r == Failure(GetFlagNames(schema).error) && flagHelp == old(flagHelp)
      ensures GetFlagNames(schema).Success? ==>
        var n := GetFlagNames(schema).value;
        r == Success(FlagDecl(n, false)) && flagHelp == old(flagHelp) + [FlagHelp(n, help)]
    {
      match GetFlagNames(schema)
      case Failure(e) =>
        r := Failure(e);
      case Success(n) =>
        flagHelp := flagHelp + [FlagHelp(n, help)];
        r := Success(FlagDecl(n, false));
    }

    /**
     * `option<T>(schema, help)`: an optional option with no default and no
     * value yet, recorded for help.
     */
    method Option(schema: string, help: string, ty: ValueType) returns (r: Result<Decl, Error>)
      modifies this
      ensures args == old(args) && flagHelp == old(flagHelp) && positionalHelp == old(positionalHelp)
      ensures executable == old(executable)
      ensures GetFlagNames(schema).Failure? ==> r == Failure(GetFlagNames(schema).error) && optionHelp == old(optionHelp)
      ensures GetFlagNames(schema).Success? ==>
        var n := GetFlagNames(schema).value;
        r == Success(OptionDecl(n, ty, false, None, None)) && optionHelp == old(optionHelp) + [OptionHelp(n, help, None)]
    {
      match GetFlagNames(schema)
      case Failure(e) =>
        r := Failure(e);
      case Success(n) =>
        optionHelp := optionHelp + [OptionHelp(n, help, None)];
        r := Success(OptionDecl(n, ty, false, None, None));
    }

    /**
     * `option_required<T>(schema, help, default_value)`: a required option
     * keeping its default as given (it is neither checked nor converted).
     */
    method OptionRequired(schema: string, help: string, ty: ValueType, defaultValue: Option<Value>)
      returns (r: Result<Decl, Error>)
      requires defaultValue.Some? ==> HasType(defaultValue.value, ty)
      modifies this
      ensures args == old(args) && flagHelp == old(flagHelp) && positionalHelp == old(positionalHelp)
      ensures executable == old(executable)
      ensures GetFlagNames(schema).Failure? ==> r == Failure(GetFlagNames(schema).error) && optionHelp == old(optionHelp)
      ensures GetFlagNames(schema).Success? ==>
        var n := GetFlagNames(schema).value;
        && r == Success(OptionDecl(n, ty, true, defaultValue, None))
        && optionHelp == old(optionHelp) + [OptionHelp(n, help, defaultValue)]
      ensures r.Success? ==> WellTyped(r.value)
    {
      match GetFlagNames(schema)
      case Failure(e) =>
        r := Failure(e);
      case Success(n) =>
        optionHelp := optionHelp + [OptionHelp(n, help, defaultValue)];
        r := Success(OptionDecl(n, ty, true, defaultValue, None));
    }

    /** `positional<T>(label)`: an empty positional slot, recorded for help. */
    method Positional(labelName: string, ty: ValueType) returns (d: Decl)
      modifies this
      ensures args == old(args) && flagHelp == old(flagHelp) && optionHelp == old(optionHelp)
      ensures executable == old(executable)
      ensures positionalHelp == old(positionalHelp) + [PositionalHelp(labelName)]
      ensures d == PositionalDecl(labelName, ty, None)
    {
      positionalHelp := positionalHelp + [PositionalHelp(labelName)];
      d := PositionalDecl(labelName, ty, None);
    }

    /**
     * `flag_present(str, flags...)` on the slots from `i` on: switches on
     * the flags the token names, stopping after a long-name match.
     */
    static method FlagPresent(slots: array<Decl>, tok: string, i: nat) returns (found: bool)
      requires i <= slots.Length
      modifies slots
      ensures (slots[..], found) == TurnOnFlags(old(slots[..]), tok, i)
      decreases slots.Length - i
    {
      if i == slots.Length {
        return false;
      }
      var d := slots[i];
      if d.FlagDecl? {
        var m := FlagMatch(tok, d.names);
        if m != Miss {
          ghost var before := slots[..];
          slots[i] := FlagDecl(d.names, true);
          assert slots[..] == SwitchOn(before, i);
          if m == ShortHit {
            var _ := FlagPresent(slots, tok, i + 1);
          }
          return true;
        }
      }
      found := FlagPresent(slots, tok, i + 1);
    }

    /** `set_positional(str, flags...)` on the slots from `i` on. */
    static method SetPositional(slots: array<Decl>, tok: string, i: nat)
      requires i <= slots.Length
      modifies slots
      ensures slots[..] == Matching.SetPositional(old(slots[..]), tok, i)
      decreases slots.Length - i
    {
      if i == slots.Length {
        return;
      }
      var d := slots[i];
      if d.PositionalDecl? && d.value.None? {
        slots[i] := PositionalDecl(d.labelName, d.ty, Some(tok));
      } else {
        SetPositional(slots, tok, i + 1);
      }
    }

    /**
     * One turn of the `parse` loop at token `idx`: an option writes the
     * next token, or the text after '=', into its slot through the address
     * option_present returned; otherwise the flags and then the positionals
     * are tried. Returns how far the index advances.
     */
    static method ScanToken(args: seq<string>, slots: array<Decl>, idx: nat) returns (used: nat)
      requires idx < |args|
      modifies slots
      ensures slots[..] == Step(args, idx, old(slots[..])).0 && used == Step(args, idx, old(slots[..])).1
    {
      var tok := args[idx];
      var hit := OptionPresent(tok, slots[..], 0);
      if hit.Some? {
        var j, c := hit.value.index, hit.value.chrIdx;
        var d := slots[j];
        ghost var before := slots[..];
        used := 1;
        if c >= |tok| && idx + 1 < |args| {
          slots[j] := OptionDecl(d.names, d.ty, d.required, d.defaultValue, Some(args[idx + 1]));
          assert slots[..] == SetValue(before, j, args[idx + 1]);
          used := 2;
        } else if c < |tok| && tok[c] == '=' {
          slots[j] := OptionDecl(d.names, d.ty, d.required, d.defaultValue, Some(tok[c + 1..]));
          assert slots[..] == SetValue(before, j, tok[c + 1..]);
        }
        return;
      }
      TurnOnFlagsFound(slots[..], tok, 0);
      var found := FlagPresent(slots, tok, 0);
      if !found {
        SetPositional(slots, tok, 0);
      }
      used := 1;
    }

    /**
     * The token loop of `parse`: every token is scanned once, in order,
     * and each turn advances past the tokens it used.
     */
    static method ScanAll(args: seq<string>, slots: array<Decl>)
      modifies slots
      ensures slots[..] == ScanFrom(args, 0, old(slots[..]))
    {
      ghost var cur := slots[..];
      ghost var goal := ScanFrom(args, 0, cur);
      var idx := 0;
      while idx < |args|
        invariant idx <= |args| && cur == slots[..]
        invariant ScanFrom(args, idx, cur) == goal
        decreases |args| - idx
      {
        var used := ScanToken(args, slots, idx);
        ScanStep(args, idx, cur);
        cur := slots[..];
        idx := idx + used;
      }
    }

    /**
     * `parse(flags...)`: the handles are taken by value, so each call
     * scans the same tokens from the first one and leaves both the caller's
     * handles and this object as they were.
     */
    method Parse(handles: seq<Decl>) returns (r: Result<seq<Out>, Error>)
      ensures r == ParseResult(args, handles)
    {
      var slots := new Decl[|handles|](j requires 0 <= j < |handles| => handles[j]);
      assert slots[..] == handles;
      ScanAll(args, slots);
      r := BindAll(slots[..]);
    }
  }
}
