/**
 * include/flags.hpp, the token tests: option_present, flag_present and
 * set_positional, each a recursion over the pack (here: over the sequence
 * of declarations from an index on), and the `parse` scan that applies
 * them to every token in turn.
 */
module Matching {
  import opened Wrappers
  import opened StringViews
  import opened Declarations

  /**
   * The string_view both tests compare against a name: a token starting
   * with "--" has all its leading dashes removed by the first test, and the
   * later tests see it that way.
   */
  function Stripped(tok: string): (str: string)
    ensures !StartsWith(tok, "--") ==> str == tok
    ensures StartsWith(tok, "--") ==> str == [] || str[0] != '-'
  {
    if StartsWith(tok, "--") then StripDashes(tok) else tok
  }

  /**
   * What the tests compare is the token itself or, for a "--" token, the
   * token with its whole leading run of dashes (at least two) cut off.
   */
  lemma StrippedSuffix(tok: string)
    ensures |Stripped(tok)| <= |tok| && Stripped(tok) == tok[|tok| - |Stripped(tok)|..]
    ensures StartsWith(tok, "--") ==> |Stripped(tok)| <= |tok| - 2
    ensures forall k :: 0 <= k < |tok| - |Stripped(tok)| ==> tok[k] == '-'
  {
    if StartsWith(tok, "--") {
      assert tok[0] == tok[..2][0] && tok[1] == tok[..2][1];
    }
  }

  /**
   * One option handle against a token: `Some(k)` when it matches, `k` being
   * the index right after the flag (name length + 2, or 2 for a short name).
   */
  function OptionMatch(tok: string, n: Names): Option<nat> {
    var str := Stripped(tok);
    if StartsWith(tok, "--") && n.long == Some(str) then Some(|str| + 2)
    else if n.short.Some? && StartsWith(str, "-") && str[1..] == [n.short.value] then Some(2)
    else None
  }

  /**
   * An option matches only the whole token: "--" and its long name (more
   * dashes are tolerated), or '-' and its short name, never a short name
   * that is itself a dash. The index returned lies within the token.
   */
  lemma OptionMatchShape(tok: string, n: Names)
    requires OptionMatch(tok, n).Some?
    ensures OptionMatch(tok, n).value <= |tok|
    ensures || (OptionMatch(tok, n).value == 2 && n.short.Some? && n.short.value != '-' && tok == ['-', n.short.value])
            || (StartsWith(tok, "--") && n.long == Some(StripDashes(tok)) && OptionMatch(tok, n).value == |StripDashes(tok)| + 2)
  {
    var str := Stripped(tok);
    if StartsWith(tok, "--") {
      NotStartsWith(str, "-", 0);
      assert tok[..2] == "--";
    } else {
      assert str == tok && StartsWith(tok, "-") && tok[1..] == [n.short.value];
      assert tok == [tok[0]] + tok[1..];
      assert tok[..2] == tok;
    }
  }

  /** Conversely "--name" matches the option called name ... */
  lemma LongOptionMatches(name: string, n: Names)
    requires name != [] && name[0] != '-' && n.long == Some(name)
    ensures OptionMatch("--" + name, n) == Some(|name| + 2)
  {
    var tok := "--" + name;
    assert tok[..2] == "--";
    StripDashesPrefix("--", name);
  }

  /** ... and "-c" the option whose short name is c. */
  lemma ShortOptionMatches(c: char, n: Names)
    requires c != '-' && n.short == Some(c)
    ensures OptionMatch(['-', c], n) == Some(2)
  {
    var tok := ['-', c];
    assert !StartsWith(tok, "--") by {
      assert tok[..2] == tok;
    }
    assert tok[..1] == "-" && tok[1..] == [c];
  }

  /** "--name=value" never matches the option called name: the value cannot be attached with '='. */
  lemma NoEqualsValue(name: string, v: string, n: Names)
    requires n.long == Some(name)
    ensures OptionMatch("--" + name + "=" + v, n).None?
  {
    var tok := "--" + name + "=" + v;
    assert tok[..2] == "--";
    if name == [] || name[0] != '-' {
      // stripping stops at index 2, leaving more than `name`
      assert tok[2] != '-';
      StripDashesStopsAt(tok, 2);
    }
  }

  /** More leading dashes are tolerated: any run of two or more dashes before the long name matches, with the same index. */
  lemma DashedLongOptionMatches(dashes: string, name: string, n: Names)
    requires |dashes| >= 2 && forall k :: 0 <= k < |dashes| ==> dashes[k] == '-'
    requires name != [] && name[0] != '-' && n.long == Some(name)
    ensures OptionMatch(dashes + name, n) == Some(|name| + 2)
  {
    var tok := dashes + name;
    assert tok[..2] == "--" by {
      assert tok[0] == dashes[0] && tok[1] == dashes[1];
    }
    StripDashesPrefix(dashes, name);
  }

  /** "-cVALUE" with a non-empty VALUE never matches any option: no value is attached to a short name either. */
  lemma NoAttachedShortValue(tok: string, n: Names)
    requires |tok| > 2 && tok[0] == '-' && tok[1] != '-'
    ensures OptionMatch(tok, n).None?
  {
    assert !StartsWith(tok, "--");
  }

  /** Where option_present found a match: the handle's position and the index after the flag. */
  datatype Hit = Hit(index: nat, chrIdx: nat)

  /**
   * `option_present(str, flags...)` from position `i`: the first option
   * handle, in pack order, that matches the token.
   */
  function OptionPresent(tok: string, s: seq<Decl>, i: nat): (r: Option<Hit>)
    requires i <= |s|
    ensures r.Some? ==> i <= r.value.index < |s| && s[r.value.index].OptionDecl?
    ensures r.Some? ==> OptionMatch(tok, s[r.value.index].names) == Some(r.value.chrIdx)
    decreases |s| - i
  {
    if i == |s| then None
    else if s[i].OptionDecl? && OptionMatch(tok, s[i].names).Some? then
      Some(Hit(i, OptionMatch(tok, s[i].names).value))
    else OptionPresent(tok, s, i + 1)
  }

  predicate OptionMatchesAt(tok: string, s: seq<Decl>, j: int) {
    0 <= j < |s| && s[j].OptionDecl? && OptionMatch(tok, s[j].names).Some?
  }

  /** The hit is the first matching option, and there is none exactly when no option matches. */
  lemma {:induction false} OptionPresentFirst(tok: string, s: seq<Decl>, i: nat)
    requires i <= |s|
    ensures OptionPresent(tok, s, i).None? <==> forall j :: i <= j < |s| ==> !OptionMatchesAt(tok, s, j)
    ensures OptionPresent(tok, s, i).Some? ==>
      forall j :: i <= j < OptionPresent(tok, s, i).value.index ==> !OptionMatchesAt(tok, s, j)
    decreases |s| - i
  {
    if i < |s| && !OptionMatchesAt(tok, s, i) {
      OptionPresentFirst(tok, s, i + 1);
    }
  }

  /** How flag_present's two tests judge one flag. */
  datatype FlagHit = Miss | LongHit | ShortHit

  /**
   * One flag against a token: "--" and exactly its long name, or a token
   * starting with a single '-' that contains its short character anywhere.
   */
  function FlagMatch(tok: string, n: Names): FlagHit {
    var str := Stripped(tok);
    if StartsWith(tok, "--") && n.long == Some(str) then LongHit
    else if n.short.Some? && StartsWith(str, "-") && Find(str, n.short.value, 0) < |str| then ShortHit
    else Miss
  }

  /** A short hit is a single-dash token holding the character; a long hit starts with "--". */
  lemma FlagMatchShape(tok: string, n: Names)
    ensures FlagMatch(tok, n) == ShortHit <==>
      n.short.Some? && !StartsWith(tok, "--") && StartsWith(tok, "-") && Find(tok, n.short.value, 0) < |tok|
    ensures FlagMatch(tok, n) == LongHit <==> StartsWith(tok, "--") && n.long == Some(StripDashes(tok))
  {
    var str := Stripped(tok);
    if StartsWith(tok, "--") {
      assert str == StripDashes(tok);
      NotStartsWith(str, "-", 0);
    } else {
      assert str == tok;
    }
  }

  /** The declarations with slot `j`, a flag, switched on. */
  function SwitchOn(s: seq<Decl>, j: nat): (t: seq<Decl>)
    requires j < |s| && s[j].FlagDecl?
    ensures |t| == |s| && t[j] == FlagDecl(s[j].names, true)
    ensures forall m :: 0 <= m < |s| && m != j ==> t[m] == s[m]
  {
    s[j := FlagDecl(s[j].names, true)]
  }

  /**
   * `flag_present(str, flags...)` from position `i`: turns on the flags
   * the token names and reports whether there was one. A long hit ends the
   * search; a short hit goes on to the remaining handles.
   */
  function TurnOnFlags(s: seq<Decl>, tok: string, i: nat): (r: (seq<Decl>, bool))
    requires i <= |s|
    ensures |r.0| == |s|
    decreases |s| - i
  {
    if i == |s| then (s, false)
    else if s[i].FlagDecl? then
      match FlagMatch(tok, s[i].names)
      case LongHit => (SwitchOn(s, i), true)
      case ShortHit => (TurnOnFlags(SwitchOn(s, i), tok, i + 1).0, true)
      case Miss => TurnOnFlags(s, tok, i + 1)
    else TurnOnFlags(s, tok, i + 1)
  }

  predicate FlagHitAt(tok: string, s: seq<Decl>, j: int) {
    0 <= j < |s| && s[j].FlagDecl? && FlagMatch(tok, s[j].names) != Miss
  }

  /**
   * flag_present reports a switch exactly when some flag from `i` on is hit;
   * it changes only flags, only to on, and nothing before `i`.
   */
  lemma {:induction false} TurnOnFlagsFound(s: seq<Decl>, tok: string, i: nat)
    requires i <= |s|
    ensures TurnOnFlags(s, tok, i).1 <==> exists j :: i <= j < |s| && FlagHitAt(tok, s, j)
    ensures !TurnOnFlags(s, tok, i).1 ==> TurnOnFlags(s, tok, i).0 == s
    ensures forall j :: 0 <= j < |s| ==>
      TurnOnFlags(s, tok, i).0[j] == s[j] || (i <= j && s[j].FlagDecl? && TurnOnFlags(s, tok, i).0[j] == FlagDecl(s[j].names, true))
    decreases |s| - i
  {
    if i < |s| {
      if FlagHitAt(tok, s, i) {
        if FlagMatch(tok, s[i].names) == ShortHit {
          TurnOnFlagsFound(SwitchOn(s, i), tok, i + 1);
        }
      } else {
        TurnOnFlagsFound(s, tok, i + 1);
      }
    }
  }

  /**
   * A token that does not start with "--" switches on every flag whose
   * short name it contains ("-ht" sets both h and t) and no other.
   */
  lemma {:induction false} ShortFlagsAllOn(s: seq<Decl>, tok: string, i: nat)
    requires i <= |s| && !StartsWith(tok, "--")
    ensures forall j :: i <= j < |s| && s[j].FlagDecl? ==>
      TurnOnFlags(s, tok, i).0[j] == FlagDecl(s[j].names, s[j].on || FlagMatch(tok, s[j].names) == ShortHit)
    decreases |s| - i
  {
    if i < |s| {
      if s[i].FlagDecl? && FlagMatch(tok, s[i].names) == ShortHit {
        ShortFlagsAllOn(SwitchOn(s, i), tok, i + 1);
        TurnOnFlagsFound(SwitchOn(s, i), tok, i + 1);
      } else {
        ShortFlagsAllOn(s, tok, i + 1);
        TurnOnFlagsFound(s, tok, i + 1);
      }
    }
  }

  /** Slot `j` is a flag whose long name is the "--" token with its dashes stripped. */
  predicate LongFlagAt(tok: string, s: seq<Decl>, j: int) {
    0 <= j < |s| && s[j].FlagDecl? && s[j].names.long == Some(StripDashes(tok))
  }

  /**
   * A "--name" token switches on the first flag from `i` on whose long name
   * is `name`, and that flag only: the search stops there ...
   */
  lemma {:induction false} LongFlagOn(s: seq<Decl>, tok: string, i: nat, j: nat)
    requires StartsWith(tok, "--") && i <= j && LongFlagAt(tok, s, j)
    requires forall m :: i <= m < j ==> !LongFlagAt(tok, s, m)
    ensures TurnOnFlags(s, tok, i) == (SwitchOn(s, j), true)
    decreases j - i
  {
    if i < j {
      assert TurnOnFlags(s, tok, i) == TurnOnFlags(s, tok, i + 1) by {
        if s[i].FlagDecl? {
          assert !LongFlagAt(tok, s, i);
          FlagMatchShape(tok, s[i].names);
          assert FlagMatch(tok, s[i].names) == Miss;
        }
      }
      LongFlagOn(s, tok, i + 1, j);
    } else {
      FlagMatchShape(tok, s[i].names);
      assert FlagMatch(tok, s[i].names) == LongHit;
    }
  }

  /** ... and with no flag of that long name it switches on nothing and reports no flag. */
  lemma {:induction false} LongFlagAbsent(s: seq<Decl>, tok: string, i: nat)
    requires StartsWith(tok, "--") && i <= |s|
    requires forall m :: i <= m < |s| ==> !LongFlagAt(tok, s, m)
    ensures TurnOnFlags(s, tok, i) == (s, false)
    decreases |s| - i
  {
    if i < |s| {
      assert TurnOnFlags(s, tok, i) == TurnOnFlags(s, tok, i + 1) by {
        if s[i].FlagDecl? {
          assert !LongFlagAt(tok, s, i);
          FlagMatchShape(tok, s[i].names);
          assert FlagMatch(tok, s[i].names) == Miss;
        }
      }
      LongFlagAbsent(s, tok, i + 1);
    }
  }

  /**
   * `set_positional(str, flags...)` from position `i`: the first positional
   * with an empty slot takes the token; with none left, it is dropped.
   */
  function SetPositional(s: seq<Decl>, tok: string, i: nat): (t: seq<Decl>)
    requires i <= |s|
    ensures |t| == |s|
    decreases |s| - i
  {
    if i == |s| then s
    else if s[i].PositionalDecl? && s[i].value.None? then s[i := PositionalDecl(s[i].labelName, s[i].ty, Some(tok))]
    else SetPositional(s, tok, i + 1)
  }

  predicate EmptyPositionalAt(s: seq<Decl>, j: int) {
    0 <= j < |s| && s[j].PositionalDecl? && s[j].value.None?
  }

  /** The first empty positional from `i` on takes the token, and nothing else changes. */
  lemma {:induction false} SetPositionalFirst(s: seq<Decl>, tok: string, i: nat, j: nat)
    requires i <= j < |s| && EmptyPositionalAt(s, j)
    requires forall m :: i <= m < j ==> !EmptyPositionalAt(s, m)
    ensures SetPositional(s, tok, i) == s[j := PositionalDecl(s[j].labelName, s[j].ty, Some(tok))]
    decreases j - i
  {
    if i < j {
      assert !EmptyPositionalAt(s, i);
      SetPositionalFirst(s, tok, i + 1, j);
    }
  }

  /** With every positional from `i` on filled, the token is dropped. */
  lemma {:induction false} SetPositionalNone(s: seq<Decl>, tok: string, i: nat)
    requires i <= |s|
    requires forall m :: i <= m < |s| ==> !EmptyPositionalAt(s, m)
    ensures SetPositional(s, tok, i) == s
    decreases |s| - i
  {
    if i < |s| {
      assert !EmptyPositionalAt(s, i);
      SetPositionalNone(s, tok, i + 1);
    }
  }

  /** The option slot `j` given the text `v` (a later occurrence overwrites an earlier one). */
  function SetValue(s: seq<Decl>, j: nat, v: string): (t: seq<Decl>)
    requires j < |s| && s[j].OptionDecl?
    ensures |t| == |s| && t[j].OptionDecl? && t[j].value == Some(v) && Evolves(s[j], t[j])
    ensures forall m :: 0 <= m < |s| && m != j ==> t[m] == s[m]
  {
    s[j := OptionDecl(s[j].names, s[j].ty, s[j].required, s[j].defaultValue, Some(v))]
  }

  /**
   * What one token does to the slots, and how many tokens it uses up: an
   * option takes the next token when the flag fills the whole token (and
   * there is a next one), or the text after an '=' right behind the flag;
   * any other token goes to the flags, and failing those to a positional.
   * An option at the very end of the list keeps its slot; the source reads
   * one past the token there, which is taken to be no '='.
   */
  function Step(args: seq<string>, idx: nat, s: seq<Decl>): (r: (seq<Decl>, nat))
    requires idx < |args|
    ensures |r.0| == |s| && 1 <= r.1 <= 2 && idx + r.1 <= |args|
  {
    var tok := args[idx];
    match OptionPresent(tok, s, 0)
    case Some(Hit(j, c)) =>
      if c >= |tok| && idx + 1 < |args| then (SetValue(s, j, args[idx + 1]), 2)
      else if c < |tok| && tok[c] == '=' then (SetValue(s, j, tok[c + 1..]), 1)
      else (s, 1)
    case None =>
      var (t, on) := TurnOnFlags(s, tok, 0);
      if on then (t, 1) else (SetPositional(s, tok, 0), 1)
  }

  /** A match on a token with at most two leading dashes ends at the end of the token. */
  lemma MatchEndsToken(tok: string, n: Names)
    requires OptionMatch(tok, n).Some? && !StartsWith(tok, "---")
    ensures OptionMatch(tok, n).value == |tok|
  {
    OptionMatchShape(tok, n);
    if StartsWith(tok, "--") {
      assert StripDashes(tok) == tok[2..] by {
        assert tok[..2] == "--";
        if |tok| > 2 {
          assert tok[..3] == tok[..2] + [tok[2]];
        }
        StripDashesPrefix("--", tok[2..]);
        assert tok == "--" + tok[2..];
      }
    }
  }

  /**
   * An option named with one or two dashes fills the whole token, so it
   * takes the next token as its value and skips it; at the end of the list
   * it is left as it was. Either way the token reaches no flag and no
   * positional, and the '=' branch is never taken.
   */
  lemma OptionTakesNext(args: seq<string>, idx: nat, s: seq<Decl>)
    requires idx < |args| && OptionPresent(args[idx], s, 0).Some?
    requires !StartsWith(args[idx], "---")
    ensures idx + 1 < |args| ==> Step(args, idx, s) == (SetValue(s, OptionPresent(args[idx], s, 0).value.index, args[idx + 1]), 2)
    ensures idx + 1 == |args| ==> Step(args, idx, s) == (s, 1)
  {
    var h := OptionPresent(args[idx], s, 0).value;
    MatchEndsToken(args[idx], s[h.index].names);
  }

  /**
   * A token that does not start with a dash is neither an option nor a
   * flag, so it goes to the first empty positional.
   */
  lemma PlainTokenStep(args: seq<string>, idx: nat, s: seq<Decl>)
    requires idx < |args| && !StartsWith(args[idx], "-")
    ensures Step(args, idx, s) == (SetPositional(s, args[idx], 0), 1)
  {
    var tok := args[idx];
    assert !StartsWith(tok, "--") by {
      if |tok| >= 2 {
        assert tok[..1] == tok[..2][..1];
      }
    }
    OptionPresentFirst(tok, s, 0);
    TurnOnFlagsFound(s, tok, 0);
  }

  /** A token that names no option and no flag goes to the first empty positional. */
  lemma UnmatchedTokenStep(args: seq<string>, idx: nat, s: seq<Decl>)
    requires idx < |args|
    requires forall m :: 0 <= m < |s| ==> !OptionMatchesAt(args[idx], s, m) && !FlagHitAt(args[idx], s, m)
    ensures Step(args, idx, s) == (SetPositional(s, args[idx], 0), 1)
  {
    OptionPresentFirst(args[idx], s, 0);
    TurnOnFlagsFound(s, args[idx], 0);
  }

  /**
   * A token that names no option but hits a flag goes to the flags alone:
   * it switches them on, uses up one token, and no positional takes it.
   */
  lemma FlagTokenStep(args: seq<string>, idx: nat, s: seq<Decl>, j: nat)
    requires idx < |args| && OptionPresent(args[idx], s, 0).None? && FlagHitAt(args[idx], s, j)
    ensures Step(args, idx, s) == (TurnOnFlags(s, args[idx], 0).0, 1)
    ensures forall m :: 0 <= m < |s| && !s[m].FlagDecl? ==> Step(args, idx, s).0[m] == s[m]
  {
    TurnOnFlagsFound(s, args[idx], 0);
  }

  /**
   * With three or more leading dashes a matching option's index falls inside
   * the token: the character there decides, an '=' giving the rest of the
   * token as the value and anything else leaving the slots as they are; the
   * next token is never taken.
   */
  lemma DashedOptionStep(args: seq<string>, idx: nat, s: seq<Decl>)
    requires idx < |args| && StartsWith(args[idx], "---") && OptionPresent(args[idx], s, 0).Some?
    ensures OptionPresent(args[idx], s, 0).value.chrIdx < |args[idx]|
    ensures Step(args, idx, s)
            == (if args[idx][OptionPresent(args[idx], s, 0).value.chrIdx] == '='
                then SetValue(s, OptionPresent(args[idx], s, 0).value.index, args[idx][OptionPresent(args[idx], s, 0).value.chrIdx + 1..])
                else s,
                1)
  {
    var tok := args[idx];
    var h := OptionPresent(tok, s, 0).value;
    DashedMatchInside(tok, s[h.index].names);
  }

  /** With three or more leading dashes a match's index lies inside the token. */
  lemma DashedMatchInside(tok: string, n: Names)
    requires StartsWith(tok, "---") && OptionMatch(tok, n).Some?
    ensures OptionMatch(tok, n).value < |tok|
  {
    assert tok[0] == '-' && tok[1] == '-' && tok[2] == '-' by {
      assert tok[..3] == "---";
    }
    var r := StripDashes(tok);
    assert Stripped(tok) == r && !StartsWith(r, "-") by {
      assert tok[..2] == "--";
      NotStartsWith(r, "-", 0);
    }
    assert |r| + 3 <= |tok| by {
      if r != [] {
        assert r[0] == tok[|tok| - |r|];
      }
    }
  }

  /** The `parse` loop from token `idx` on. */
  function ScanFrom(args: seq<string>, idx: nat, s: seq<Decl>): (t: seq<Decl>)
    requires idx <= |args|
    ensures |t| == |s|
    decreases |args| - idx, 1
  {
    if idx == |args| then s
    else ScanAfter(args, idx, s)
  }

  /** The scan once token `idx` has been taken: its step, then the scan from where that step leaves off. */
  function ScanAfter(args: seq<string>, idx: nat, s: seq<Decl>): (t: seq<Decl>)
    requires idx < |args|
    ensures |t| == |s|
    decreases |args| - idx, 0
  {
    ScanFrom(args, idx + Step(args, idx, s).1, Step(args, idx, s).0)
  }

  /** The scan from `idx` is one step, then the scan from where that step leaves off. */
  lemma ScanStep(args: seq<string>, idx: nat, s: seq<Decl>)
    requires idx < |args|
    ensures ScanFrom(args, idx, s) == ScanFrom(args, idx + Step(args, idx, s).1, Step(args, idx, s).0)
  {
  }

  /** One step keeps every declaration's kind, names, type and default, and flags stay on. */
  lemma StepConforms(args: seq<string>, idx: nat, s: seq<Decl>)
    requires idx < |args|
    ensures Conforms(s, Step(args, idx, s).0)
  {
    var tok := args[idx];
    match OptionPresent(tok, s, 0)
    case Some(Hit(j, c)) =>
      if idx + 1 < |args| {
        SetValueConforms(s, j, args[idx + 1]);
      }
      if c < |tok| {
        SetValueConforms(s, j, tok[c + 1..]);
      }
    case None =>
      assert Conforms(s, TurnOnFlags(s, tok, 0).0) by {
        TurnOnFlagsFound(s, tok, 0);
      }
      assert Conforms(s, SetPositional(s, tok, 0)) by {
        SetPositionalConforms(s, tok);
      }
  }

  lemma SetValueConforms(s: seq<Decl>, j: nat, v: string)
    requires j < |s| && s[j].OptionDecl?
    ensures Conforms(s, SetValue(s, j, v))
  {
  }

  lemma SetPositionalConforms(s: seq<Decl>, tok: string)
    ensures Conforms(s, SetPositional(s, tok, 0))
  {
    var t := SetPositional(s, tok, 0);
    forall j | 0 <= j < |s| ensures Evolves(s[j], t[j]) {
      SetPositionalKeeps(s, tok, 0, j);
    }
  }

  lemma {:induction false} SetPositionalKeeps(s: seq<Decl>, tok: string, i: nat, j: nat)
    requires i <= |s| && j < |s|
    ensures SetPositional(s, tok, i)[j] == s[j]
            || (i <= j && EmptyPositionalAt(s, j) && SetPositional(s, tok, i)[j] == PositionalDecl(s[j].labelName, s[j].ty, Some(tok)))
    decreases |s| - i
  {
    if i < |s| && !EmptyPositionalAt(s, i) {
      SetPositionalKeeps(s, tok, i + 1, j);
    }
  }

  /**
   * Scanning never changes what was declared: the same handles in the same
   * order, with the same names, types and defaults, flags only switched on.
   */
  lemma ScanConforms(args: seq<string>, idx: nat, s: seq<Decl>)
    requires idx <= |args|
    ensures Conforms(s, ScanFrom(args, idx, s))
  {
    ScanConformsTo(args, idx, s, ScanFrom(args, idx, s));
  }

  /** The induction behind ScanConforms, with the scan's result named `u`. */
  lemma {:induction false} ScanConformsTo(args: seq<string>, idx: nat, s: seq<Decl>, u: seq<Decl>)
    requires idx <= |args| && u == ScanFrom(args, idx, s)
    ensures Conforms(s, u)
    decreases |args| - idx
  {
    if idx < |args| {
      var t, used := FirstStep(args, idx, s, u);
      ScanConformsTo(args, idx + used, t, u);
      ConformsTransitive(s, t, u);
    }
  }

  /** The first step of a scan that ends in `u`, named together with the facts about it that the scan needs. */
  lemma FirstStep(args: seq<string>, idx: nat, s: seq<Decl>, u: seq<Decl>) returns (t: seq<Decl>, used: nat)
    requires idx < |args| && u == ScanFrom(args, idx, s)
    ensures 1 <= used && idx + used <= |args|
    ensures Conforms(s, t) && u == ScanFrom(args, idx + used, t)
  {
    t, used := Step(args, idx, s).0, Step(args, idx, s).1;
    ScanStep(args, idx, s);
    StepConforms(args, idx, s);
  }

  /** Only positionals, all still empty from `k` on and filled with the tokens before. */
  predicate PositionalsFilledUpTo(s: seq<Decl>, args: seq<string>, k: nat) {
    && (forall j :: 0 <= j < |s| ==> s[j].PositionalDecl?)
    && (forall j :: 0 <= j < |s| ==> s[j].value == if j < k && j < |args| then Some(args[j]) else None)
  }

  /**
   * With positionals only, the tokens fill them in pack order and the
   * tokens beyond the last positional are dropped.
   */
  lemma {:induction false} PositionalsInOrder(args: seq<string>, idx: nat, s: seq<Decl>)
    requires idx <= |args| && PositionalsFilledUpTo(s, args, idx)
    ensures PositionalsFilledUpTo(ScanFrom(args, idx, s), args, |args|)
    decreases |args| - idx
  {
    if idx < |args| {
      var tok := args[idx];
      OptionPresentFirst(tok, s, 0);
      TurnOnFlagsFound(s, tok, 0);
      var t := SetPositional(s, tok, 0);
      if idx < |s| {
        SetPositionalFirst(s, tok, 0, idx);
      } else {
        SetPositionalNone(s, tok, 0);
      }
      assert Step(args, idx, s) == (t, 1);
      PositionalsInOrder(args, idx + 1, t);
    }
  }
}
