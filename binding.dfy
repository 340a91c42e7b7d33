/**
 * include/flags.hpp, the `parse_flag` overloads: each scanned handle
 * becomes its result (a bool, an optional value, a value) or an error, and
 * `std::tuple{ parse_flag(flags)... }` evaluates them left to right, so the
 * first error is the one that escapes.
 */
module Binding {
  import opened Wrappers
  import opened Errors
  import opened LexicalConversion
  import opened Declarations
  import opened Matching

  /** The element types of the returned tuple: bool, std::optional<T>, T. */
  datatype Out =
    | Switch(on: bool)
    | Maybe(opt: Option<Value>)
    | Just(v: Value)

  /**
   * `parse_flag(handle)`: a flag yields its boolean; an option yields its
   * converted text, or with none its default if required (unconverted) or
   * nothing if optional, failing when required and without a default; a
   * positional yields its converted text and fails when unfilled.
   */
  function BindDecl(d: Decl): Result<Out, Error> {
    match d
    case FlagDecl(_, on) => Success(Switch(on))
    case OptionDecl(n, ty, required, dv, value) =>
      if required && value.None? && dv.None? then Failure(RequiredFlagNotGiven(OptionNotGiven(n.long)))
      else if required && value.None? then Success(Just(dv.value))
      else if value.None? then Success(Maybe(None))
      else
        (match Convert(ty, value.value)
         case Success(v) => Success(if required then Just(v) else Maybe(Some(v)))
         case Failure(c) => Failure(InvalidArgument(ForOption(value.value, n.long, c))))
    case PositionalDecl(l, ty, value) =>
      if value.None? then Failure(RequiredFlagNotGiven(PositionalNotGiven(l)))
      else
        match Convert(ty, value.value)
        case Success(v) => Success(Just(v))
        case Failure(c) => Failure(InvalidArgument(c))
  }

  /** `out` is a result of the C++ type `parse_flag` returns for `d`. */
  predicate Fits(out: Out, d: Decl) {
    match d
    case FlagDecl(_, on) => out == Switch(on)
    case OptionDecl(_, ty, required, _, _) =>
      if required then out.Just? && HasType(out.v, ty)
      else out.Maybe? && (out.opt.Some? ==> HasType(out.opt.value, ty))
    case PositionalDecl(_, ty, _) => out.Just? && HasType(out.v, ty)
  }

  /** Every result has the handle's type: bool, T for required ones, optional<T> otherwise. */
  lemma BindDeclFits(d: Decl)
    requires WellTyped(d) && BindDecl(d).Success?
    ensures Fits(BindDecl(d).value, d)
  {
    match d
    case FlagDecl(_, _) =>
    case OptionDecl(_, ty, _, _, value) =>
      if value.Some? {
        ConvertTyped(ty, value.value);
      }
    case PositionalDecl(_, ty, value) =>
      ConvertTyped(ty, value.value);
  }

  /**
   * Binding fails only for a handle left without a value (a required option
   * without a default, or a positional) or whose text does not convert;
   * an option's error carries the offending text and the option's name.
   */
  lemma BindDeclFailure(d: Decl)
    requires BindDecl(d).Failure?
    ensures d.OptionDecl? || d.PositionalDecl?
    ensures d.value.None? && d.OptionDecl? ==>
      d.required && d.defaultValue.None? && BindDecl(d).error == RequiredFlagNotGiven(OptionNotGiven(d.names.long))
    ensures d.value.None? && d.PositionalDecl? ==>
      BindDecl(d).error == RequiredFlagNotGiven(PositionalNotGiven(d.labelName))
    ensures d.value.Some? ==> Convert(d.ty, d.value.value).Failure?
    ensures d.value.Some? && d.OptionDecl? ==>
      BindDecl(d).error == InvalidArgument(ForOption(d.value.value, d.names.long, Convert(d.ty, d.value.value).error))
    ensures d.value.Some? && d.PositionalDecl? ==>
      BindDecl(d).error == InvalidArgument(Convert(d.ty, d.value.value).error)
  {
  }

  /**
   * An option no token gave a value: a required one yields its default as
   * stored, or fails naming its long name when it has none; an optional one
   * yields an empty optional whatever its default.
   */
  lemma BindUnsetOption(n: Names, ty: ValueType, required: bool, dv: Option<Value>)
    ensures BindDecl(OptionDecl(n, ty, required, dv, None)) == Failure(RequiredFlagNotGiven(OptionNotGiven(n.long)))
            <==> required && dv.None?
    ensures (dv.Some? && BindDecl(OptionDecl(n, ty, required, dv, None)) == Success(Just(dv.value)))
            <==> required && dv.Some?
    ensures BindDecl(OptionDecl(n, ty, required, dv, None)) == Success(Maybe(None)) <==> !required
  {
  }

  /**
   * Once a token gave an option its text, the default plays no part: the
   * result is the text's conversion, bare when required and wrapped in an
   * optional otherwise, or the conversion's error rethrown with the text and
   * the option's long name.
   */
  lemma BindGivenOption(n: Names, ty: ValueType, dv: Option<Value>, text: string)
    ensures BindDecl(OptionDecl(n, ty, true, dv, Some(text))) == BindDecl(OptionDecl(n, ty, true, None, Some(text)))
    ensures BindDecl(OptionDecl(n, ty, false, dv, Some(text))) == BindDecl(OptionDecl(n, ty, false, None, Some(text)))
    ensures BindDecl(OptionDecl(n, ty, true, dv, Some(text))).Success?
            <==> BindDecl(OptionDecl(n, ty, false, dv, Some(text))).Success?
    ensures BindDecl(OptionDecl(n, ty, true, dv, Some(text))).Success? ==>
      BindDecl(OptionDecl(n, ty, false, dv, Some(text))).value == Maybe(Some(BindDecl(OptionDecl(n, ty, true, dv, Some(text))).value.v))
    ensures BindDecl(OptionDecl(n, ty, true, dv, Some(text))).Failure? ==>
      BindDecl(OptionDecl(n, ty, false, dv, Some(text))) == BindDecl(OptionDecl(n, ty, true, dv, Some(text)))
    ensures Convert(ty, text).Success? ==>
      && BindDecl(OptionDecl(n, ty, true, dv, Some(text))) == Success(Just(Convert(ty, text).value))
      && BindDecl(OptionDecl(n, ty, false, dv, Some(text))) == Success(Maybe(Some(Convert(ty, text).value)))
    ensures Convert(ty, text).Failure? ==>
      BindDecl(OptionDecl(n, ty, true, dv, Some(text))) == Failure(InvalidArgument(ForOption(text, n.long, Convert(ty, text).error)))
  {
  }

  /**
   * A positional fails naming its label exactly when no token filled it;
   * filled, it yields its text's conversion, or that conversion's error
   * unwrapped.
   */
  lemma BindPositional(l: string, ty: ValueType, value: Option<string>)
    ensures BindDecl(PositionalDecl(l, ty, value)) == Failure(RequiredFlagNotGiven(PositionalNotGiven(l))) <==> value.None?
    ensures BindDecl(PositionalDecl(l, ty, value)).Success? <==> value.Some? && Convert(ty, value.value).Success?
    ensures BindDecl(PositionalDecl(l, ty, value)).Success? ==> BindDecl(PositionalDecl(l, ty, value)).value.Just?
    ensures value.Some? && Convert(ty, value.value).Success? ==>
      BindDecl(PositionalDecl(l, ty, value)) == Success(Just(Convert(ty, value.value).value))
    ensures value.Some? && Convert(ty, value.value).Failure? ==>
      BindDecl(PositionalDecl(l, ty, value)) == Failure(InvalidArgument(Convert(ty, value.value).error))
  {
  }

  /**
   * An option given the rendering of a value gets exactly that value back,
   * whatever its default.
   */
  lemma BindShown(n: Names, ty: ValueType, required: bool, dv: Option<Value>, v: Value)
    requires Canonical(v, ty)
    ensures BindDecl(OptionDecl(n, ty, required, dv, Some(Show(v))))
            == Success(if required then Just(v) else Maybe(Some(v)))
  {
    ConvertShow(v, ty);
  }

  /** The tuple: results in pack order, or the error of the first handle that fails. */
  function BindAll(ds: seq<Decl>): Result<seq<Out>, Error> {
    if ds == [] then Success([])
    else
      match BindDecl(ds[0])
      case Failure(e) => Failure(e)
      case Success(o) =>
        match BindAll(ds[1..])
        case Failure(e) => Failure(e)
        case Success(os) => Success([o] + os)
  }

  /** A successful tuple holds one result per handle, each the handle's own binding. */
  lemma {:induction false} BindAllSuccess(ds: seq<Decl>)
    requires BindAll(ds).Success?
    ensures |BindAll(ds).value| == |ds|
    ensures forall j :: 0 <= j < |ds| ==> BindDecl(ds[j]) == Success(BindAll(ds).value[j])
  {
    if ds != [] {
      BindAllSuccess(ds[1..]);
      var os := BindAll(ds).value;
      forall j | 0 <= j < |ds| ensures BindDecl(ds[j]) == Success(os[j]) {
        if j > 0 { assert ds[j] == ds[1..][j - 1]; }
      }
    }
  }

  predicate FirstBindFailureAt(ds: seq<Decl>, j: int, e: Error) {
    && 0 <= j < |ds|
    && BindDecl(ds[j]) == Failure(e)
    && forall m :: 0 <= m < j ==> BindDecl(ds[m]).Success?
  }

  /** The tuple fails exactly when some handle fails, and with the first one's error. */
  lemma {:induction false} BindAllFailure(ds: seq<Decl>)
    ensures BindAll(ds).Failure? <==> exists j :: 0 <= j < |ds| && BindDecl(ds[j]).Failure?
    ensures BindAll(ds).Failure? ==> exists j :: FirstBindFailureAt(ds, j, BindAll(ds).error)
  {
    if ds != [] {
      BindAllFailure(ds[1..]);
      var r := BindAll(ds);
      if BindDecl(ds[0]).Failure? {
        assert FirstBindFailureAt(ds, 0, r.error);
      } else if r.Failure? {
        var j :| FirstBindFailureAt(ds[1..], j, r.error);
        assert FirstBindFailureAt(ds, j + 1, r.error);
      } else {
        forall j | 0 <= j < |ds| ensures BindDecl(ds[j]).Success? {
          if j > 0 { assert ds[j] == ds[1..][j - 1]; }
        }
      }
    }
  }

  /**
   * What `parse(flags...)` returns for the token list: the handles are
   * copies, scanned from the first token on, then bound in order.
   */
  function ParseResult(args: seq<string>, handles: seq<Decl>): Result<seq<Out>, Error> {
    BindAll(ScanFrom(args, 0, handles))
  }

  /**
   * A successful parse has one result per handle, each of the handle's type
   * (flags give their scanned boolean, the rest a value or an optional).
   */
  lemma ParseFits(args: seq<string>, handles: seq<Decl>)
    requires forall j :: 0 <= j < |handles| ==> WellTyped(handles[j])
    requires ParseResult(args, handles).Success?
    ensures |ParseResult(args, handles).value| == |handles|
    ensures forall j :: 0 <= j < |handles| ==> Fits(ParseResult(args, handles).value[j], ScanFrom(args, 0, handles)[j])
  {
    var t := ScanFrom(args, 0, handles);
    ScanConforms(args, 0, handles);
    BindAllSuccess(t);
    forall j | 0 <= j < |handles| ensures Fits(ParseResult(args, handles).value[j], t[j]) {
      assert Evolves(handles[j], t[j]);
      BindDeclFits(t[j]);
    }
  }
}
