/**
 * include/flags.hpp, the declarations: a schema string such as "h,help"
 * split into its names, and the handle structs Flag, Option<T, Required>
 * and Positional<T>, gathered into one datatype so that the template pack
 * handed to `parse` becomes a sequence.
 */
module Declarations {
  import opened Wrappers
  import opened Errors
  import opened StringViews
  import opened LexicalConversion

  /** The pair get_flag_names returns: an optional long name and an optional short character. */
  datatype Names = Names(long: Option<string>, short: Option<char>)

  /**
   * `get_flag_names(schema)`: without a comma the schema is judged by its
   * length; with one it is split at the first comma and exactly one side
   * must be a single character, which becomes the short name.
   */
  function GetFlagNames(schema: string): (r: Result<Names, Error>)
    ensures r.Success? ==> ValidNames(r.value)
    ensures r.Failure? ==> r.error.InvalidFlagSpec? && r.error.problem != TrailingComma
  {
    var pos := Find(schema, ',', 0);
    if pos == |schema| then
      if |schema| == 0 then Failure(InvalidFlagSpec(EmptySchema))
      else if |schema| == 1 then Success(Names(None, Some(schema[0])))
      else Success(Names(Some(schema), None))
    else
      var first := schema[..pos];
      var second := schema[pos + 1..];
      if |first| == 1 && |second| == 1 then Failure(InvalidFlagSpec(TwoShortNames))
      else if |first| != 1 && |second| != 1 then Failure(InvalidFlagSpec(TwoLongNames))
      else if |first| == 1 then Success(Names(Some(second), Some(first[0])))
      else if |second| == 1 then Success(Names(Some(first), Some(second[0])))
      else Failure(InvalidFlagSpec(TrailingComma))
  }

  /**
   * The name pairs some schema yields: a lone short name is not a comma, a
   * lone long name has two or more characters and no comma, and a long name
   * beside a short one is not a single character (it may be empty, and it
   * may hold commas unless the short name is itself a comma).
   */
  predicate ValidNames(n: Names) {
    match (n.long, n.short)
    case (None, None) => false
    case (None, Some(c)) => c != ','
    case (Some(l), None) => |l| >= 2 && CommaFree(l)
    case (Some(l), Some(c)) => |l| != 1 && (c == ',' ==> CommaFree(l))
  }

  /** A schema string for the names: long then short, or short first when the long name holds a comma. */
  function Render(n: Names): string {
    match (n.long, n.short)
    case (None, None) => ""
    case (None, Some(c)) => [c]
    case (Some(l), None) => l
    case (Some(l), Some(c)) => if CommaFree(l) then l + "," + [c] else [c] + "," + l
  }

  lemma CommaFreeFind(s: string)
    requires CommaFree(s)
    ensures Find(s, ',', 0) == |s|
  {
    FindIs(s, ',', 0, |s|);
  }

  /** `a,b` with a comma-free `a` is split into exactly `a` and `b`. */
  lemma SplitAtComma(a: string, b: string)
    requires CommaFree(a)
    ensures Find(a + "," + b, ',', 0) == |a|
    ensures (a + "," + b)[..|a|] == a && (a + "," + b)[|a| + 1..] == b
  {
    var s := a + "," + b;
    forall j | 0 <= j < |a| ensures s[j] != ',' {
      assert s[j] == a[j];
    }
    FindIs(s, ',', 0, |a|);
  }

  /**
   * A schema without a comma: empty is an error, one character is a short
   * name only, anything longer is a long name only.
   */
  lemma SchemaWithoutComma(schema: string)
    requires CommaFree(schema)
    ensures |schema| == 0 ==> GetFlagNames(schema) == Failure(InvalidFlagSpec(EmptySchema))
    ensures |schema| == 1 ==> GetFlagNames(schema) == Success(Names(None, Some(schema[0])))
    ensures |schema| >= 2 ==> GetFlagNames(schema) == Success(Names(Some(schema), None))
  {
    CommaFreeFind(schema);
  }

  /**
   * A schema with a comma: two one-character sides or two longer sides are
   * rejected, otherwise the one-character side is the short name. The
   * trailing-comma error is never raised.
   */
  lemma SchemaWithComma(a: string, b: string)
    requires CommaFree(a)
    ensures |a| == 1 && |b| == 1 ==> GetFlagNames(a + "," + b) == Failure(InvalidFlagSpec(TwoShortNames))
    ensures |a| != 1 && |b| != 1 ==> GetFlagNames(a + "," + b) == Failure(InvalidFlagSpec(TwoLongNames))
    ensures |a| == 1 && |b| != 1 ==> GetFlagNames(a + "," + b) == Success(Names(Some(b), Some(a[0])))
    ensures |a| != 1 && |b| == 1 ==> GetFlagNames(a + "," + b) == Success(Names(Some(a), Some(b[0])))
  {
    SplitAtComma(a, b);
  }

  /** "h,help" and "help,h" declare the same names, and so do all such swaps. */
  lemma SchemaOrderInsensitive(a: string, b: string)
    requires CommaFree(a) && CommaFree(b)
    ensures GetFlagNames(a + "," + b) == GetFlagNames(b + "," + a)
  {
    SchemaWithComma(a, b);
    SchemaWithComma(b, a);
  }

  /** Every name pair get_flag_names can produce is produced from its rendering. */
  lemma RenderRoundTrip(n: Names)
    requires ValidNames(n)
    ensures GetFlagNames(Render(n)) == Success(n)
  {
    match (n.long, n.short)
    case (None, Some(c)) =>
      assert CommaFree([c]);
      SchemaWithoutComma([c]);
    case (Some(l), None) =>
      SchemaWithoutComma(l);
    case (Some(l), Some(c)) =>
      if CommaFree(l) {
        SchemaWithComma(l, [c]);
      } else {
        assert CommaFree([c]);
        SchemaWithComma([c], l);
      }
  }

  /**
   * One argument of the `parse` pack, with its value slot: a Flag (its
   * boolean), an Option<T, Required> (its default and the text last given),
   * or a Positional<T> (the text that filled it).
   */
  datatype Decl =
    | FlagDecl(names: Names, on: bool)
    | OptionDecl(names: Names, ty: ValueType, required: bool, defaultValue: Option<Value>, value: Option<string>)
    | PositionalDecl(labelName: string, ty: ValueType, value: Option<string>)

  /** A default, if any, is a value of the option's type (Option<T, R>::default_value is a T). */
  predicate WellTyped(d: Decl) {
    d.OptionDecl? && d.defaultValue.Some? ==> HasType(d.defaultValue.value, d.ty)
  }

  /**
   * `t` is what scanning may turn `d` into: the same kind, names, label,
   * type and default; a flag never switches back off.
   */
  predicate Evolves(d: Decl, t: Decl) {
    match d
    case FlagDecl(n, on) => t.FlagDecl? && t.names == n && (on ==> t.on)
    case OptionDecl(n, ty, req, dv, _) =>
      t.OptionDecl? && t.names == n && t.ty == ty && t.required == req && t.defaultValue == dv
    case PositionalDecl(l, ty, _) => t.PositionalDecl? && t.labelName == l && t.ty == ty
  }

  /** The same declarations, slot for slot, as far as scanning may change them. */
  predicate Conforms(s: seq<Decl>, t: seq<Decl>) {
    |s| == |t| && forall j :: 0 <= j < |s| ==> Evolves(s[j], t[j])
  }

  lemma ConformsTransitive(s: seq<Decl>, t: seq<Decl>, u: seq<Decl>)
    requires Conforms(s, t) && Conforms(t, u)
    ensures Conforms(s, u)
  {
  }
}
