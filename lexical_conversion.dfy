/**
 * include/lexical_conversion.hpp: turning the text of one argument into a
 * typed value. The set of types the source can convert (its
 * `lexically_convertible` concept) is the datatype ValueType.
 */
module LexicalConversion {
  import opened Wrappers
  import opened Errors
  import opened StringViews
  import opened OpTypes

  /** The integer instances of DEFINE_NUMERIC_STR_TO_VALUE (an LP64 target). */
  datatype IntKind = Int | UnsignedInt | Long | UnsignedLong | LongLong | UnsignedLongLong

  predicate IsSigned(k: IntKind) {
    k.Int? || k.Long? || k.LongLong?
  }

  function MinOf(k: IntKind): int {
    match k
    case Int => -0x8000_0000
    case Long | LongLong => -0x8000_0000_0000_0000
    case _ => 0
  }

  function MaxOf(k: IntKind): int {
    match k
    case Int => 0x7FFF_FFFF
    case UnsignedInt => 0xFFFF_FFFF
    case Long | LongLong => 0x7FFF_FFFF_FFFF_FFFF
    case UnsignedLong | UnsignedLongLong => 0xFFFF_FFFF_FFFF_FFFF
  }

  /** The target types: std::string, char, the integers, OpType, std::vector<T>. */
  datatype ValueType = TString | TChar | TInt(kind: IntKind) | TOp | TList(elem: ValueType)

  datatype Value =
    | VString(str: string)
    | VChar(ch: char)
    | VInt(num: int)
    | VOp(op: OpType)
    | VList(items: seq<Value>)

  /** `v` is a value of the C++ type `ty` (integers within the width). */
  predicate HasType(v: Value, ty: ValueType)
    decreases ty
  {
    match ty
    case TString => v.VString?
    case TChar => v.VChar?
    case TInt(k) => v.VInt? && MinOf(k) <= v.num <= MaxOf(k)
    case TOp => v.VOp?
    case TList(e) => v.VList? && forall j :: 0 <= j < |v.items| ==> HasType(v.items[j], e)
  }

  // ---------------------------------------------------------------------
  // Integers: std::from_chars in base 10

  predicate IsDigit(c: char) {
    '0' <= c <= '9'
  }

  predicate AllDigits(d: string) {
    forall j :: 0 <= j < |d| ==> IsDigit(d[j])
  }

  /** Length of the run of decimal digits at the start of `s`. */
  function DigitPrefixLength(s: string): (n: nat)
    ensures n <= |s| && AllDigits(s[..n])
    ensures n == |s| || !IsDigit(s[n])
  {
    if |s| > 0 && IsDigit(s[0]) then
      var n := 1 + DigitPrefixLength(s[1..]);
      assert s[..n] == [s[0]] + s[1..][..n - 1];
      n
    else 0
  }

  /** The value of one decimal digit. */
  function DigitValue(c: char): nat {
    if IsDigit(c) then c as int - '0' as int else 0
  }

  /** The number a string of decimal digits denotes. */
  function DigitsValue(d: string): nat {
    if d == [] then 0 else 10 * DigitsValue(d[..|d| - 1]) + DigitValue(d[|d| - 1])
  }

  /**
   * `std::from_chars(first, last, out)` for an integer type, with the end
   * position it reports discarded as the source does: an optional '-' (signed types
   * only), then the longest run of digits; whatever follows is ignored.
   */
  function FromChars(input: string, k: IntKind): (r: Result<int, Cause>)
    ensures r.Success? ==> MinOf(k) <= r.value <= MaxOf(k)
    ensures r.Failure? ==> r.error == NotANumber(input) || r.error == TooBig
    ensures r == Failure(NotANumber(input)) <==>
      || input == []
      || (!IsDigit(input[0]) && !(IsSigned(k) && input[0] == '-'))
      || (IsSigned(k) && input[0] == '-' && (|input| == 1 || !IsDigit(input[1])))
  {
    var negative := IsSigned(k) && |input| > 0 && input[0] == '-';
    match Magnitude(if negative then input[1..] else input)
    case None => Failure(NotANumber(input))
    case Some(m) => RangeChecked(if negative then -m else m, k)
  }

  /** The value of the run of digits `s` starts with, if there is one. */
  function Magnitude(s: string): (r: Option<int>)
    ensures r.None? <==> s == [] || !IsDigit(s[0])
    ensures r.Some? ==> r.value >= 0
  {
    var n := DigitPrefixLength(s);
    if n == 0 then None else Some(DigitsValue(s[..n]))
  }

  /** The value if the type holds it, else the out-of-range error (no truncation). */
  function RangeChecked(v: int, k: IntKind): (r: Result<int, Cause>)
    ensures r.Success? <==> MinOf(k) <= v <= MaxOf(k)
    ensures r.Success? ==> r.value == v
    ensures r.Failure? ==> r.error == TooBig
  {
    if v < MinOf(k) || MaxOf(k) < v then Failure(TooBig) else Success(v)
  }

  /** Decimal rendering of a natural number, most significant digit first. */
  function ShowNat(n: nat): (s: string)
    ensures |s| > 0 && AllDigits(s)
  {
    if n < 10 then [('0' as int + n) as char]
    else ShowNat(n / 10) + [('0' as int + n % 10) as char]
  }

  /** Decimal rendering of an integer, with a leading '-' when negative. */
  function ShowInt(i: int): string {
    if i < 0 then "-" + ShowNat(-i) else ShowNat(i)
  }

  lemma {:induction false} ShowNatValue(n: nat)
    ensures DigitsValue(ShowNat(n)) == n
  {
    if n >= 10 {
      var s := ShowNat(n);
      ShowNatValue(n / 10);
      assert s[..|s| - 1] == ShowNat(n / 10);
    }
  }

  lemma {:induction false} DigitPrefixOfDigits(d: string, rest: string)
    requires AllDigits(d)
    requires rest == [] || !IsDigit(rest[0])
    ensures DigitPrefixLength(d + rest) == |d|
  {
    if d != [] {
      assert (d + rest)[1..] == d[1..] + rest;
      DigitPrefixOfDigits(d[1..], rest);
    }
  }

  lemma MagnitudeOfDigits(digits: string, rest: string)
    requires |digits| > 0 && AllDigits(digits)
    requires rest == [] || !IsDigit(rest[0])
    ensures Magnitude(digits + rest) == Some(DigitsValue(digits) as int)
  {
    DigitPrefixOfDigits(digits, rest);
    assert (digits + rest)[..|digits|] == digits;
  }

  /**
   * The grammar from_chars accepts: a run of digits whose decimal value is
   * `m` gives `m`, range-checked, and whatever non-digit text follows is
   * ignored ...
   */
  lemma FromCharsUnsigned(digits: string, rest: string, k: IntKind, m: int)
    requires |digits| > 0 && AllDigits(digits) && m == DigitsValue(digits)
    requires rest == [] || !IsDigit(rest[0])
    ensures FromChars(digits + rest, k) == RangeChecked(m, k)
  {
    MagnitudeOfDigits(digits, rest);
  }

  /** ... and after a '-', for the signed types only, `-m`. */
  lemma FromCharsSigned(digits: string, rest: string, k: IntKind, m: int)
    requires IsSigned(k) && |digits| > 0 && AllDigits(digits) && m == DigitsValue(digits)
    requires rest == [] || !IsDigit(rest[0])
    ensures FromChars("-" + (digits + rest), k) == RangeChecked(-m, k)
  {
    var body := digits + rest;
    assert Magnitude(body) == Some(m) by {
      MagnitudeOfDigits(digits, rest);
    }
    FromCharsNegated(body, k, m);
  }

  lemma FromCharsNegated(body: string, k: IntKind, m: int)
    requires IsSigned(k) && Magnitude(body) == Some(m)
    ensures FromChars("-" + body, k) == RangeChecked(-m, k)
  {
    assert ("-" + body)[0] == '-' && ("-" + body)[1..] == body;
  }

  /**
   * from_chars reads back the decimal rendering of any integer its type can
   * hold, ignoring trailing non-digits, and reports TooBig for every value
   * outside the width instead of truncating it.
   */
  lemma FromCharsOfShown(v: int, k: IntKind, rest: string)
    requires v >= 0 || IsSigned(k)
    requires rest == [] || !IsDigit(rest[0])
    ensures FromChars(ShowInt(v) + rest, k) == RangeChecked(v, k)
  {
    if v < 0 {
      FromCharsOfShownNegative(v, k, rest);
    } else {
      FromCharsOfShownNatural(v, k, rest);
    }
  }

  lemma FromCharsOfShownNatural(v: int, k: IntKind, rest: string)
    requires v >= 0
    requires rest == [] || !IsDigit(rest[0])
    ensures FromChars(ShowInt(v) + rest, k) == RangeChecked(v, k)
  {
    var digits := ShowNat(v);
    assert ShowInt(v) == digits;
    ShowNatValue(v);
    FromCharsUnsigned(digits, rest, k, v);
  }

  lemma FromCharsOfShownNegative(v: int, k: IntKind, rest: string)
    requires v < 0 && IsSigned(k)
    requires rest == [] || !IsDigit(rest[0])
    ensures FromChars(ShowInt(v) + rest, k) == RangeChecked(v, k)
  {
    var digits := ShowNat(-v);
    assert ShowInt(v) + rest == "-" + (digits + rest);
    ShowNatValue(-v);
    FromCharsSigned(digits, rest, k, -v);
  }


  // ---------------------------------------------------------------------
  // Lists: splitting on every comma

  /** The segments between the commas of `s[start..]`; always at least one. */
  function SplitFrom(s: string, start: nat): (r: seq<string>)
    requires start <= |s|
    ensures |r| > 0
    decreases |s| - start
  {
    var p := Find(s, ',', start);
    if p == |s| then [s[start..]] else [s[start..p]] + SplitFrom(s, p + 1)
  }

  /** The segments between the commas of `s`: empty ones are kept. */
  function Split(s: string): seq<string> {
    SplitFrom(s, 0)
  }

  /** The segments joined back with commas. */
  function Join(parts: seq<string>): string {
    if |parts| == 0 then ""
    else if |parts| == 1 then parts[0]
    else parts[0] + "," + Join(parts[1..])
  }

  predicate CommaFree(s: string) {
    forall j :: 0 <= j < |s| ==> s[j] != ','
  }

  /** No segment contains a comma. */
  lemma {:induction false} SplitCommaFree(s: string, start: nat)
    requires start <= |s|
    ensures forall j :: 0 <= j < |SplitFrom(s, start)| ==> CommaFree(SplitFrom(s, start)[j])
    decreases |s| - start
  {
    var p := Find(s, ',', start);
    if p < |s| {
      SplitCommaFree(s, p + 1);
    }
  }

  /** One segment per comma plus one. */
  lemma {:induction false} SplitCount(s: string, start: nat)
    requires start <= |s|
    ensures |SplitFrom(s, start)| == CountFrom(s, ',', start) + 1
    decreases |s| - start
  {
    var p := Find(s, ',', start);
    CountFromSkip(s, ',', start, p);
    if p < |s| {
      SplitCount(s, p + 1);
    }
  }

  /** Splitting loses nothing: joining the segments gives the text back. */
  lemma {:induction false} JoinSplit(s: string, start: nat)
    requires start <= |s|
    ensures Join(SplitFrom(s, start)) == s[start..]
    decreases |s| - start
  {
    var p := Find(s, ',', start);
    if p < |s| {
      JoinSplit(s, p + 1);
      var rest := SplitFrom(s, p + 1);
      assert SplitFrom(s, start)[1..] == rest;
      assert s[start..] == s[start..p] + "," + s[p + 1..];
    }
  }

  /** The first comma after a comma-free stretch `x` is the one right after it. */
  lemma FindAfter(pre: string, x: string, post: string)
    requires CommaFree(x)
    requires post == [] || post[0] == ','
    ensures Find(pre + x + post, ',', |pre|) == |pre| + |x|
    ensures (pre + x + post)[|pre|..|pre| + |x|] == x
  {
    var s := pre + x + post;
    forall j | |pre| <= j < |pre| + |x| ensures s[j] != ',' {
      assert s[j] == x[j - |pre|];
    }
    FindIs(s, ',', |pre|, |pre| + |x|);
  }

  /**
   * Splitting inverts joining for a non-empty list of comma-free parts
   * (stated from any position of a text whose rest is the join, so that the
   * induction can move along).
   */
  lemma {:induction false} SplitJoin(s: string, start: nat, parts: seq<string>)
    requires start <= |s| && s[start..] == Join(parts)
    requires |parts| > 0
    requires forall j :: 0 <= j < |parts| ==> CommaFree(parts[j])
    ensures SplitFrom(s, start) == parts
    decreases |parts|
  {
    var x := parts[0];
    var e := start + |x|;
    var rest := Join(parts[1..]);
    if |parts| == 1 {
      assert s[start..] == x;
    } else {
      assert s[start..] == x + "," + rest;
    }
    assert e <= |s| && s[start..e] == x;
    forall j | start <= j < e ensures s[j] != ',' {
      assert s[j] == x[j - start];
    }
    if |parts| == 1 {
      FindIs(s, ',', start, e);
      assert parts == [x];
    } else {
      assert s[e] == ',' && s[e + 1..] == rest;
      FindIs(s, ',', start, e);
      SplitJoin(s, e + 1, parts[1..]);
      assert parts == [x] + parts[1..];
    }
  }



  // ---------------------------------------------------------------------
  // The overload set

  /**
   * `lexical_conversion<T>(input)`: identity for std::string, the first
   * character for char, from_chars for integers, the OpType converter, and
   * the comma-splitting std::vector<T> overload for lists.
   */
  function Convert(ty: ValueType, input: string): Result<Value, Cause>
    decreases ty, 0
  {
    match ty
    case TString => Success(VString(input))
    case TChar => if |input| == 0 then Failure(EmptyInput) else Success(VChar(input[0]))
    case TInt(k) =>
      (match FromChars(input, k)
       case Success(i) => Success(VInt(i))
       case Failure(c) => Failure(c))
    case TOp =>
      (match ConvertOp(input)
       case Success(op) => Success(VOp(op))
       case Failure(c) => Failure(c))
    case TList(e) =>
      (match ConvertSegments(e, Split(input))
       case Success(vs) => Success(VList(vs))
       case Failure(c) => Failure(c))
  }

  /** The std::string conversion never fails and gives the text back unchanged. */
  lemma StringIdentity(input: string)
    ensures Convert(TString, input).Success?
    ensures Show(Convert(TString, input).value) == input
  {
  }

  /**
   * The char conversion fails exactly on empty input; otherwise it is the
   * first character, whatever follows it.
   */
  lemma CharFirst(input: string)
    ensures Convert(TChar, input).Failure? <==> input == []
    ensures Convert(TChar, input).Failure? ==> Convert(TChar, input).error == EmptyInput
    ensures input != [] ==> Convert(TChar, input) == Convert(TChar, input[..1]) == Success(VChar(input[0]))
  {
  }

  /**
   * An integer conversion reads the leading run of digits and ignores what
   * follows it: the run's value when it fits the type, "too big" otherwise.
   */
  lemma ConvertIntDigits(digits: string, rest: string, k: IntKind, m: int)
    requires |digits| > 0 && AllDigits(digits) && m == DigitsValue(digits)
    requires rest == [] || !IsDigit(rest[0])
    ensures MinOf(k) <= m <= MaxOf(k) ==> Convert(TInt(k), digits + rest) == Success(VInt(m))
    ensures !(MinOf(k) <= m <= MaxOf(k)) ==> Convert(TInt(k), digits + rest) == Failure(TooBig)
  {
    FromCharsUnsigned(digits, rest, k, m);
    ConvertIntRange(digits + rest, k, m);
  }

  /** For a signed type, '-' and a run of digits read as the negated run, whatever follows. */
  lemma ConvertIntNegative(digits: string, rest: string, k: IntKind, m: int)
    requires IsSigned(k) && |digits| > 0 && AllDigits(digits) && m == DigitsValue(digits)
    requires rest == [] || !IsDigit(rest[0])
    ensures MinOf(k) <= -m <= MaxOf(k) ==> Convert(TInt(k), "-" + (digits + rest)) == Success(VInt(-m))
    ensures !(MinOf(k) <= -m <= MaxOf(k)) ==> Convert(TInt(k), "-" + (digits + rest)) == Failure(TooBig)
  {
    FromCharsSigned(digits, rest, k, m);
    ConvertIntRange("-" + (digits + rest), k, -m);
  }

  lemma ConvertIntRange(input: string, k: IntKind, v: int)
    requires FromChars(input, k) == RangeChecked(v, k)
    ensures MinOf(k) <= v <= MaxOf(k) ==> Convert(TInt(k), input) == Success(VInt(v))
    ensures !(MinOf(k) <= v <= MaxOf(k)) ==> Convert(TInt(k), input) == Failure(TooBig)
  {
  }

  /**
   * An integer conversion is "not a number" exactly when the text is empty,
   * starts with neither a digit nor (signed types) '-', or is a '-' not
   * followed by a digit.
   */
  lemma ConvertIntNotANumber(input: string, k: IntKind)
    ensures Convert(TInt(k), input) == Failure(NotANumber(input)) <==>
      || input == []
      || (!IsDigit(input[0]) && !(IsSigned(k) && input[0] == '-'))
      || (IsSigned(k) && input[0] == '-' && (|input| == 1 || !IsDigit(input[1])))
  {
    var r := FromChars(input, k);
    assert Convert(TInt(k), input) == Failure(NotANumber(input)) <==> r == Failure(NotANumber(input));
  }

  /**
   * The OpType conversion looks only at the first character: empty text is
   * "no operation", a symbol is its operation, anything else is "unknown
   * operation", whatever follows.
   */
  lemma ConvertOpFirst(input: string)
    ensures input == [] ==> Convert(TOp, input) == Failure(NoOperation)
    ensures input != [] ==> Convert(TOp, input) == Convert(TOp, input[..1])
    ensures input != [] && input[0] in "+-*/" ==>
      Convert(TOp, input).Success? && Convert(TOp, input).value.VOp? && Symbol(Convert(TOp, input).value.op) == input[0]
    ensures input != [] && input[0] !in "+-*/" ==> Convert(TOp, input) == Failure(UnknownOperation)
  {
    if input != [] {
      assert input[..1][0] == input[0];
    }
  }

  /**
   * The body of the std::vector<T> loop over the segments: every segment is
   * converted in order, and the first failure is rethrown naming the
   * segment (see ConvertSegmentsFailure); no partial list survives it.
   */
  function ConvertSegments(elem: ValueType, segs: seq<string>): Result<seq<Value>, Cause>
    decreases elem, 1, |segs|
  {
    if segs == [] then Success([])
    else
      match Convert(elem, segs[0])
      case Failure(c) => Failure(InList(segs[0], c))
      case Success(v) =>
        match ConvertSegments(elem, segs[1..])
        case Failure(c) => Failure(c)
        case Success(vs) => Success([v] + vs)
  }

  /** A successful list conversion holds one converted value per segment, in order. */
  lemma {:induction false} ConvertSegmentsSuccess(elem: ValueType, segs: seq<string>)
    requires ConvertSegments(elem, segs).Success?
    ensures |ConvertSegments(elem, segs).value| == |segs|
    ensures forall j :: 0 <= j < |segs| ==> Convert(elem, segs[j]) == Success(ConvertSegments(elem, segs).value[j])
  {
    if segs != [] {
      ConvertSegmentsSuccess(elem, segs[1..]);
      var vs := ConvertSegments(elem, segs).value;
      forall j | 0 <= j < |segs| ensures Convert(elem, segs[j]) == Success(vs[j]) {
        if j > 0 { assert segs[j] == segs[1..][j - 1]; }
      }
    }
  }

  /** Every successful conversion yields a value of the requested type. */
  lemma {:induction false} ConvertTyped(ty: ValueType, input: string)
    requires Convert(ty, input).Success?
    ensures HasType(Convert(ty, input).value, ty)
    decreases ty
  {
    match ty
    case TString =>
    case TChar =>
    case TInt(k) =>
    case TOp =>
    case TList(e) =>
      var segs := Split(input);
      ConvertSegmentsSuccess(e, segs);
      var vs := ConvertSegments(e, segs).value;
      forall j | 0 <= j < |vs| ensures HasType(vs[j], e) {
        ConvertTyped(e, segs[j]);
      }
  }

  /** The first segment that fails decides the error, which names it. */
  predicate FirstFailureAt(elem: ValueType, segs: seq<string>, j: int, e: Cause) {
    && 0 <= j < |segs|
    && Convert(elem, segs[j]).Failure?
    && e == InList(segs[j], Convert(elem, segs[j]).error)
    && forall m :: 0 <= m < j ==> Convert(elem, segs[m]).Success?
  }

  /**
   * A list conversion fails exactly when some segment fails, and then with
   * the error of the first failing segment, wrapped with that segment's text.
   */
  lemma {:induction false} ConvertSegmentsFailure(elem: ValueType, segs: seq<string>)
    ensures ConvertSegments(elem, segs).Failure? <==> exists j :: 0 <= j < |segs| && Convert(elem, segs[j]).Failure?
    ensures ConvertSegments(elem, segs).Failure? ==> exists j :: FirstFailureAt(elem, segs, j, ConvertSegments(elem, segs).error)
  {
    if segs != [] {
      ConvertSegmentsFailure(elem, segs[1..]);
      var r := ConvertSegments(elem, segs);
      if Convert(elem, segs[0]).Failure? {
        assert FirstFailureAt(elem, segs, 0, r.error);
      } else if r.Failure? {
        var j :| FirstFailureAt(elem, segs[1..], j, r.error);
        assert FirstFailureAt(elem, segs, j + 1, r.error);
      } else {
        forall j | 0 <= j < |segs| ensures Convert(elem, segs[j]).Success? {
          if j > 0 { assert segs[j] == segs[1..][j - 1]; }
        }
      }
    }
  }

  lemma ConvertSegmentsSingle(elem: ValueType, seg: string)
    ensures ConvertSegments(elem, [seg]) ==
      match Convert(elem, seg)
      case Success(x) => Success([x])
      case Failure(c) => Failure(InList(seg, c))
  {
    var segs := [seg];
    assert segs[0] == seg && segs[1..] == [];
    match Convert(elem, seg)
    case Success(x) => assert [x] + [] == [x];
    case Failure(c) =>
  }

  lemma ConvertSegmentsAppend(elem: ValueType, a: seq<string>, b: seq<string>, va: seq<Value>)
    requires ConvertSegments(elem, a) == Success(va)
    ensures ConvertSegments(elem, b).Success? ==>
      ConvertSegments(elem, a + b) == Success(va + ConvertSegments(elem, b).value)
    ensures ConvertSegments(elem, b).Failure? ==>
      ConvertSegments(elem, a + b) == ConvertSegments(elem, b)
  {
    var rb := ConvertSegments(elem, b);
    if rb.Success? {
      AppendSuccess(elem, a, b, va, rb.value);
    } else {
      AppendFailure(elem, a, b, va);
    }
  }

  lemma AppendSuccess(elem: ValueType, a: seq<string>, b: seq<string>, va: seq<Value>, vb: seq<Value>)
    requires ConvertSegments(elem, a) == Success(va) && ConvertSegments(elem, b) == Success(vb)
    ensures ConvertSegments(elem, a + b) == Success(va + vb)
  {
    ConvertSegmentsSuccess(elem, a);
    ConvertSegmentsSuccess(elem, b);
    var ab, vab := a + b, va + vb;
    forall j | 0 <= j < |ab| ensures Convert(elem, ab[j]) == Success(vab[j]) {
      if j < |a| {
        assert ab[j] == a[j] && vab[j] == va[j];
      } else {
        assert ab[j] == b[j - |a|] && vab[j] == vb[j - |a|];
      }
    }
    ConvertSegmentsAll(elem, ab, vab);
  }

  lemma {:induction false} AppendFailure(elem: ValueType, a: seq<string>, b: seq<string>, va: seq<Value>)
    requires ConvertSegments(elem, a) == Success(va) && ConvertSegments(elem, b).Failure?
    ensures ConvertSegments(elem, a + b) == ConvertSegments(elem, b)
  {
    if a == [] {
      assert a + b == b;
    } else {
      var x, tail := a[0], a[1..];
      assert a == [x] + tail && a + b == [x] + (tail + b);
      ConvertSegmentsCons(elem, x, tail);
      AppendFailure(elem, tail, b, ConvertSegments(elem, tail).value);
      ConvertSegmentsCons(elem, x, tail + b);
    }
  }

  /** The conversion of a list of segments with a first one. */
  lemma ConvertSegmentsCons(elem: ValueType, x: string, rest: seq<string>)
    ensures Convert(elem, x).Failure? ==> ConvertSegments(elem, [x] + rest) == Failure(InList(x, Convert(elem, x).error))
    ensures Convert(elem, x).Success? && ConvertSegments(elem, rest).Failure? ==>
      ConvertSegments(elem, [x] + rest) == ConvertSegments(elem, rest)
    ensures Convert(elem, x).Success? && ConvertSegments(elem, rest).Success? ==>
      ConvertSegments(elem, [x] + rest) == Success([Convert(elem, x).value] + ConvertSegments(elem, rest).value)
  {
    assert ([x] + rest)[0] == x && ([x] + rest)[1..] == rest;
  }


  /** The invariant of the std::vector<T> loop: what is left to split. */
  ghost predicate ListProgress(input: string, lastPos: nat, i: nat, done: seq<string>) {
    && lastPos <= i
    && (i <= |input| ==>
         (forall j :: lastPos <= j < i ==> input[j] != ',') && Split(input) == done + SplitFrom(input, lastPos))
    && (i == |input| + 1 ==> Split(input) == done)
  }

  /** With no comma from `start` on, the rest of the text is the last segment. */
  lemma SplitFromLast(s: string, start: nat)
    requires start <= |s|
    requires forall j :: start <= j < |s| ==> s[j] != ','
    ensures SplitFrom(s, start) == [s[start..]]
  {
    FindIs(s, ',', start, |s|);
  }

  /** A comma at `p`, the first from `start` on, ends the first segment. */
  lemma SplitFromComma(s: string, start: nat, p: nat)
    requires start <= p < |s| && s[p] == ','
    requires forall j :: start <= j < p ==> s[j] != ','
    ensures SplitFrom(s, start) == [s[start..p]] + SplitFrom(s, p + 1)
  {
    FindIs(s, ',', start, p);
  }

  /** One segment cut at index `i` (a comma or the end). */
  lemma CutSegment(input: string, lastPos: nat, i: nat, done: seq<string>)
    requires ListProgress(input, lastPos, i, done) && i <= |input|
    requires i == |input| || input[i] == ','
    ensures ListProgress(input, i + 1, i + 1, done + [input[lastPos..i]])
  {
    CutSplit(input, lastPos, i, done);
  }

  /** The segments once the one ending at `i` is cut: those before, it, then those after. */
  lemma CutSplit(input: string, lastPos: nat, i: nat, done: seq<string>)
    requires ListProgress(input, lastPos, i, done) && i <= |input|
    requires i == |input| || input[i] == ','
    ensures i < |input| ==> Split(input) == done + [input[lastPos..i]] + SplitFrom(input, i + 1)
    ensures i == |input| ==> Split(input) == done + [input[lastPos..i]]
  {
    var seg := input[lastPos..i];
    assert Split(input) == done + SplitFrom(input, lastPos);
    if i == |input| {
      assert SplitFrom(input, lastPos) == [seg] by {
        SplitFromLast(input, lastPos);
        assert input[lastPos..] == seg;
      }
    } else {
      var rest := SplitFrom(input, i + 1);
      assert SplitFrom(input, lastPos) == [seg] + rest by {
        SplitFromComma(input, lastPos, i);
      }
      assert done + ([seg] + rest) == (done + [seg]) + rest;
    }
  }

  /** A character other than a comma extends the current segment. */
  lemma SkipChar(input: string, lastPos: nat, i: nat, done: seq<string>)
    requires ListProgress(input, lastPos, i, done) && i < |input| && input[i] != ','
    ensures ListProgress(input, lastPos, i + 1, done)
  {
  }

  /** A segment cut at `i` that converts extends the converted prefix. */
  lemma CutConverts(input: string, elem: ValueType, lastPos: nat, i: nat, done: seq<string>, v: seq<Value>)
    requires ListProgress(input, lastPos, i, done) && i <= |input|
    requires i == |input| || input[i] == ','
    requires ConvertSegments(elem, done) == Success(v)
    requires Convert(elem, input[lastPos..i]).Success?
    ensures ListProgress(input, i + 1, i + 1, done + [input[lastPos..i]])
    ensures ConvertSegments(elem, done + [input[lastPos..i]]) == Success(v + [Convert(elem, input[lastPos..i]).value])
  {
    CutSegment(input, lastPos, i, done);
    SegmentConverts(elem, done, input[lastPos..i], v);
  }

  /** A segment cut at `i` that does not convert is the error of the whole list. */
  lemma CutFails(input: string, elem: ValueType, lastPos: nat, i: nat, done: seq<string>, v: seq<Value>)
    requires ListProgress(input, lastPos, i, done) && i <= |input|
    requires i == |input| || input[i] == ','
    requires ConvertSegments(elem, done) == Success(v)
    requires Convert(elem, input[lastPos..i]).Failure?
    ensures Convert(TList(elem), input) == Failure(InList(input[lastPos..i], Convert(elem, input[lastPos..i]).error))
  {
    var segment := input[lastPos..i];
    var rest := if i < |input| then SplitFrom(input, i + 1) else [];
    assert Split(input) == done + ([segment] + rest) by {
      CutSplit(input, lastPos, i, done);
    }
    assert ConvertSegments(elem, Split(input)) == Failure(InList(segment, Convert(elem, segment).error)) by {
      SegmentFails(elem, done, segment, rest, v);
    }
    ListOfSegmentsFailure(elem, input);
  }

  /** The list overload's result is that of its segment loop. */
  lemma ListOfSegments(elem: ValueType, input: string)
    requires ConvertSegments(elem, Split(input)).Success?
    ensures Convert(TList(elem), input) == Success(VList(ConvertSegments(elem, Split(input)).value))
  {
  }

  lemma ListOfSegmentsFailure(elem: ValueType, input: string)
    requires ConvertSegments(elem, Split(input)).Failure?
    ensures Convert(TList(elem), input) == Failure(ConvertSegments(elem, Split(input)).error)
  {
  }

  /**
   * When every comma-separated segment converts, the list converts, to one
   * value per segment: each the segment's own conversion, in input order ...
   */
  lemma ListConverts(elem: ValueType, input: string)
    requires forall j :: 0 <= j < |Split(input)| ==> Convert(elem, Split(input)[j]).Success?
    ensures Convert(TList(elem), input).Success?
    ensures |Convert(TList(elem), input).value.items| == |Split(input)|
    ensures forall j :: 0 <= j < |Split(input)| ==>
      Convert(TList(elem), input).value.items[j] == Convert(elem, Split(input)[j]).value
  {
    var segs := Split(input);
    ConvertSegmentsFailure(elem, segs);
    ConvertSegmentsSuccess(elem, segs);
    ListOfSegments(elem, input);
  }

  /**
   * ... and when segment `j` is the first that fails, the list fails with
   * that segment's text and its error, whatever follows it.
   */
  lemma ListFails(elem: ValueType, input: string, j: nat)
    requires j < |Split(input)| && Convert(elem, Split(input)[j]).Failure?
    requires forall m :: 0 <= m < j ==> Convert(elem, Split(input)[m]).Success?
    ensures Convert(TList(elem), input) == Failure(InList(Split(input)[j], Convert(elem, Split(input)[j]).error))
  {
    var segs := Split(input);
    ConvertSegmentsFailure(elem, segs);
    var i :| FirstFailureAt(elem, segs, i, ConvertSegments(elem, segs).error);
    assert Convert(elem, segs[j]).Failure? && Convert(elem, segs[i]).Failure?;
    assert i <= j && j <= i;
    ListOfSegmentsFailure(elem, input);
  }

  /** A converted segment extends the converted prefix by its value. */
  lemma SegmentConverts(elem: ValueType, done: seq<string>, segment: string, v: seq<Value>)
    requires ConvertSegments(elem, done) == Success(v)
    requires Convert(elem, segment).Success?
    ensures ConvertSegments(elem, done + [segment]) == Success(v + [Convert(elem, segment).value])
  {
    ConvertSegmentsSingle(elem, segment);
    ConvertSegmentsAppend(elem, done, [segment], v);
  }

  /** A segment that fails after a converted prefix is the error, whatever follows it. */
  lemma SegmentFails(elem: ValueType, done: seq<string>, segment: string, rest: seq<string>, v: seq<Value>)
    requires ConvertSegments(elem, done) == Success(v)
    requires Convert(elem, segment).Failure?
    ensures ConvertSegments(elem, done + ([segment] + rest)) == Failure(InList(segment, Convert(elem, segment).error))
  {
    ConvertSegmentsCons(elem, segment, rest);
    ConvertSegmentsAppend(elem, done, [segment] + rest, v);
  }

  /**
   * The std::vector<T> overload as written: a `for` loop over every index
   * up to and including the length, cutting a segment at each comma and at
   * the end and pushing its converted value. The `last_pos < length` guard
   * is always true at a comma, so every comma cuts.
   */
  method ConvertList(input: string, elem: ValueType) returns (r: Result<Value, Cause>)
    ensures r == Convert(TList(elem), input)
  {
    var v: seq<Value> := [];
    var lastPos := 0;
    ghost var done: seq<string> := [];
    for i := 0 to |input| + 1
      invariant ListProgress(input, lastPos, i, done)
      invariant ConvertSegments(elem, done) == Success(v)
    {
      if i == |input| || (input[i] == ',' && lastPos < |input|) {
        var segment := input[lastPos..i];
        var c := Convert(elem, segment);
        if c.Failure? {
          CutFails(input, elem, lastPos, i, done, v);
          r := Failure(InList(segment, c.error));
          return;
        }
        CutConverts(input, elem, lastPos, i, done, v);
        v := v + [c.value];
        done := done + [segment];
        lastPos := i + 1;
      } else {
        SkipChar(input, lastPos, i, done);
      }
    }
    assert Split(input) == done;
    ListOfSegments(elem, input);
    r := Success(VList(v));
  }

  // ---------------------------------------------------------------------
  // Rendering values back to argument text

  /** The text a user would type for `v`; lists are joined with commas. */
  function Show(v: Value): string {
    match v
    case VString(s) => s
    case VChar(c) => [c]
    case VInt(i) => ShowInt(i)
    case VOp(op) => [Symbol(op)]
    case VList(items) => Join(seq(|items|, j requires 0 <= j < |items| => Show(items[j])))
  }

  /**
   * Values whose rendering converts back: in range for their type, and for
   * lists non-empty with comma-free element renderings (an empty list and a
   * string containing a comma cannot be written as a list argument).
   */
  predicate Canonical(v: Value, ty: ValueType)
    decreases ty
  {
    HasType(v, ty) &&
    (ty.TList? ==>
      |v.items| > 0 &&
      forall j :: 0 <= j < |v.items| ==> Canonical(v.items[j], ty.elem) && CommaFree(Show(v.items[j])))
  }

  /** Conversion inverts rendering on canonical values. */
  lemma {:induction false} ConvertShow(v: Value, ty: ValueType)
    requires Canonical(v, ty)
    ensures Convert(ty, Show(v)) == Success(v)
    decreases ty
  {
    match ty
    case TString =>
    case TChar =>
    case TInt(k) =>
      FromCharsOfShown(v.num, k, "");
      assert ShowInt(v.num) + "" == ShowInt(v.num);
    case TOp =>
      SymbolRoundTrip(v.op, "");
      assert [Symbol(v.op)] + "" == [Symbol(v.op)];
    case TList(e) =>
      var items := v.items;
      var parts := seq(|items|, j requires 0 <= j < |items| => Show(items[j]));
      SplitJoin(Join(parts), 0, parts);
      forall j | 0 <= j < |items|
        ensures Convert(e, parts[j]) == Success(items[j])
      {
        ConvertShow(items[j], e);
      }
      ConvertSegmentsAll(e, parts, items);
  }

  lemma {:induction false} ConvertSegmentsAll(elem: ValueType, segs: seq<string>, vs: seq<Value>)
    requires |segs| == |vs|
    requires forall j :: 0 <= j < |segs| ==> Convert(elem, segs[j]) == Success(vs[j])
    ensures ConvertSegments(elem, segs) == Success(vs)
  {
    if segs != [] {
      ConvertSegmentsAll(elem, segs[1..], vs[1..]);
      assert vs == [vs[0]] + vs[1..];
    }
  }

  /**
   * A successful list conversion has one element per comma plus one, each
   * the conversion of the matching segment, in input order.
   */
  lemma ListShape(elem: ValueType, input: string)
    requires Convert(TList(elem), input).Success?
    ensures |Convert(TList(elem), input).value.items| == |Split(input)|
    ensures |Convert(TList(elem), input).value.items| == CountFrom(input, ',', 0) + 1
    ensures forall j :: 0 <= j < |Split(input)| ==>
      Convert(elem, Split(input)[j]) == Success(Convert(TList(elem), input).value.items[j])
  {
    SplitCount(input, 0);
    ConvertSegmentsSuccess(elem, Split(input));
  }

  /**
   * Empty segments are converted like any other: for an element type that
   * rejects "", an empty input and a leading comma fail on the empty first
   * segment ...
   */
  lemma LeadingEmptySegmentFails(elem: ValueType, b: string)
    requires Convert(elem, "").Failure?
    ensures Convert(TList(elem), "") == Failure(InList("", Convert(elem, "").error))
    ensures Convert(TList(elem), "," + b) == Failure(InList("", Convert(elem, "").error))
  {
    FindIs("", ',', 0, 0);
    assert Split("") == [""];
    var s := "," + b;
    FindIs(s, ',', 0, 0);
    assert Split(s)[0] == "";
  }

  /** Joining two non-empty lists puts one comma between their joins. */
  lemma {:induction false} JoinAppend(p: seq<string>, q: seq<string>)
    requires |p| > 0 && |q| > 0
    ensures Join(p + q) == Join(p) + "," + Join(q)
    decreases |p|
  {
    assert (p + q)[0] == p[0] && (p + q)[1..] == p[1..] + q;
    if |p| > 1 {
      JoinAppend(p[1..], q);
    }
  }

  /** Parts that each convert convert together, to their values in order. */
  lemma PartsConvert(elem: ValueType, parts: seq<string>)
    requires forall j :: 0 <= j < |parts| ==> Convert(elem, parts[j]).Success?
    ensures ConvertSegments(elem, parts).Success?
  {
    ConvertSegmentsFailure(elem, parts);
  }

  /**
   * ... a trailing comma fails on the empty last segment, after any list of
   * segments that convert ...
   */
  lemma TrailingEmptySegmentFails(elem: ValueType, parts: seq<string>)
    requires Convert(elem, "").Failure?
    requires |parts| > 0 && forall j :: 0 <= j < |parts| ==> CommaFree(parts[j]) && Convert(elem, parts[j]).Success?
    ensures Convert(TList(elem), Join(parts) + ",") == Failure(InList("", Convert(elem, "").error))
  {
    var s := Join(parts) + ",";
    assert Split(s) == parts + [""] by {
      assert Join([""]) == "";
      JoinAppend(parts, [""]);
      assert Join(parts) + "," + "" == s;
      SplitJoin(s, 0, parts + [""]);
    }
    PartsConvert(elem, parts);
    ConvertSegmentsSingle(elem, "");
    ConvertSegmentsAppend(elem, parts, [""], ConvertSegments(elem, parts).value);
    ListOfSegmentsFailure(elem, s);
  }

  /**
   * The segments of `j,,b` for `j` the comma-join of `parts`: the parts, an
   * empty one, then the segments of `b`.
   */
  lemma SplitDoubledComma(parts: seq<string>, b: string)
    requires |parts| > 0 && forall j :: 0 <= j < |parts| ==> CommaFree(parts[j])
    ensures Split(Join(parts) + ",," + b) == parts + ([""] + Split(b))
  {
    var s := Join(parts) + ",," + b;
    var all := parts + ([""] + Split(b));
    assert Join(Split(b)) == b by {
      JoinSplit(b, 0);
    }
    JoinDoubled(parts, Split(b), b);
    DoubledPartsCommaFree(parts, b);
    assert s[0..] == s;
    SplitJoin(s, 0, all);
  }

  lemma JoinDoubled(parts: seq<string>, segs: seq<string>, b: string)
    requires |parts| > 0 && |segs| > 0 && Join(segs) == b
    ensures Join(parts + ([""] + segs)) == Join(parts) + ",," + b
  {
    var tail := [""] + segs;
    assert Join(tail) == "," + b by {
      assert tail[0] == "" && tail[1..] == segs;
    }
    JoinAppend(parts, tail);
    DoubleComma(Join(parts), b);
  }

  lemma DoubleComma(x: string, b: string)
    ensures x + "," + ("," + b) == x + ",," + b
  {
  }

  lemma DoubledPartsCommaFree(parts: seq<string>, b: string)
    requires forall j :: 0 <= j < |parts| ==> CommaFree(parts[j])
    ensures forall j :: 0 <= j < |parts + ([""] + Split(b))| ==> CommaFree((parts + ([""] + Split(b)))[j])
  {
    var all := parts + ([""] + Split(b));
    SplitCommaFree(b, 0);
    forall j | 0 <= j < |all| ensures CommaFree(all[j]) {
      if j < |parts| {
        assert all[j] == parts[j];
      } else if j > |parts| {
        assert all[j] == Split(b)[j - |parts| - 1];
      }
    }
  }

  /** ... and so does a doubled comma, on the empty segment between the two. */
  lemma DoubledCommaFails(elem: ValueType, parts: seq<string>, b: string)
    requires Convert(elem, "").Failure?
    requires |parts| > 0 && forall j :: 0 <= j < |parts| ==> CommaFree(parts[j]) && Convert(elem, parts[j]).Success?
    ensures Convert(TList(elem), Join(parts) + ",," + b) == Failure(InList("", Convert(elem, "").error))
  {
    var s := Join(parts) + ",," + b;
    SplitDoubledComma(parts, b);
    PartsConvert(elem, parts);
    ConvertSegmentsCons(elem, "", Split(b));
    ConvertSegmentsAppend(elem, parts, [""] + Split(b), ConvertSegments(elem, parts).value);
    ListOfSegmentsFailure(elem, s);
  }
}
