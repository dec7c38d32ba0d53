/**
 * The `datedelta` value type: an immutable calendar offset of years, months and days,
 * its construction, equality, algebra and its two textual renderings.
 */
module DateDelta {
  import opened Wrappers
  import opened Decimal

  /**
   * An offset; the three fields are never changed after construction. Every field is a
   * keyword argument that defaults to 0, as in `datedelta(years=0, months=0, days=0)`.
   */
  datatype Delta = Delta(years: int := 0, months: int := 0, days: int := 0)

  /** `datedelta()`. */
  const ZERO := Delta()

  const YEAR := Delta(years := 1)
  const MONTH := Delta(months := 1)
  const WEEK := Delta(days := 7)
  const DAY := Delta(days := 1)

  /** The exceptions the operations of this model raise. */
  datatype Error =
    | NotAnInteger(field: string)   // ValueError from the constructor
    | OppositeSigns                 // ValueError from offset + offset
    | SameSigns                     // ValueError from offset - offset

  function Message(e: Error): string {
    match e
    case NotAnInteger(field) => field + " must be an integer value"
    case OppositeSigns => "cannot add datedeltas with opposite signs"
    case SameSigns => "cannot subtract datedeltas with same signs"
  }

  // ---------------------------------------------------------------------------
  // Construction

  /** Python's `int()` on a number: truncation toward zero. */
  function Truncate(x: real): (n: int)
    ensures x >= 0.0 ==> 0 <= n && n as real <= x < n as real + 1.0
    ensures x < 0.0 ==> n <= 0 && n as real - 1.0 < x <= n as real
  {
    if x >= 0.0 then x.Floor else -((-x).Floor)
  }

  predicate IsIntegral(x: real) {
    x.Floor as real == x
  }

  lemma TruncateExact(x: real)
    ensures Truncate(x) as real == x <==> IsIntegral(x)
  {
    if x < 0.0 && IsIntegral(x) {
      assert (-x).Floor == -(x.Floor);
    }
  }

  /**
   * `datedelta(years=..., months=..., days=...)` on arbitrary numbers: succeeds exactly
   * when all three are whole numbers, and otherwise names the first one, in the order
   * years, months, days, that is not.
   */
  function Make(years: real := 0.0, months: real := 0.0, days: real := 0.0): (r: Result<Delta, Error>)
    ensures r.Ok? <==> IsIntegral(years) && IsIntegral(months) && IsIntegral(days)
    ensures r.Ok? ==> r.value.years as real == years && r.value.months as real == months && r.value.days as real == days
    ensures r.Err? ==> r.error == NotAnInteger(
                          if !IsIntegral(years) then "years" else if !IsIntegral(months) then "months" else "days")
  {
    TruncateExact(years);
    TruncateExact(months);
    TruncateExact(days);
    var intYears, intMonths, intDays := Truncate(years), Truncate(months), Truncate(days);
    if intYears as real != years then Err(NotAnInteger("years"))
    else if intMonths as real != months then Err(NotAnInteger("months"))
    else if intDays as real != days then Err(NotAnInteger("days"))
    else Ok(Delta(intYears, intMonths, intDays))
  }

  /** Every argument is keyword-only and defaults to 0; the constants are such offsets. */
  lemma MakeDefaults()
    ensures Make() == Ok(ZERO)
    ensures Make(years := 1.0) == Ok(YEAR) && Make(months := 1.0) == Ok(MONTH)
    ensures Make(days := 7.0) == Ok(WEEK) && Make(days := 1.0) == Ok(DAY)
    ensures Make(days := 0.5) == Err(NotAnInteger("days"))
  {
  }

  /** The constructor's message names the first field that is not a whole number. */
  lemma MakeErrorText(years: real, months: real, days: real)
    ensures var field := if !IsIntegral(years) then "years" else if !IsIntegral(months) then "months" else "days";
            Make(years, months, days).Err? ==> Message(Make(years, months, days).error) == field + " must be an integer value"
  {
  }

  // ---------------------------------------------------------------------------
  // Equality and hashing

  /** `__eq__`. */
  predicate Equal(a: Delta, b: Delta)
    ensures Equal(a, b) <==> a == b
  {
    a.years == b.years && a.months == b.months && a.days == b.days
  }

  /** `__ne__`, written out field by field as the source does. */
  predicate NotEqual(a: Delta, b: Delta)
    ensures NotEqual(a, b) <==> !Equal(a, b)
  {
    a.years != b.years || a.months != b.months || a.days != b.days
  }

  /** The field tuple: what `__getstate__` returns for pickling and what `__hash__` hashes. */
  function State(a: Delta): (int, int, int) {
    (a.years, a.months, a.days)
  }

  /** `__setstate__`: the offset whose fields are the unpickled tuple. */
  function SetState(state: (int, int, int)): Delta {
    Delta(state.0, state.1, state.2)
  }

  /** Equal offsets hash alike, and the hashed tuples of different offsets differ. */
  lemma HashKeyExact(a: Delta, b: Delta)
    ensures State(a) == State(b) <==> Equal(a, b)
  {
  }

  /** Unpickling what pickling saved gives the offset back, and the other way round. */
  lemma PickleRoundTrip(a: Delta, state: (int, int, int))
    ensures SetState(State(a)) == a
    ensures State(SetState(state)) == state
  {
  }

  // ---------------------------------------------------------------------------
  // Algebra

  /** One of x, y is positive and the other negative. */
  predicate OppositeSign(x: int, y: int) {
    (x < 0 && 0 < y) || (0 < x && y < 0)
  }

  /** x and y are both positive or both negative. */
  predicate SameSign(x: int, y: int) {
    (x < 0 && y < 0) || (0 < x && 0 < y)
  }

  lemma ProductSign(x: int, y: int)
    ensures x * y >= 0 <==> !OppositeSign(x, y)
    ensures x * y <= 0 <==> !SameSign(x, y)
  {
    if x > 0 && y > 0 {
      assert x * y > 0;
    } else if x < 0 && y < 0 {
      assert x * y == (-x) * (-y);
      assert (-x) * (-y) > 0;
    } else if x > 0 && y < 0 {
      assert x * y == -(x * (-y));
      assert x * (-y) > 0;
    } else if x < 0 && y > 0 {
      assert x * y == -((-x) * y);
      assert (-x) * y > 0;
    }
  }

  /**
   * `__add__`: defined when no field pair has opposite signs, and then the fieldwise sum;
   * otherwise ValueError("cannot add datedeltas with opposite signs").
   */
  function Add(a: Delta, b: Delta): (r: Result<Delta, Error>)
    ensures r.Ok? <==> !OppositeSign(a.years, b.years) && !OppositeSign(a.months, b.months) && !OppositeSign(a.days, b.days)
    ensures r.Ok? ==> r.value == Delta(a.years + b.years, a.months + b.months, a.days + b.days)
    ensures r.Err? ==> r.error == OppositeSigns
  {
    ProductSign(a.years, b.years);
    ProductSign(a.months, b.months);
    ProductSign(a.days, b.days);
    if a.years * b.years >= 0 && a.months * b.months >= 0 && a.days * b.days >= 0 then
      Ok(Delta(a.years + b.years, a.months + b.months, a.days + b.days))
    else
      Err(OppositeSigns)
  }

  /**
   * `__sub__`: defined when no field pair has the same sign, and then the fieldwise
   * difference; otherwise ValueError("cannot subtract datedeltas with same signs").
   */
  function Sub(a: Delta, b: Delta): (r: Result<Delta, Error>)
    ensures r.Ok? <==> !SameSign(a.years, b.years) && !SameSign(a.months, b.months) && !SameSign(a.days, b.days)
    ensures r.Ok? ==> r.value == Delta(a.years - b.years, a.months - b.months, a.days - b.days)
    ensures r.Err? ==> r.error == SameSigns
  {
    ProductSign(a.years, b.years);
    ProductSign(a.months, b.months);
    ProductSign(a.days, b.days);
    if a.years * b.years <= 0 && a.months * b.months <= 0 && a.days * b.days <= 0 then
      Ok(Delta(a.years - b.years, a.months - b.months, a.days - b.days))
    else
      Err(SameSigns)
  }

  /** The messages `+` and `-` raise on offsets whose signs do not allow them. */
  lemma SignErrorTexts(a: Delta, b: Delta)
    ensures Add(a, b).Err? ==> Message(Add(a, b).error) == "cannot add datedeltas with opposite signs"
    ensures Sub(a, b).Err? ==> Message(Sub(a, b).error) == "cannot subtract datedeltas with same signs"
  {
  }

  /** `__mul__` and `__rmul__` (the same function in the source): every field times `k`. */
  function Mul(a: Delta, k: int): (r: Delta)
    ensures r == ZERO <==> a == ZERO || k == 0
  {
    Delta(a.years * k, a.months * k, a.days * k)
  }

  /** `__neg__`. */
  function Neg(a: Delta): Delta {
    Delta(-a.years, -a.months, -a.days)
  }

  /** `__pos__`: returns the offset itself. */
  function Pos(a: Delta): (r: Delta)
    ensures Equal(r, a)
  {
    a
  }

  lemma AddCommutes(a: Delta, b: Delta)
    ensures Add(a, b) == Add(b, a)
  {
  }

  lemma AddSubZero(a: Delta)
    ensures Add(a, ZERO) == Ok(a) && Add(ZERO, a) == Ok(a)
    ensures Sub(a, ZERO) == Ok(a) && Sub(ZERO, a) == Ok(Neg(a))
  {
  }

  /** Subtracting b is adding -b, with the sign rule mirrored; only the error differs. */
  lemma SubIsAddNeg(a: Delta, b: Delta)
    ensures Sub(a, b).Ok? <==> Add(a, Neg(b)).Ok?
    ensures Sub(a, b).Ok? ==> Sub(a, b).value == Add(a, Neg(b)).value
  {
    var sub, add := Sub(a, b), Add(a, Neg(b));
    SignMirror(a.years, b.years);
    SignMirror(a.months, b.months);
    SignMirror(a.days, b.days);
    assert sub.Ok? <==> add.Ok?;
  }

  lemma SignMirror(x: int, y: int)
    ensures SameSign(x, y) <==> OppositeSign(x, -y)
  {
  }

  /** An offset can be subtracted from itself only when it is zero. */
  lemma SubSelf(a: Delta)
    ensures Sub(a, a).Ok? <==> a == ZERO
  {
  }

  lemma NegInvolutive(a: Delta)
    ensures Neg(Neg(a)) == a
  {
  }

  lemma MulIdentities(a: Delta)
    ensures Mul(a, 0) == ZERO
    ensures Mul(a, 1) == a
    ensures Mul(a, -1) == Neg(a)
  {
  }

  /** Two multiples of one offset by factors of equal sign always add, to the multiple by the sum. */
  lemma MulAddDistributes(a: Delta, j: int, k: int)
    requires j * k >= 0
    ensures Add(Mul(a, j), Mul(a, k)) == Ok(Mul(a, j + k))
  {
    MulSameSideFactors(a.years, j, k);
    MulSameSideFactors(a.months, j, k);
    MulSameSideFactors(a.days, j, k);
    assert a.years * (j + k) == a.years * j + a.years * k;
    assert a.months * (j + k) == a.months * j + a.months * k;
    assert a.days * (j + k) == a.days * j + a.days * k;
  }

  lemma MulSameSideFactors(x: int, j: int, k: int)
    requires j * k >= 0
    ensures !OppositeSign(x * j, x * k)
  {
    ProductSign(j, k);
    ProductSign(x * j, x * k);
    assert (x * j) * (x * k) == (x * x) * (j * k);
    assert x * x >= 0;
  }

  lemma MulComposes(a: Delta, j: int, k: int)
    ensures Mul(Mul(a, j), k) == Mul(a, j * k)
  {
    assert (a.years * j) * k == a.years * (j * k);
    assert (a.months * j) * k == a.months * (j * k);
    assert (a.days * j) * k == a.days * (j * k);
  }

  // ---------------------------------------------------------------------------
  // Rendering

  /** `sep.join(parts)`. */
  function Join(parts: seq<string>, sep: string): string {
    if |parts| == 0 then ""
    else if |parts| == 1 then parts[0]
    else parts[0] + sep + Join(parts[1..], sep)
  }

  const REPR_PREFIX := "datedelta.datedelta("

  /** The keyword argument `__repr__` appends for one field: none when the field is zero. */
  function ReprArg(name: string, v: int): seq<string> {
    if v != 0 then [name + "=" + IntToString(v)] else []
  }

  /** `__repr__`: the non-zero fields as keyword arguments, in the order years, months, days. */
  function Repr(a: Delta): string {
    var args := ReprArg("years", a.years) + ReprArg("months", a.months) + ReprArg("days", a.days);
    REPR_PREFIX + Join(args, ", ") + ")"
  }

  /** `_s`: the plural suffix, empty exactly for 1 and -1. */
  function Plural(v: int): (s: string)
    ensures s == "" <==> v == 1 || v == -1
    ensures s == "" || s == "s"
  {
    if Abs(v) == 1 then "" else "s"
  }

  function Abs(v: int): nat {
    if v < 0 then -v else v
  }

  /** The part `__str__` appends for one field: none when the field is zero. */
  function StrPart(unit: string, v: int): seq<string> {
    if v != 0 then [IntToString(v) + " " + unit + Plural(v)] else []
  }

  /** `__str__`: the joined parts, or "0 days" when there are none. */
  function Str(a: Delta): string {
    var bits := StrPart("year", a.years) + StrPart("month", a.months) + StrPart("day", a.days);
    var s := Join(bits, ", ");
    if s == "" then "0 days" else s
  }

  // ---------------------------------------------------------------------------
  // Reading the renderings back

  /** What introduces a field in a rendering: ", " unless it comes first. */
  function Lead(first: bool): string {
    if first then "" else ", "
  }

  /**
   * Reads `name=<int>` (after the lead) if it is there; an absent field reads as 0, and a
   * field written out with the value 0 is rejected.
   */
  function ParseKeyword(s: string, name: string, first: bool): Option<(int, string, bool)> {
    var key := Lead(first) + name + "=";
    if key <= s then
      var p :- ParseIntPrefix(s[|key|..]);
      if p.0 == 0 then None else Some((p.0, p.1, false))
    else Some((0, s, first))
  }

  /** Reads the keyword arguments that `__repr__` writes between the parentheses. */
  function ParseArgs(body: string): Option<Delta> {
    var y :- ParseKeyword(body, "years", true);
    var m :- ParseKeyword(y.1, "months", y.2);
    var d :- ParseKeyword(m.1, "days", m.2);
    if d.1 == "" then Some(Delta(y.0, m.0, d.0)) else None
  }

  /** Evaluates a `datedelta.datedelta(...)` expression of the form `__repr__` writes. */
  function ParseRepr(s: string): Option<Delta> {
    if REPR_PREFIX <= s && |s| > |REPR_PREFIX| && s[|s| - 1] == ')' then
      ParseArgs(s[|REPR_PREFIX|..|s| - 1])
    else None
  }

  /**
   * Reads ` <unit>` at the start of `s`, followed by an "s" exactly when |v| is not 1;
   * returns what follows.
   */
  function ReadUnit(s: string, unit: string, v: int): Option<string> {
    var word := " " + unit + (if v == 1 || v == -1 then "" else "s");
    if word <= s then Some(s[|word|..]) else None
  }

  /**
   * Reads `<int> <unit>` with the suffix its number calls for (after the lead) if it is
   * there; an absent field reads as 0, and a field written out with the value 0 is rejected.
   */
  function ParseUnit(s: string, unit: string, first: bool): Option<(int, string, bool)> {
    var lead := Lead(first);
    if lead <= s then
      match ParseIntPrefix(s[|lead|..])
      case Some((v, rest)) =>
        (match ReadUnit(rest, unit, v)
         case Some(after) => if v == 0 then None else Some((v, after, false))
         case None => Some((0, s, first)))
      case None => Some((0, s, first))
    else Some((0, s, first))
  }

  /** Reads the parts `__str__` joins for a non-zero offset: at least one field must be there. */
  function ParseParts(s: string): Option<Delta> {
    var y :- ParseUnit(s, "year", true);
    var m :- ParseUnit(y.1, "month", y.2);
    var d :- ParseUnit(m.1, "day", m.2);
    if d.1 == "" && !d.2 then Some(Delta(y.0, m.0, d.0)) else None
  }

  /** Reads a text of the form `__str__` writes: "0 days" is the zero offset. */
  function ParseStr(s: string): Option<Delta> {
    if s == "0 days" then Some(ZERO) else ParseParts(s)
  }

  /** Concatenation is associative. */
  lemma Assoc<T>(a: seq<T>, b: seq<T>, c: seq<T>)
    ensures (a + b) + c == a + (b + c)
  {
  }

  lemma EmptyLeft<T>(a: seq<T>)
    ensures [] + a == a
  {
  }

  /** `a` is a prefix of `a + b`, and what follows it is `b`. */
  lemma PrefixSlice<T>(a: seq<T>, b: seq<T>)
    ensures a <= a + b && (a + b)[|a|..] == b
  {
  }

  /** The text one part of at most one element contributes to a join with ", ". */
  function Piece(part: seq<string>, first: bool): string {
    if |part| == 0 then "" else Lead(first) + part[0]
  }

  lemma JoinCons(p: string, rest: seq<string>, sep: string)
    ensures Join([p] + rest, sep) == if |rest| == 0 then p else p + sep + Join(rest, sep)
  {
    assert ([p] + rest)[1..] == rest;
  }

  lemma JoinTwo(y: seq<string>, z: seq<string>)
    requires |y| <= 1 && |z| <= 1
    ensures Join(y + z, ", ") == Piece(y, true) + Piece(z, |y| == 0)
  {
    if |y| == 0 {
      assert y + z == z;
    } else {
      assert y + z == [y[0]] + z;
      JoinCons(y[0], z, ", ");
    }
  }

  /** Moving a run of pieces off the front of a join prefixes it with ", ". */
  lemma PiecesAfterFirst(y: seq<string>, z: seq<string>)
    requires |y| <= 1 && |z| <= 1
    ensures Piece(y, false) + Piece(z, false)
         == if |y| + |z| == 0 then "" else ", " + (Piece(y, true) + Piece(z, |y| == 0))
  {
    if |y| != 0 {
      EmptyLeft(y[0]);
      Assoc(", ", y[0], Piece(z, false));
    } else if |z| != 0 {
      EmptyLeft(z[0]);
      EmptyLeft("" + z[0]);
      EmptyLeft(", " + z[0]);
    } else {
      EmptyLeft("");
    }
  }

  /** Joining three optional parts: each present part is preceded by ", " unless it comes first. */
  lemma JoinThree(x: seq<string>, y: seq<string>, z: seq<string>)
    requires |x| <= 1 && |y| <= 1 && |z| <= 1
    ensures Join(x + y + z, ", ") == Piece(x, true) + (Piece(y, |x| == 0) + Piece(z, |x| + |y| == 0))
  {
    JoinTwo(y, z);
    if |x| == 0 {
      assert x == [];
      EmptyLeft(y);
      EmptyLeft(Piece(y, true) + Piece(z, |y| == 0));
    } else {
      assert x == [x[0]];
      Assoc(x, y, z);
      JoinCons(x[0], y + z, ", ");
      PiecesAfterFirst(y, z);
      EmptyLeft(x[0]);
      Assoc(x[0], ", ", Piece(y, true) + Piece(z, |y| == 0));
    }
  }

  lemma LeadPrefix(first: bool, x: string)
    ensures Lead(first) <= Lead(first) + x
    ensures (Lead(first) + x)[|Lead(first)|..] == x
  {
  }

  /** A present field read by its own reader, whatever its number's text. */
  lemma ParseKeywordAt(first: bool, name: string, t: string, v: int, rest: string)
    requires v != 0 && ParseIntPrefix(t + rest) == Some((v, rest))
    ensures ParseKeyword(Lead(first) + (name + "=" + t) + rest, name, first) == Some((v, rest, false))
  {
    var key := Lead(first) + name + "=";
    Assoc(Lead(first), name, "=");
    Assoc(Lead(first), name + "=", t);
    Assoc(key, t, rest);
    PrefixSlice(key, t + rest);
  }

  lemma ParseKeywordHit(first: bool, name: string, v: int, rest: string)
    requires v != 0
    requires rest == [] || rest[0] == ','
    ensures ParseKeyword(Lead(first) + (name + "=" + IntToString(v)) + rest, name, first) == Some((v, rest, false))
  {
    ParseIntPrefixRoundTrip(v, rest);
    ParseKeywordAt(first, name, IntToString(v), v, rest);
  }

  /** Where a field reader must find nothing: the rest does not start with the key of `name`. */
  predicate KeyAbsent(first: bool, name: string, rest: string)
    requires |name| > 0
  {
    rest == [] || (first && rest[0] != name[0]) || (!first && |rest| > 2 && rest[2] != name[0])
  }

  lemma ParseKeywordMiss(first: bool, name: string, rest: string)
    requires |name| > 0
    requires KeyAbsent(first, name, rest)
    ensures ParseKeyword(rest, name, first) == Some((0, rest, first))
  {
    var key := Lead(first) + name + "=";
    var k := |Lead(first)|;
    assert key[k] == name[0];
    assert rest != [] ==> rest[k] != key[k];
  }

  /** The reader of one field, on the text `__repr__` writes for that field followed by `rest`. */
  lemma KeywordStep(first: bool, name: string, v: int, rest: string)
    requires |name| > 0
    requires v != 0 ==> rest == [] || rest[0] == ','
    requires v == 0 ==> KeyAbsent(first, name, rest)
    ensures ParseKeyword(Piece(ReprArg(name, v), first) + rest, name, first) == Some((v, rest, first && v == 0))
  {
    if v != 0 {
      assert Piece(ReprArg(name, v), first) == Lead(first) + (name + "=" + IntToString(v));
      ParseKeywordHit(first, name, v, rest);
    } else {
      assert Piece(ReprArg(name, v), first) + rest == rest;
      ParseKeywordMiss(first, name, rest);
    }
  }

  /** How the text of one keyword argument begins: with its lead, then the field's name. */
  lemma KeywordStarts(name: string, v: int, first: bool)
    requires |name| > 0
    ensures var p := Piece(ReprArg(name, v), first);
      (v == 0 <==> p == []) && (v != 0 && first ==> p[0] == name[0]) && (v != 0 && !first ==> |p| > 2 && p[0] == ',' && p[2] == name[0])
  {
  }

  lemma ConcatHead<T>(a: seq<T>, b: seq<T>)
    ensures a == [] ==> a + b == b
    ensures a != [] ==> (a + b)[0] == a[0]
  {
  }

  /** Reading back the argument list `__repr__` writes gives the offset. */
  lemma ArgsRoundTrip(a: Delta)
    ensures ParseArgs(Join(ReprArg("years", a.years) + ReprArg("months", a.months) + ReprArg("days", a.days), ", ")) == Some(a)
  {
    var fm := a.years == 0;
    var fd := fm && a.months == 0;
    var sy := Piece(ReprArg("years", a.years), true);
    var sm := Piece(ReprArg("months", a.months), fm);
    var sd := Piece(ReprArg("days", a.days), fd);
    JoinThree(ReprArg("years", a.years), ReprArg("months", a.months), ReprArg("days", a.days));
    KeywordStarts("months", a.months, fm);
    KeywordStarts("days", a.days, fd);
    ConcatHead(sm, sd);
    KeywordStep(true, "years", a.years, sm + sd);
    KeywordStep(fm, "months", a.months, sd);
    assert sd == sd + "";
    KeywordStep(fd, "days", a.days, "");
  }

  /** Evaluating the repr of any offset gives that offset back. */
  lemma ReprRoundTrip(a: Delta)
    ensures ParseRepr(Repr(a)) == Some(a)
  {
    var body := Join(ReprArg("years", a.years) + ReprArg("months", a.months) + ReprArg("days", a.days), ", ");
    var s := Repr(a);
    assert s[|REPR_PREFIX|..|s| - 1] == body;
    ArgsRoundTrip(a);
  }

  /** ` <unit>`, the plural suffix of the number and then `rest`, read as a unit. */
  lemma ReadUnitHit(unit: string, v: int, rest: string)
    ensures ReadUnit(" " + unit + Plural(v) + rest, unit, v) == Some(rest)
  {
    assert Plural(v) == if v == 1 || v == -1 then "" else "s";
    PrefixSlice(" " + unit + Plural(v), rest);
  }

  lemma ReadUnitMiss(unit: string, v: int, other: string, rest: string)
    requires |unit| > 0 && |other| > 0 && other[0] != unit[0]
    ensures ReadUnit(" " + other + rest, unit, v) == None
  {
    assert (" " + other + rest)[1] == other[0];
    assert (" " + unit + Plural(v))[1] == unit[0];
  }

  /** A field reader on a number's text followed by `tail`, whatever that text. */
  lemma ParseUnitAt(first: bool, unit: string, t: string, v: int, tail: string)
    requires ParseIntPrefix(t + tail) == Some((v, tail))
    ensures ParseUnit(Lead(first) + (t + tail), unit, first)
         == match ReadUnit(tail, unit, v)
            case Some(after) => if v == 0 then None else Some((v, after, false))
            case None => Some((0, Lead(first) + (t + tail), first))
  {
    LeadPrefix(first, t + tail);
  }

  /** Regroups the text of one str field as its number's text followed by the rest. */
  lemma UnitText(first: bool, t: string, unit: string, suffix: string, rest: string)
    ensures Lead(first) + (t + " " + unit + suffix) + rest == Lead(first) + (t + (" " + unit + suffix + rest))
  {
    Assoc(t, " ", unit);
    Assoc(t, " " + unit, suffix);
    var w := " " + unit + suffix;
    Assoc(Lead(first), t + w, rest);
    Assoc(t, w, rest);
  }

  /**
   * A str field reader reads its own field and stops before the next, whatever follows;
   * it rejects the field when its value is 0.
   */
  lemma ParseUnitHit(first: bool, unit: string, v: int, rest: string)
    ensures ParseUnit(Lead(first) + (IntToString(v) + " " + unit + Plural(v)) + rest, unit, first)
         == if v == 0 then None else Some((v, rest, false))
  {
    var tail := " " + unit + Plural(v) + rest;
    UnitText(first, IntToString(v), unit, Plural(v), rest);
    ParseIntPrefixRoundTrip(v, tail);
    ParseUnitAt(first, unit, IntToString(v), v, tail);
    ReadUnitHit(unit, v, rest);
  }

  /** A str field reader leaves alone a field of a different unit. */
  lemma ParseUnitMiss(first: bool, unit: string, w: int, other: string, rest: string)
    requires |unit| > 0 && |other| > 0 && other[0] != unit[0]
    ensures ParseUnit(Lead(first) + (IntToString(w) + " " + other + Plural(w)) + rest, unit, first)
         == Some((0, Lead(first) + (IntToString(w) + " " + other + Plural(w)) + rest, first))
  {
    var tail := " " + other + Plural(w) + rest;
    UnitText(first, IntToString(w), other, Plural(w), rest);
    ParseIntPrefixRoundTrip(w, tail);
    ParseUnitAt(first, unit, IntToString(w), w, tail);
    Assoc(" " + other, Plural(w), rest);
    ReadUnitMiss(unit, w, other, Plural(w) + rest);
  }

  lemma ParseUnitEmpty(unit: string, first: bool)
    ensures ParseUnit("", unit, first) == Some((0, "", first))
  {
    if first {
      assert LeadingDigits("") == 0;
    }
  }

  /** The text `__str__` writes for a present field. */
  lemma StrPiece(unit: string, v: int, first: bool)
    requires v != 0
    ensures Piece(StrPart(unit, v), first) == Lead(first) + (IntToString(v) + " " + unit + Plural(v))
  {
  }

  /** Reading back the joined parts of a non-zero offset gives that offset. */
  lemma PartsRoundTrip(a: Delta)
    requires a != ZERO
    ensures ParseParts(Join(StrPart("year", a.years) + StrPart("month", a.months) + StrPart("day", a.days), ", ")) == Some(a)
  {
    var fm := a.years == 0;
    var fd := fm && a.months == 0;
    var sy := Piece(StrPart("year", a.years), true);
    var sm := Piece(StrPart("month", a.months), fm);
    var sd := Piece(StrPart("day", a.days), fd);
    JoinThree(StrPart("year", a.years), StrPart("month", a.months), StrPart("day", a.days));
    assert sd == sd + "";
    if a.days != 0 {
      StrPiece("day", a.days, fd);
    }
    if a.months != 0 {
      StrPiece("month", a.months, fm);
    }
    // The years reader.
    if a.years != 0 {
      StrPiece("year", a.years, true);
      assert sm == [] ==> sm + sd == sd;
      assert sm != [] ==> (sm + sd)[0] == sm[0];
      ParseUnitHit(true, "year", a.years, sm + sd);
    } else if a.months != 0 {
      ParseUnitMiss(true, "year", a.months, "month", sd);
    } else {
      ParseUnitMiss(true, "year", a.days, "day", "");
    }
    // The months reader.
    if a.months != 0 {
      ParseUnitHit(fm, "month", a.months, sd);
    } else if a.days != 0 {
      ParseUnitMiss(fm, "month", a.days, "day", "");
    } else {
      ParseUnitEmpty("month", fm);
    }
    // The days reader.
    if a.days != 0 {
      ParseUnitHit(fd, "day", a.days, "");
    } else {
      ParseUnitEmpty("day", fd);
    }
  }

  /** "0 days" is not the joined parts of any offset: its days reader rejects the written-out zero. */
  lemma ZeroDaysIsNoParts()
    ensures ParseParts("0 days") == None
  {
    var s := Lead(true) + (IntToString(0) + " " + "day" + Plural(0)) + "";
    assert s == "0 days";
    ParseUnitMiss(true, "year", 0, "day", "");
    ParseUnitMiss(true, "month", 0, "day", "");
    ParseUnitHit(true, "day", 0, "");
  }

  /** Reading back the str of any offset gives that offset. */
  lemma StrRoundTrip(a: Delta)
    ensures ParseStr(Str(a)) == Some(a)
  {
    if a == ZERO {
      assert StrPart("year", 0) + StrPart("month", 0) + StrPart("day", 0) == [];
    } else {
      var parts := StrPart("year", a.years) + StrPart("month", a.months) + StrPart("day", a.days);
      assert |parts| > 0;
      assert Join(parts, ", ") != "" by {
        JoinThree(StrPart("year", a.years), StrPart("month", a.months), StrPart("day", a.days));
      }
      PartsRoundTrip(a);
      ZeroDaysIsNoParts();
    }
  }

  /** The str of an offset is "0 days" exactly when the offset is zero. */
  lemma StrZeroDays(a: Delta)
    ensures Str(a) == "0 days" <==> a == ZERO
  {
    StrRoundTrip(a);
    StrRoundTrip(ZERO);
  }

  /** Different offsets have different reprs and different strs. */
  lemma RenderingsInjective(a: Delta, b: Delta)
    ensures Repr(a) == Repr(b) <==> a == b
    ensures Str(a) == Str(b) <==> a == b
  {
    ReprRoundTrip(a);
    ReprRoundTrip(b);
    StrRoundTrip(a);
    StrRoundTrip(b);
  }

  // ---------------------------------------------------------------------------
  // The readers accept nothing but renderings

  /** Whatever a keyword reader reads is the text `__repr__` writes for that field. */
  lemma ParseKeywordSound(s: string, name: string, first: bool)
    requires ParseKeyword(s, name, first).Some?
    ensures var r := ParseKeyword(s, name, first).value;
            s == Piece(ReprArg(name, r.0), first) + r.1 && r.2 == (first && r.0 == 0)
  {
    var key := Lead(first) + name + "=";
    if key <= s {
      var t := s[|key|..];
      ParseIntPrefixExact(t);
      var v, rest := ParseIntPrefix(t).value.0, ParseIntPrefix(t).value.1;
      assert s == key + t;
      Assoc(Lead(first), name, "=");
      Assoc(Lead(first), name + "=", IntToString(v));
      Assoc(key, IntToString(v), rest);
    } else {
      EmptyLeft(s);
    }
  }

  /** Whatever the argument reader accepts is the argument list `__repr__` writes. */
  lemma ArgsExact(body: string)
    requires ParseArgs(body).Some?
    ensures var a := ParseArgs(body).value;
            body == Join(ReprArg("years", a.years) + ReprArg("months", a.months) + ReprArg("days", a.days), ", ")
  {
    var y := ParseKeyword(body, "years", true).value;
    ParseKeywordSound(body, "years", true);
    var m := ParseKeyword(y.1, "months", y.2).value;
    ParseKeywordSound(y.1, "months", y.2);
    var d := ParseKeyword(m.1, "days", m.2).value;
    ParseKeywordSound(m.1, "days", m.2);
    assert d.1 == "";
    JoinThree(ReprArg("years", y.0), ReprArg("months", m.0), ReprArg("days", d.0));
  }

  /** The repr reader accepts exactly the reprs: it reads `s` as `a` just when `s` is `repr(a)`. */
  lemma ParseReprExact(s: string, a: Delta)
    ensures ParseRepr(s) == Some(a) <==> s == Repr(a)
  {
    ReprRoundTrip(a);
    if ParseRepr(s) == Some(a) {
      var body := s[|REPR_PREFIX|..|s| - 1];
      ArgsExact(body);
      assert s == REPR_PREFIX + body + ")";
    }
  }

  /** Whatever a unit reader reads is the text `__str__` writes for that field. */
  lemma ParseUnitSound(s: string, unit: string, first: bool)
    requires ParseUnit(s, unit, first).Some?
    ensures var r := ParseUnit(s, unit, first).value;
            s == Piece(StrPart(unit, r.0), first) + r.1 && r.2 == (first && r.0 == 0)
  {
    var lead := Lead(first);
    var r := ParseUnit(s, unit, first).value;
    if r.0 != 0 {
      var t := s[|lead|..];
      ParseIntPrefixExact(t);
      var v, tail := ParseIntPrefix(t).value.0, ParseIntPrefix(t).value.1;
      var word := " " + unit + Plural(v);
      assert Plural(v) == if v == 1 || v == -1 then "" else "s";
      assert tail == word + r.1;
      assert s == lead + (IntToString(v) + tail);
      UnitText(first, IntToString(v), unit, Plural(v), r.1);
    } else {
      EmptyLeft(s);
    }
  }

  /** Whatever the parts reader accepts is the joined parts of a non-zero offset. */
  lemma PartsExact(s: string)
    requires ParseParts(s).Some?
    ensures var a := ParseParts(s).value;
            a != ZERO && s == Join(StrPart("year", a.years) + StrPart("month", a.months) + StrPart("day", a.days), ", ")
  {
    var y := ParseUnit(s, "year", true).value;
    ParseUnitSound(s, "year", true);
    var m := ParseUnit(y.1, "month", y.2).value;
    ParseUnitSound(y.1, "month", y.2);
    var d := ParseUnit(m.1, "day", m.2).value;
    ParseUnitSound(m.1, "day", m.2);
    assert d.1 == "" && !d.2;
    JoinThree(StrPart("year", y.0), StrPart("month", m.0), StrPart("day", d.0));
  }

  /** The str reader accepts exactly the strs: it reads `s` as `a` just when `s` is `str(a)`. */
  lemma ParseStrExact(s: string, a: Delta)
    ensures ParseStr(s) == Some(a) <==> s == Str(a)
  {
    StrRoundTrip(a);
    if ParseStr(s) == Some(a) && s != "0 days" {
      PartsExact(s);
      var parts := StrPart("year", a.years) + StrPart("month", a.months) + StrPart("day", a.days);
      assert Join(parts, ", ") != "" by {
        JoinThree(StrPart("year", a.years), StrPart("month", a.months), StrPart("day", a.days));
      }
    } else if ParseStr(s) == Some(a) {
      assert a == ZERO;
      assert StrPart("year", 0) + StrPart("month", 0) + StrPart("day", 0) == [];
    }
  }

  // ---------------------------------------------------------------------------
  // Worked examples of the renderings

  lemma JoinOfTwo(a: string, b: string)
    ensures Join([a, b], ", ") == a + ", " + b
  {
    assert [a, b][1..] == [b];
  }

  lemma JoinOfThree(a: string, b: string, c: string)
    ensures Join([a, b, c], ", ") == a + ", " + (b + ", " + c)
  {
    assert [a, b, c][1..] == [b, c];
    JoinOfTwo(b, c);
  }

  /** The part `__str__` writes for a non-zero field, given its text. */
  lemma StrPartText(unit: string, v: int, text: string)
    requires v != 0 && IntToString(v) + " " + unit + Plural(v) == text
    ensures StrPart(unit, v) == [text]
  {
  }

  /** `datedelta()` renders as `datedelta.datedelta()` and as "0 days". */
  lemma RenderZero()
    ensures Repr(ZERO) == "datedelta.datedelta()"
    ensures Str(ZERO) == "0 days"
  {
    assert ReprArg("years", 0) + ReprArg("months", 0) + ReprArg("days", 0) == [];
    assert StrPart("year", 0) + StrPart("month", 0) + StrPart("day", 0) == [];
  }

  /** One year, either way, takes the singular. */
  lemma StrOneYear()
    ensures Str(YEAR) == "1 year"
  {
  }

  lemma StrMinusOneYear()
    ensures Str(Delta(years := -1)) == "-1 year"
  {
  }

  /** Other counts take the plural, and a zero field is left out. */
  lemma StrYearsAndDays()
    ensures Str(Delta(years := 2, days := 6)) == "2 years, 6 days"
  {
    StrPartText("year", 2, "2 years");
    StrPartText("day", 6, "6 days");
    assert ["2 years"] + [] + ["6 days"] == ["2 years", "6 days"];
    JoinOfTwo("2 years", "6 days");
  }

  lemma ReprYearsAndDays()
    ensures Repr(Delta(years := 2, days := 6)) == "datedelta.datedelta(years=2, days=6)"
  {
    assert ReprArg("years", 2) == ["years=2"] by { assert "years" + "=" + IntToString(2) == "years=2"; }
    assert ReprArg("days", 6) == ["days=6"] by { assert "days" + "=" + IntToString(6) == "days=6"; }
    assert ["years=2"] + [] + ["days=6"] == ["years=2", "days=6"];
    JoinOfTwo("years=2", "days=6");
  }

  /** Each field chooses its own suffix. */
  lemma StrMixed()
    ensures Str(Delta(-1, 1, 10)) == "-1 year, 1 month, 10 days"
  {
    MixedParts();
    JoinOfThree("-1 year", "1 month", "10 days");
  }

  lemma MixedParts()
    ensures StrPart("year", -1) + StrPart("month", 1) + StrPart("day", 10)
         == ["-1 year", "1 month", "10 days"]
  {
    assert IntToString(10) == "10" by {
      assert NatToString(10) == NatToString(1) + [DigitChar(0)];
    }
    StrPartText("year", -1, "-1 year");
    StrPartText("month", 1, "1 month");
    StrPartText("day", 10, "10 days");
  }

  /** The str reader holds a count to its suffix: "2 year" is not a rendering. */
  lemma ParseStrWantsPlural()
    ensures ParseStr("2 year") == None
  {
    var s := "2 year";
    assert s == IntToString(2) + " year";
    ParseIntPrefixRoundTrip(2, " year");
    assert ReadUnit(" year", "year", 2) == None;
    assert ParseUnit(s, "year", true) == Some((0, s, true));
    assert " " + "year" + "" == " year";
    ReadUnitMiss("month", 2, "year", "");
    ReadUnitMiss("day", 2, "year", "");
    assert ParseUnit(s, "month", true) == Some((0, s, true));
    assert ParseUnit(s, "day", true) == Some((0, s, true));
    assert s != "0 days";
  }

  /** The repr reader rejects a zero field that is written out. */
  lemma ParseReprRejectsZeroField()
    ensures ParseRepr("datedelta.datedelta(years=0)") == None
  {
    var s := "datedelta.datedelta(years=0)";
    assert s[|REPR_PREFIX|..|s| - 1] == "years=0";
    assert "years=0" == Lead(true) + "years" + "=" + IntToString(0);
    ParseIntPrefixRoundTrip(0, "");
    assert ParseIntPrefix("0") == Some((0, ""));
  }
}
