/** The expressions of expr.c: what their trees mean, how a tree is written as a
    list of arguments, and how a list of arguments is read. */
module Expressions {
  import opened Bits
  import opened PrefixCode
  import Versions
  import opened CStrings

  /** One argument of the program. */
  type Arg = cstring

  // ----- values -----

  datatype Value = Integer(i: int) | Text(s: Arg)

  /** How an evaluation ends. Undefined is an overflow, which C leaves undefined. */
  datatype Outcome = Ok(v: Value) | SyntaxError | NonNumeric | DivisionByZero | BadPattern | Undefined

  const MAX: int := 0x7fff_ffff_ffff_ffff
  const MIN: int := -0x8000_0000_0000_0000

  predicate Fits(i: int)
  {
    MIN <= i <= MAX
  }

  predicate GoodValue(v: Value)
  {
    v.Integer? ==> Fits(v.i)
  }

  function Numeral(n: nat): (s: Arg)
    ensures s != [] && forall i :: 0 <= i < |s| ==> Versions.IsDigit(s[i])
  {
    if n < 10 then [(48 + n) as byte] else Numeral(n / 10) + [(48 + n % 10) as byte]
  }

  /** A number in decimal, as printf writes it. */
  function Decimal(i: int): Arg
  {
    if i < 0 then [45] + Numeral(-i) else Numeral(i)
  }

  /** `strtoll` up to what it saturates at: the number and what is behind it, if
      there is one. */
  function ReadInteger(s: Arg): Option<(int, seq<byte>)>
  {
    var t := Versions.SkipSpace(s);
    var negative := t != [] && t[0] == 45;
    var u := if t != [] && (t[0] == 45 || t[0] == 43) then t[1..] else t;
    var d := Versions.Digits(u);
    if d == [] then None
    else
      var n: int := Versions.Value(d);
      Some((Clamp(if negative then -n else n), u[|d|..]))
  }

  function Clamp(i: int): (r: int)
    ensures Fits(r) && (Fits(i) ==> r == i)
  {
    if i < MIN then MIN else if i > MAX then MAX else i
  }

  /** The number that a value is or that its string says in full. */
  function NumberOf(v: Value): (r: Option<int>)
    ensures GoodValue(v) && r.Some? ==> Fits(r.value)
  {
    match v
    case Integer(i) => Some(i)
    case Text(s) =>
      var r := ReadInteger(s);
      if r.Some? && r.value.1 == [] then Some(r.value.0) else None
  }

  function TextOf(v: Value): Arg
  {
    match v
    case Integer(i) => Decimal(i)
    case Text(s) => s
  }

  /** Neither null nor 0, or not. */
  predicate IsNull(v: Value)
  {
    match v
    case Integer(i) => i == 0
    case Text(s) => s == [] || s == [48]
  }

  lemma {:induction false} NumeralValue(n: nat)
    ensures Versions.Value(Numeral(n)) == n
  {
    var s := Numeral(n);
    if n < 10 {
      assert Versions.Value([]) == 0;
      assert s[..|s| - 1] == [];
    } else {
      NumeralValue(n / 10);
      assert s[..|s| - 1] == Numeral(n / 10);
    }
  }

  lemma {:induction false} AllDigits(s: Arg)
    requires forall i :: 0 <= i < |s| ==> Versions.IsDigit(s[i])
    ensures Versions.Digits(s) == s
  {
    if s != [] {
      AllDigits(s[1..]);
    }
  }

  lemma NumeralStart(n: nat)
    ensures Versions.SkipSpace(Numeral(n)) == Numeral(n)
    ensures Numeral(n)[0] != 45 && Numeral(n)[0] != 43
  {
    assert Versions.IsDigit(Numeral(n)[0]);
  }

  /** A number survives being turned into a string and back. */
  lemma NumberSurvives(i: int)
    requires Fits(i)
    ensures NumberOf(Text(Decimal(i))) == Some(i)
  {
    hide Numeral, Versions.Value, Versions.Digits;
    var n := if i < 0 then -i else i;
    NumeralValue(n);
    AllDigits(Numeral(n));
    NumeralStart(n);
    if i < 0 {
      assert Versions.SkipSpace(Decimal(i)) == Decimal(i);
      assert Decimal(i)[1..] == Numeral(n);
    }
  }

  /** A string that says zero in another way than "0" is not taken for null. */
  lemma NullIff(v: Value)
    ensures (IsNull(v) <==> v == Text([]) || NumberOf(v) == Some(0)) <==> !(NumberOf(v) == Some(0) && v.Text? && v.s != [48])
  {
    NumberSurvives(0);
    assert Decimal(0) == [48];
    assert Versions.SkipSpace([]) == [] && Versions.Digits([]) == [];
  }

  /** As "00" does. */
  lemma ZeroNotNull()
    ensures NumberOf(Text([48, 48])) == Some(0) && !IsNull(Text([48, 48]))
  {
    var s: Arg := [48, 48];
    AllDigits(s);
    assert Versions.SkipSpace(s) == s;
    assert s[..1] == [48] && [48][..0] == [];
    assert Versions.Value([]) == 0;
    assert Versions.Value([48]) == 0;
  }

  // ----- operators -----

  datatype Op = Or | And | Lt | Le | Eq | EqEq | Ne | Ge | Gt | Add | Sub | Mul | Div | Mod | Colon

  function Symbol(op: Op): (s: Arg)
    ensures 0 < |s| <= 2
  {
    match op
    case Or => [124]
    case And => [38]
    case Lt => [60]
    case Le => [60, 61]
    case Eq => [61]
    case EqEq => [61, 61]
    case Ne => [33, 61]
    case Ge => [62, 61]
    case Gt => [62]
    case Add => [43]
    case Sub => [45]
    case Mul => [42]
    case Div => [47]
    case Mod => [37]
    case Colon => [58]
  }

  function LevelOf(op: Op): (k: nat)
    ensures k <= 5
  {
    match op
    case Or => 0
    case And => 1
    case Lt => 2
    case Le => 2
    case Eq => 2
    case EqEq => 2
    case Ne => 2
    case Ge => 2
    case Gt => 2
    case Add => 3
    case Sub => 3
    case Mul => 4
    case Div => 4
    case Mod => 4
    case Colon => 5
  }

  /** The operator that an argument is. */
  function OpOf(s: Arg): (r: Option<Op>)
    ensures r.Some? ==> Symbol(r.value) == s
    ensures r.None? ==> forall op :: Symbol(op) != s
  {
    if s == [124] then Some(Or)
    else if s == [38] then Some(And)
    else if s == [60] then Some(Lt)
    else if s == [60, 61] then Some(Le)
    else if s == [61] then Some(Eq)
    else if s == [61, 61] then Some(EqEq)
    else if s == [33, 61] then Some(Ne)
    else if s == [62, 61] then Some(Ge)
    else if s == [62] then Some(Gt)
    else if s == [43] then Some(Add)
    else if s == [45] then Some(Sub)
    else if s == [42] then Some(Mul)
    else if s == [47] then Some(Div)
    else if s == [37] then Some(Mod)
    else if s == [58] then Some(Colon)
    else None
  }

  lemma SymbolsDiffer(op: Op)
    ensures OpOf(Symbol(op)) == Some(op)
  {
  }

  /** Lexicographic order of strings. */
  function Compare(a: Arg, b: Arg): (r: int)
    ensures r == 0 <==> a == b
  {
    if a == [] && b == [] then 0
    else if a == [] then -1
    else if b == [] then 1
    else if a[0] != b[0] then (a[0] as int) - (b[0] as int)
    else
      assert a == [a[0]] + a[1..] && b == [b[0]] + b[1..];
      Compare(a[1..], b[1..])
  }

  /** What a comparison asks about two things whose order is that of x and y. */
  predicate Holds(op: Op, x: int, y: int)
  {
    match op
    case Lt => x < y
    case Le => x <= y
    case Ne => x != y
    case Ge => x >= y
    case Gt => x > y
    case _ => x == y
  }

  /** A string that says a number is compared as the plain decimal form. */
  function Plain(v: Value): Arg
  {
    if NumberOf(v).Some? then Decimal(NumberOf(v).value) else TextOf(v)
  }

  function Compared(op: Op, l: Value, r: Value): Value
  {
    var x, y := NumberOf(l), NumberOf(r);
    var b := if x.Some? && y.Some? then Holds(op, x.value, y.value) else Holds(op, Compare(Plain(l), Plain(r)), 0);
    Integer(if b then 1 else 0)
  }

  /** Unless both are numbers, a comparison is that of the two strings, if a string
      that says a number says it in the plain form. */
  lemma ComparedAsText(op: Op, l: Value, r: Value)
    requires NumberOf(l).None? || NumberOf(r).None?
    requires NumberOf(l).Some? ==> TextOf(l) == Decimal(NumberOf(l).value)
    requires NumberOf(r).Some? ==> TextOf(r) == Decimal(NumberOf(r).value)
    ensures Compared(op, l, r) == Integer(if Holds(op, Compare(TextOf(l), TextOf(r)), 0) then 1 else 0)
  {
  }

  /** "007" comes before "1a", and yet it is found to be greater: it counts as "7". */
  lemma ComparedAsPlain()
    ensures Compare([48, 48, 55], [49, 97]) < 0
    ensures Compared(Gt, Text([48, 48, 55]), Text([49, 97])) == Integer(1)
  {
    SevenIsNumber();
    DigitAndLetter();
    var plain: Arg, r: Arg := [55], [49, 97];
    assert Decimal(7) == plain;
    assert Compare(plain, r) == 6;
    hide NumberOf, Decimal;
  }

  lemma SevenIsNumber()
    ensures NumberOf(Text([48, 48, 55])) == Some(7)
  {
    var s: Arg := [48, 48, 55];
    AllDigits(s);
    assert Versions.SkipSpace(s) == s;
    assert s[..2] == [48, 48] && [48, 48][..1] == [48] && [48][..0] == [];
    assert Versions.Value([48]) == 0 && Versions.Value([48, 48]) == 0;
    assert Versions.Value(s) == 7;
  }

  lemma DigitAndLetter()
    ensures NumberOf(Text([49, 97])) == None
  {
    var s: Arg := [49, 97];
    assert s[1..] == [97] && Versions.Digits([97]) == [];
    assert Versions.SkipSpace(s) == s && Versions.Digits(s) == [49];
  }

  /** Division as C has it, towards zero. */
  function Quotient(a: int, b: int): int
    requires b != 0
  {
    if a >= 0 then a / b else -(-a / b)
  }

  function Remainder(a: int, b: int): int
    requires b != 0
  {
    if a >= 0 then a % b else -(-a % b)
  }

  function Checked(i: int): Outcome
  {
    if Fits(i) then Ok(Integer(i)) else Undefined
  }

  function Calculated(op: Op, l: Value, r: Value): Outcome
  {
    var x, y := NumberOf(l), NumberOf(r);
    if x.None? || y.None? then NonNumeric
    else match op
      case Add => Checked(x.value + y.value)
      case Sub => Checked(x.value - y.value)
      case Mul => Checked(x.value * y.value)
      case Div => if y.value == 0 then DivisionByZero else Checked(Quotient(x.value, y.value))
      case _ =>
        if y.value == 0 then DivisionByZero
        else if !Fits(Quotient(x.value, y.value)) then Undefined
        else Ok(Integer(Remainder(x.value, y.value)))
  }

  /** The matcher of regular expressions: what a string gives for a pattern, or
      None if the pattern is not a good one. */
  type Matcher = (Arg, Arg) -> Option<Value>

  function Matched(m: Matcher, l: Value, r: Value): Outcome
  {
    var v := m(TextOf(l), TextOf(r));
    if v.Some? then Ok(v.value) else BadPattern
  }

  function Apply(m: Matcher, op: Op, l: Value, r: Value): Outcome
  {
    match LevelOf(op)
    case 0 => Ok(if IsNull(l) then r else l)
    case 1 => Ok(if IsNull(l) || IsNull(r) then Integer(0) else l)
    case 2 => Ok(Compared(op, l, r))
    case 3 => Calculated(op, l, r)
    case 4 => Calculated(op, l, r)
    case _ => Matched(m, l, r)
  }

  // ----- keywords -----

  const QUOTE: Arg := [113, 117, 111, 116, 101]
  const LENGTH: Arg := [108, 101, 110, 103, 116, 104]
  const MATCH: Arg := [109, 97, 116, 99, 104]
  const INDEX: Arg := [105, 110, 100, 101, 120]
  const SUBSTR: Arg := [115, 117, 98, 115, 116, 114]
  const OPEN: Arg := [40]
  const CLOSE: Arg := [41]

  predicate IsKeyword(s: Arg)
  {
    s == QUOTE || s == LENGTH || s == MATCH || s == INDEX || s == SUBSTR
  }

  /** The characters of a string. */
  function Characters(s: Arg): set<byte>
  {
    set c | c in s
  }

  /** Where s has one of the characters cs first, counted from 1, or 0. */
  function IndexIn(s: Arg, cs: Arg): (n: nat)
    ensures n == 0 <==> forall i :: 0 <= i < |s| ==> s[i] !in cs
    ensures n > 0 ==> n <= |s| && s[n - 1] in cs && forall i :: 0 <= i < n - 1 ==> s[i] !in cs
  {
    var n := CSpan(s, Characters(cs));
    if n == |s| then 0 else n + 1
  }

  /** The part of a string from a place on, counted from 1, that is not longer
      than given. */
  function Part(s: Arg, from: Option<int>, len: Option<int>): Arg
  {
    if from.None? || len.None? || from.value > |s| || from.value <= 0 || len.value <= 0 then []
    else
      var start := from.value - 1;
      s[start..if len.value < |s| - start then start + len.value else |s|]
  }

  // ----- trees -----

  datatype Expr =
    | Word(s: Arg)
    | Quoted(s: Arg)
    | Grouped(e: Expr)
    | Length(e: Expr)
    | Match(a: Expr, b: Expr)
    | Index(a: Expr, b: Expr)
    | Substr(a: Expr, b: Expr, c: Expr)
    | Binary(op: Op, a: Expr, b: Expr)

  function Level(e: Expr): (k: nat)
    ensures k <= 7
  {
    if e.Binary? then LevelOf(e.op) else if e.Word? || e.Grouped? then 7 else 6
  }

  predicate IsWord(s: Arg)
  {
    !IsKeyword(s) && s != OPEN && s != CLOSE
  }

  /** Trees that need no more parentheses than they have: operators of the same
      level associate to the left. */
  predicate WellFormed(e: Expr)
  {
    match e
    case Word(s) => IsWord(s)
    case Quoted(s) => true
    case Grouped(a) => WellFormed(a)
    case Length(a) => WellFormed(a) && Level(a) >= 6
    case Match(a, b) => WellFormed(a) && WellFormed(b) && Level(a) >= 6 && Level(b) >= 6
    case Index(a, b) => WellFormed(a) && WellFormed(b) && Level(a) >= 6 && Level(b) >= 6
    case Substr(a, b, c) => WellFormed(a) && WellFormed(b) && WellFormed(c) && Level(a) >= 6 && Level(b) >= 6 && Level(c) >= 6
    case Binary(op, a, b) => WellFormed(a) && WellFormed(b) && Level(a) >= LevelOf(op) && Level(b) > LevelOf(op)
  }

  /** The arguments that a tree is written as. */
  function Print(e: Expr): (ts: seq<Arg>)
    ensures |ts| > 0
  {
    match e
    case Word(s) => [s]
    case Quoted(s) => [QUOTE, s]
    case Grouped(a) => [OPEN] + Print(a) + [CLOSE]
    case Length(a) => [LENGTH] + Print(a)
    case Match(a, b) => [MATCH] + Print(a) + Print(b)
    case Index(a, b) => [INDEX] + Print(a) + Print(b)
    case Substr(a, b, c) => [SUBSTR] + Print(a) + Print(b) + Print(c)
    case Binary(op, a, b) => Print(a) + [Symbol(op)] + Print(b)
  }

  function LengthOf(l: Outcome): Outcome
  {
    if !l.Ok? then l else Ok(Integer(|TextOf(l.v)|))
  }

  function MatchOf(m: Matcher, l: Outcome, r: Outcome): Outcome
  {
    if !l.Ok? then l else if !r.Ok? then r else Matched(m, l.v, r.v)
  }

  function IndexOf(l: Outcome, r: Outcome): Outcome
  {
    if !l.Ok? then l else if !r.Ok? then r else Ok(Integer(IndexIn(TextOf(l.v), TextOf(r.v))))
  }

  function SubstrOf(l: Outcome, from: Outcome, len: Outcome): Outcome
  {
    if !l.Ok? then l else if !from.Ok? then from else if !len.Ok? then len
    else Ok(Text(Part(TextOf(l.v), NumberOf(from.v), NumberOf(len.v))))
  }

  function BinaryOf(m: Matcher, op: Op, l: Outcome, r: Outcome): Outcome
  {
    if !l.Ok? then l else if !r.Ok? then r else Apply(m, op, l.v, r.v)
  }

  /** What a tree means. What goes wrong first, from left to right, decides. */
  function Meaning(m: Matcher, e: Expr): Outcome
  {
    match e
    case Word(s) => Ok(Text(s))
    case Quoted(s) => Ok(Text(s))
    case Grouped(a) => Meaning(m, a)
    case Length(a) => LengthOf(Meaning(m, a))
    case Match(a, b) => MatchOf(m, Meaning(m, a), Meaning(m, b))
    case Index(a, b) => IndexOf(Meaning(m, a), Meaning(m, b))
    case Substr(a, b, c) => SubstrOf(Meaning(m, a), Meaning(m, b), Meaning(m, c))
    case Binary(op, a, b) => BinaryOf(m, op, Meaning(m, a), Meaning(m, b))
  }

  // ----- reading -----

  /** How a piece of the arguments is evaluated, and which are left. */
  datatype Reading = Reading(out: Outcome, rest: seq<Arg>)

  function Fail(out: Outcome): Reading
  {
    Reading(out, [])
  }

  /** The operator of level k that the arguments start with. */
  function OpAt(k: nat, ts: seq<Arg>): (r: Option<Op>)
    ensures r.Some? ==> ts != [] && LevelOf(r.value) == k && Symbol(r.value) == ts[0]
  {
    if ts == [] then None
    else
      var op := OpOf(ts[0]);
      if op.Some? && LevelOf(op.value) == k then op else None
  }

  /** Evaluates the longest expression of level k or higher at the start of the
      arguments. */
  function Read(m: Matcher, k: nat, ts: seq<Arg>): (r: Reading)
    requires k <= 7
    ensures |r.rest| <= |ts|
    ensures if r.out.Ok? then |r.rest| < |ts| else r.rest == []
    decreases |ts|, 8 - k
  {
    if k == 7 then ReadOperand(m, ts)
    else if k == 6 then ReadKeyword(m, ts)
    else
      var l := Read(m, k + 1, ts);
      if l.out.Ok? then ReadMore(m, k, l.out.v, l.rest) else l
  }

  /** Goes on with operators of level k, to whose left is l. */
  function ReadMore(m: Matcher, k: nat, l: Value, ts: seq<Arg>): (r: Reading)
    requires k <= 5
    ensures |r.rest| <= |ts|
    ensures !r.out.Ok? ==> r.rest == []
    decreases |ts|, 0
  {
    var op := OpAt(k, ts);
    if op.None? then Reading(Ok(l), ts)
    else
      var r := Read(m, k + 1, ts[1..]);
      var out := BinaryOf(m, op.value, Ok(l), r.out);
      if out.Ok? then ReadMore(m, k, out.v, r.rest) else Fail(out)
  }

  function ReadOperand(m: Matcher, ts: seq<Arg>): (r: Reading)
    ensures |r.rest| <= |ts|
    ensures if r.out.Ok? then |r.rest| < |ts| else r.rest == []
    decreases |ts|, 0
  {
    if ts == [] || ts[0] == CLOSE then Fail(SyntaxError)
    else if ts[0] == OPEN then
      var r := Read(m, 0, ts[1..]);
      if !r.out.Ok? then r
      else if r.rest == [] || r.rest[0] != CLOSE then Fail(SyntaxError)
      else Reading(r.out, r.rest[1..])
    else Reading(Ok(Text(ts[0])), ts[1..])
  }

  function ReadKeyword(m: Matcher, ts: seq<Arg>): (r: Reading)
    ensures |r.rest| <= |ts|
    ensures if r.out.Ok? then |r.rest| < |ts| else r.rest == []
    decreases |ts|, 1
  {
    if ts == [] || !IsKeyword(ts[0]) then ReadOperand(m, ts)
    else if ts[0] == QUOTE then
      if |ts| == 1 then Fail(SyntaxError) else Reading(Ok(Text(ts[1])), ts[2..])
    else
      var l := Read(m, 6, ts[1..]);
      if !l.out.Ok? then l
      else if ts[0] == LENGTH then Reading(LengthOf(l.out), l.rest)
      else
        var r := Read(m, 6, l.rest);
        if !r.out.Ok? then r
        else if ts[0] == MATCH then
          var out := MatchOf(m, l.out, r.out);
          if out.Ok? then Reading(out, r.rest) else Fail(out)
        else if ts[0] == INDEX then Reading(IndexOf(l.out, r.out), r.rest)
        else
          var n := Read(m, 6, r.rest);
          if n.out.Ok? then Reading(SubstrOf(l.out, r.out, n.out), n.rest) else n
  }

  // ----- what is written is read -----

  /** Nothing at the start of the arguments goes on an expression of level k. */
  predicate Ends(k: nat, ts: seq<Arg>)
  {
    forall j :: k <= j <= 5 ==> OpAt(j, ts).None?
  }

  function Done(out: Outcome, rest: seq<Arg>): Reading
  {
    if out.Ok? then Reading(out, rest) else Fail(out)
  }

  /** Goes on with operators of level k, if there is something to their left. */
  function Continue(m: Matcher, k: nat, out: Outcome, rest: seq<Arg>): Reading
    requires k <= 5
  {
    if out.Ok? then ReadMore(m, k, out.v, rest) else Fail(out)
  }

  lemma OperatorEnds(op: Op, rest: seq<Arg>)
    ensures Ends(LevelOf(op) + 1, [Symbol(op)] + rest)
    ensures OpAt(LevelOf(op), [Symbol(op)] + rest) == Some(op)
  {
    SymbolsDiffer(op);
  }

  lemma CloseEnds(rest: seq<Arg>)
    ensures Ends(0, [CLOSE] + rest)
  {
  }

  /** The tree is read, and nothing else is. */
  ghost predicate ReadsBack(m: Matcher, e: Expr, k: nat, rest: seq<Arg>)
    requires k <= 7
  {
    Read(m, k, Print(e) + rest) == Done(Meaning(m, e), rest)
  }

  /** Reading on the level of a tree reads the tree, then goes on. */
  lemma {:induction false} ReadsChain(m: Matcher, e: Expr, k: nat, rest: seq<Arg>)
    requires WellFormed(e) && k <= Level(e) && k <= 5 && Ends(k + 1, rest)
    ensures Read(m, k, Print(e) + rest) == Continue(m, k, Meaning(m, e), rest)
    decreases e, 8 - k, 0
  {
    hide Meaning, WellFormed, Ends, Symbol, ReadMore, Apply, Read, Print;
    if Level(e) > k {
      ReadsTree(m, e, k + 1, rest);
      StepDown(m, k, Print(e) + rest);
    } else {
      var op, a, b := e.op, e.a, e.b;
      BinaryParts(m, e, rest);
      var behind := [Symbol(op)] + (Print(b) + rest);
      OperatorEnds(op, Print(b) + rest);
      ReadsChain(m, a, k, behind);
      ReadsTree(m, b, k + 1, rest);
      if Meaning(m, a).Ok? {
        assert behind[1..] == Print(b) + rest;
        MoreStep(m, k, Meaning(m, a).v, behind);
      }
    }
  }

  lemma BinaryParts(m: Matcher, e: Expr, rest: seq<Arg>)
    requires WellFormed(e) && e.Binary?
    ensures WellFormed(e.a) && WellFormed(e.b) && Level(e.a) >= LevelOf(e.op) && Level(e.b) > LevelOf(e.op)
    ensures Print(e) + rest == Print(e.a) + ([Symbol(e.op)] + (Print(e.b) + rest))
    ensures Meaning(m, e) == BinaryOf(m, e.op, Meaning(m, e.a), Meaning(m, e.b))
  {
    hide Symbol, BinaryOf;
  }

  lemma StepDown(m: Matcher, k: nat, ts: seq<Arg>)
    requires k <= 5
    ensures Read(m, k, ts) == Continue(m, k, Read(m, k + 1, ts).out, Read(m, k + 1, ts).rest)
  {
    hide ReadMore, ReadOperand, ReadKeyword;
  }

  lemma MoreStep(m: Matcher, k: nat, l: Value, ts: seq<Arg>)
    requires k <= 5 && OpAt(k, ts).Some?
    ensures ts != []
    ensures ReadMore(m, k, l, ts)
         == Continue(m, k, BinaryOf(m, OpAt(k, ts).value, Ok(l), Read(m, k + 1, ts[1..]).out), Read(m, k + 1, ts[1..]).rest)
  {
    hide Read, BinaryOf;
  }

  /** A tree that is written as arguments is read as what it means, if nothing
      behind it goes on with it. */
  lemma {:induction false} ReadsTree(m: Matcher, e: Expr, k: nat, rest: seq<Arg>)
    requires WellFormed(e) && k <= Level(e) && Ends(k, rest)
    ensures ReadsBack(m, e, k, rest)
    decreases e, 8 - k, 1
  {
    hide Meaning, WellFormed, Read, Print, ReadMore;
    if k <= 5 {
      ReadsChain(m, e, k, rest);
      if Meaning(m, e).Ok? {
        NoMore(m, k, Meaning(m, e).v, rest);
      }
    } else if k == 6 {
      ReadsKeyword(m, e, rest);
    } else {
      ReadsOperand(m, e, rest);
    }
  }

  lemma NoMore(m: Matcher, k: nat, l: Value, ts: seq<Arg>)
    requires k <= 5 && Ends(k, ts)
    ensures ReadMore(m, k, l, ts) == Reading(Ok(l), ts)
  {
  }

  lemma {:induction false} ReadsOperand(m: Matcher, e: Expr, rest: seq<Arg>)
    requires WellFormed(e) && Level(e) == 7
    ensures ReadsBack(m, e, 7, rest)
    ensures (Print(e) + rest)[0] == OPEN || IsWord((Print(e) + rest)[0])
    decreases e, 0, 0
  {
    hide Read;
    var ts := Print(e) + rest;
    assert Read(m, 7, ts) == ReadOperand(m, ts) by { OperandStep(m, ts); }
    if e.Word? {
      assert ts == [e.s] + rest;
      assert ts[1..] == rest;
    } else {
      var a := e.e;
      CloseEnds(rest);
      ReadsTree(m, a, 0, [CLOSE] + rest);
      assert ts[1..] == Print(a) + ([CLOSE] + rest);
      assert ([CLOSE] + rest)[1..] == rest;
    }
  }

  lemma OperandStep(m: Matcher, ts: seq<Arg>)
    ensures Read(m, 7, ts) == ReadOperand(m, ts)
    ensures Read(m, 6, ts) == ReadKeyword(m, ts)
    ensures ts == [] || !IsKeyword(ts[0]) ==> Read(m, 6, ts) == Read(m, 7, ts)
  {
  }

  lemma {:induction false} ReadsKeyword(m: Matcher, e: Expr, rest: seq<Arg>)
    requires WellFormed(e) && Level(e) >= 6
    ensures ReadsBack(m, e, 6, rest)
    decreases e, 1, 0
  {
    hide Read, ReadsBack, Print, Meaning;
    match e
    case Word(s) => ReadsPlain(m, e, rest);
    case Grouped(a) => ReadsPlain(m, e, rest);
    case Quoted(s) => ReadsQuoted(m, s, rest);
    case Length(a) =>
      ReadsKeyword(m, a, rest);
      ReadsLength(m, a, rest);
    case Match(a, b) =>
      ReadsKeyword(m, a, Print(b) + rest);
      ReadsKeyword(m, b, rest);
      ReadsMatch(m, a, b, rest);
    case Index(a, b) =>
      ReadsKeyword(m, a, Print(b) + rest);
      ReadsKeyword(m, b, rest);
      ReadsIndex(m, a, b, rest);
    case Substr(a, b, c) =>
      ReadsKeyword(m, a, Print(b) + (Print(c) + rest));
      ReadsKeyword(m, b, Print(c) + rest);
      ReadsKeyword(m, c, rest);
      ReadsSubstr(m, a, b, c, rest);
  }

  lemma {:induction false} ReadsPlain(m: Matcher, e: Expr, rest: seq<Arg>)
    requires WellFormed(e) && Level(e) == 7
    ensures ReadsBack(m, e, 6, rest)
    decreases e, 0, 1
  {
    hide Read, Print, Meaning;
    ReadsOperand(m, e, rest);
    OperandStep(m, Print(e) + rest);
  }

  lemma ReadsQuoted(m: Matcher, s: Arg, rest: seq<Arg>)
    ensures ReadsBack(m, Quoted(s), 6, rest)
  {
    hide Read, ReadOperand;
    var ts := [QUOTE, s] + rest;
    OperandStep(m, ts);
    assert ts[2..] == rest;
  }

  lemma ReadsLength(m: Matcher, a: Expr, rest: seq<Arg>)
    requires ReadsBack(m, a, 6, rest)
    ensures ReadsBack(m, Length(a), 6, rest)
  {
    hide Read, ReadOperand, LengthOf;
    var ts := [LENGTH] + (Print(a) + rest);
    assert Print(Length(a)) + rest == ts;
    OperandStep(m, ts);
    assert ts[1..] == Print(a) + rest;
    LengthFails(Meaning(m, a));
  }

  lemma LengthFails(l: Outcome)
    ensures if l.Ok? then LengthOf(l).Ok? else LengthOf(l) == l
  {
  }

  lemma ReadsMatch(m: Matcher, a: Expr, b: Expr, rest: seq<Arg>)
    requires ReadsBack(m, a, 6, Print(b) + rest) && ReadsBack(m, b, 6, rest)
    ensures ReadsBack(m, Match(a, b), 6, rest)
  {
    hide Read, ReadOperand, Matched;
    var ts := [MATCH] + (Print(a) + (Print(b) + rest));
    JoinThree([MATCH], Print(a), Print(b), rest);
    OperandStep(m, ts);
    assert ts[1..] == Print(a) + (Print(b) + rest);
  }

  lemma ReadsIndex(m: Matcher, a: Expr, b: Expr, rest: seq<Arg>)
    requires ReadsBack(m, a, 6, Print(b) + rest) && ReadsBack(m, b, 6, rest)
    ensures ReadsBack(m, Index(a, b), 6, rest)
  {
    hide Read, ReadOperand, IndexIn;
    var ts := [INDEX] + (Print(a) + (Print(b) + rest));
    JoinThree([INDEX], Print(a), Print(b), rest);
    OperandStep(m, ts);
    assert ts[1..] == Print(a) + (Print(b) + rest);
  }

  lemma JoinThree(s: seq<Arg>, a: seq<Arg>, b: seq<Arg>, rest: seq<Arg>)
    ensures s + a + b + rest == s + (a + (b + rest))
  {
    assert a + b + rest == a + (b + rest);
    assert s + a + b == s + (a + b);
  }

  lemma JoinFour(s: seq<Arg>, a: seq<Arg>, b: seq<Arg>, c: seq<Arg>, rest: seq<Arg>)
    ensures s + a + b + c + rest == s + (a + (b + (c + rest)))
  {
    assert a + b + c + rest == a + (b + (c + rest));
    assert s + a + b + c == s + (a + b + c);
    assert s + (a + b + c) + rest == s + (a + b + c + rest);
  }

  lemma ReadsSubstr(m: Matcher, a: Expr, b: Expr, c: Expr, rest: seq<Arg>)
    requires ReadsBack(m, a, 6, Print(b) + (Print(c) + rest)) && ReadsBack(m, b, 6, Print(c) + rest) && ReadsBack(m, c, 6, rest)
    ensures ReadsBack(m, Substr(a, b, c), 6, rest)
  {
    hide Read, ReadOperand, Part, NumberOf;
    var ts := [SUBSTR] + (Print(a) + (Print(b) + (Print(c) + rest)));
    JoinFour([SUBSTR], Print(a), Print(b), Print(c), rest);
    OperandStep(m, ts);
    assert ts[1..] == Print(a) + (Print(b) + (Print(c) + rest));
  }

  // ----- what is read was written -----

  /** The tree is what was read. */
  ghost predicate WasRead(m: Matcher, e: Expr, k: nat, ts: seq<Arg>, r: Reading)
  {
    WellFormed(e) && Level(e) >= k && Meaning(m, e) == r.out && ts == Print(e) + r.rest && Ends(k, r.rest)
  }

  /** Whatever is read without an error is a tree and means what it means. */
  lemma {:induction false} ReadsOnly(m: Matcher, k: nat, ts: seq<Arg>) returns (e: Expr)
    requires k <= 6 && Read(m, k, ts).out.Ok?
    ensures WasRead(m, e, k, ts, Read(m, k, ts))
    decreases |ts|, 8 - k
  {
    hide Read, ReadMore, Meaning, Print, WellFormed;
    if k <= 5 {
      StepDown(m, k, ts);
      var l := Read(m, k + 1, ts);
      e := ReadsOnly(m, k + 1, ts);
      e := GoesOn(m, k, l.out.v, l.rest, e, ts);
    } else {
      OperandStep(m, ts);
      e := KeywordOnly(m, ts);
    }
  }

  lemma {:induction false} GoesOn(m: Matcher, k: nat, l: Value, ts: seq<Arg>, a: Expr, all: seq<Arg>) returns (e: Expr)
    requires k <= 5 && ReadMore(m, k, l, ts).out.Ok? && |ts| < |all|
    requires WellFormed(a) && Level(a) >= k && Meaning(m, a) == Ok(l) && all == Print(a) + ts && Ends(k + 1, ts)
    ensures WasRead(m, e, k, all, ReadMore(m, k, l, ts))
    decreases |ts|, 0
  {
    hide Read, ReadMore, Meaning, Print, WellFormed, Apply;
    var op := OpAt(k, ts);
    if op.None? {
      e := a;
      MoreStops(m, k, l, ts);
    } else {
      MoreStep(m, k, l, ts);
      var r := Read(m, k + 1, ts[1..]);
      var b := ReadsOnly(m, k + 1, ts[1..]);
      e := Binary(op.value, a, b);
      BinaryWhole(m, e, ts, r.rest);
      e := GoesOn(m, k, BinaryOf(m, op.value, Ok(l), r.out).v, r.rest, e, all);
    }
  }

  lemma MoreStops(m: Matcher, k: nat, l: Value, ts: seq<Arg>)
    requires k <= 5 && OpAt(k, ts).None?
    ensures ReadMore(m, k, l, ts) == Reading(Ok(l), ts)
  {
  }

  lemma BinaryWhole(m: Matcher, e: Expr, ts: seq<Arg>, rest: seq<Arg>)
    requires e.Binary? && ts != [] && ts[0] == Symbol(e.op) && ts[1..] == Print(e.b) + rest
    requires WellFormed(e.a) && WellFormed(e.b) && Level(e.a) >= LevelOf(e.op) && Level(e.b) > LevelOf(e.op)
    ensures WellFormed(e) && Level(e) == LevelOf(e.op) && Print(e) + rest == Print(e.a) + ts
    ensures Meaning(m, e) == BinaryOf(m, e.op, Meaning(m, e.a), Meaning(m, e.b))
  {
    hide Symbol, BinaryOf;
    assert ts == [ts[0]] + ts[1..];
  }

  lemma {:induction false} OperandOnly(m: Matcher, ts: seq<Arg>) returns (e: Expr)
    requires ReadOperand(m, ts).out.Ok? && !IsKeyword(ts[0])
    ensures WasRead(m, e, 7, ts, ReadOperand(m, ts))
    decreases |ts|, 0
  {
    hide Read, OpAt;
    assert ts == [ts[0]] + ts[1..];
    if ts[0] == OPEN {
      var a := ReadsOnly(m, 0, ts[1..]);
      e := Grouped(a);
      var rest := Read(m, 0, ts[1..]).rest;
      assert rest == [CLOSE] + rest[1..];
    } else {
      e := Word(ts[0]);
    }
  }

  lemma {:induction false} KeywordOnly(m: Matcher, ts: seq<Arg>) returns (e: Expr)
    requires ReadKeyword(m, ts).out.Ok?
    ensures WasRead(m, e, 6, ts, ReadKeyword(m, ts))
    decreases |ts|, 1
  {
    hide Read, OpAt, ReadOperand, Print, Meaning, WellFormed, LengthOf, MatchOf, IndexOf, SubstrOf;
    if !IsKeyword(ts[0]) {
      e := OperandOnly(m, ts);
    } else if ts[0] == QUOTE {
      e := Quoted(ts[1]);
      QuotedWhole(m, ts);
    } else {
      var l := Read(m, 6, ts[1..]);
      var a := ReadsOnly(m, 6, ts[1..]);
      if ts[0] == LENGTH {
        e := Length(a);
        LengthWhole(m, a, ts, l.rest);
      } else {
        var r := Read(m, 6, l.rest);
        var b := ReadsOnly(m, 6, l.rest);
        if ts[0] == MATCH {
          e := Match(a, b);
          MatchWhole(m, a, b, ts, l.rest, r.rest);
        } else if ts[0] == INDEX {
          e := Index(a, b);
          IndexWhole(m, a, b, ts, l.rest, r.rest);
        } else {
          var c := ReadsOnly(m, 6, r.rest);
          e := Substr(a, b, c);
          SubstrWhole(m, a, b, c, ts, l.rest, r.rest, Read(m, 6, r.rest).rest);
        }
      }
    }
  }

  lemma QuotedWhole(m: Matcher, ts: seq<Arg>)
    requires |ts| > 1 && ts[0] == QUOTE
    ensures WellFormed(Quoted(ts[1])) && ts == Print(Quoted(ts[1])) + ts[2..] && Meaning(m, Quoted(ts[1])) == Ok(Text(ts[1]))
  {
  }

  lemma LengthWhole(m: Matcher, a: Expr, ts: seq<Arg>, rest: seq<Arg>)
    requires ts != [] && ts[0] == LENGTH && ts[1..] == Print(a) + rest && WellFormed(a) && Level(a) >= 6
    ensures WellFormed(Length(a)) && ts == Print(Length(a)) + rest && Meaning(m, Length(a)) == LengthOf(Meaning(m, a))
  {
    assert ts == [ts[0]] + ts[1..];
  }

  lemma MatchWhole(m: Matcher, a: Expr, b: Expr, ts: seq<Arg>, mid: seq<Arg>, rest: seq<Arg>)
    requires ts != [] && ts[0] == MATCH && ts[1..] == Print(a) + mid && mid == Print(b) + rest
    requires WellFormed(a) && Level(a) >= 6 && WellFormed(b) && Level(b) >= 6
    ensures WellFormed(Match(a, b)) && ts == Print(Match(a, b)) + rest
    ensures Meaning(m, Match(a, b)) == MatchOf(m, Meaning(m, a), Meaning(m, b))
  {
    assert ts == [ts[0]] + ts[1..];
  }

  lemma IndexWhole(m: Matcher, a: Expr, b: Expr, ts: seq<Arg>, mid: seq<Arg>, rest: seq<Arg>)
    requires ts != [] && ts[0] == INDEX && ts[1..] == Print(a) + mid && mid == Print(b) + rest
    requires WellFormed(a) && Level(a) >= 6 && WellFormed(b) && Level(b) >= 6
    ensures WellFormed(Index(a, b)) && ts == Print(Index(a, b)) + rest
    ensures Meaning(m, Index(a, b)) == IndexOf(Meaning(m, a), Meaning(m, b))
  {
    assert ts == [ts[0]] + ts[1..];
  }

  lemma SubstrWhole(m: Matcher, a: Expr, b: Expr, c: Expr, ts: seq<Arg>, x: seq<Arg>, y: seq<Arg>, rest: seq<Arg>)
    requires ts != [] && ts[0] == SUBSTR && ts[1..] == Print(a) + x && x == Print(b) + y && y == Print(c) + rest
    requires WellFormed(a) && Level(a) >= 6 && WellFormed(b) && Level(b) >= 6 && WellFormed(c) && Level(c) >= 6
    ensures WellFormed(Substr(a, b, c)) && ts == Print(Substr(a, b, c)) + rest
    ensures Meaning(m, Substr(a, b, c)) == SubstrOf(Meaning(m, a), Meaning(m, b), Meaning(m, c))
  {
    hide SubstrOf;
    assert ts == [SUBSTR] + ts[1..];
    JoinFour([SUBSTR], Print(a), Print(b), Print(c), rest);
  }

  // ----- whole expressions -----

  /** The arguments are evaluated as one expression, with nothing left. */
  function Evaluated(m: Matcher, args: seq<Arg>): Outcome
  {
    var r := Read(m, 0, args);
    if r.out.Ok? && r.rest != [] then SyntaxError else r.out
  }

  /** Evaluating the arguments that a tree is written as gives what it means. */
  lemma ExpressionRead(m: Matcher, e: Expr)
    requires WellFormed(e)
    ensures Evaluated(m, Print(e)) == Meaning(m, e)
  {
    hide Meaning, Print, WellFormed, Read;
    assert Print(e) + [] == Print(e);
    ReadsTree(m, e, 0, []);
  }

  /** The arguments are what a tree is written as, which means v. */
  ghost predicate TreeFor(m: Matcher, args: seq<Arg>, v: Value)
  {
    exists e :: WellFormed(e) && Print(e) == args && Meaning(m, e) == Ok(v)
  }

  /** Arguments have a value exactly if they are a tree that has it. */
  lemma ValueOfTree(m: Matcher, args: seq<Arg>, v: Value)
    ensures Evaluated(m, args) == Ok(v) <==> TreeFor(m, args, v)
  {
    hide Meaning, Print, WellFormed, Read;
    if Evaluated(m, args) == Ok(v) {
      var e := ReadsOnly(m, 0, args);
      assert Print(e) + [] == Print(e);
      assert Print(e) == args;
    }
    if e :| WellFormed(e) && Print(e) == args && Meaning(m, e) == Ok(v) {
      ExpressionRead(m, e);
    }
  }

  // ----- as few parentheses as possible -----

  /** In parentheses if it has to be. */
  function Fit(e: Expr, k: nat): Expr
  {
    if Level(e) >= k then e else Grouped(e)
  }

  /** The tree of an expression whose own parentheses do not count. */
  function Minimal(e: Expr): Expr
  {
    match e
    case Word(s) => if IsWord(s) then e else Quoted(s)
    case Quoted(s) => e
    case Grouped(a) => Minimal(a)
    case Length(a) => Length(Fit(Minimal(a), 6))
    case Match(a, b) => Match(Fit(Minimal(a), 6), Fit(Minimal(b), 6))
    case Index(a, b) => Index(Fit(Minimal(a), 6), Fit(Minimal(b), 6))
    case Substr(a, b, c) => Substr(Fit(Minimal(a), 6), Fit(Minimal(b), 6), Fit(Minimal(c), 6))
    case Binary(op, a, b) => Binary(op, Fit(Minimal(a), LevelOf(op)), Fit(Minimal(b), LevelOf(op) + 1))
  }

  /** Where level k is asked for, parentheses are around lower levels only. */
  predicate NoSpare(e: Expr, k: nat)
  {
    match e
    case Word(s) => true
    case Quoted(s) => true
    case Grouped(a) => Level(a) < k && NoSpare(a, 0)
    case Length(a) => NoSpare(a, 6)
    case Match(a, b) => NoSpare(a, 6) && NoSpare(b, 6)
    case Index(a, b) => NoSpare(a, 6) && NoSpare(b, 6)
    case Substr(a, b, c) => NoSpare(a, 6) && NoSpare(b, 6) && NoSpare(c, 6)
    case Binary(op, a, b) => NoSpare(a, LevelOf(op)) && NoSpare(b, LevelOf(op) + 1)
  }

  lemma FitKeeps(m: Matcher, e: Expr, k: nat)
    requires WellFormed(e) && NoSpare(e, 0) && k <= 7
    ensures WellFormed(Fit(e, k)) && Level(Fit(e, k)) >= k && NoSpare(Fit(e, k), k)
    ensures Meaning(m, Fit(e, k)) == Meaning(m, e)
  {
  }

  lemma {:induction false} MinimalIsGood(m: Matcher, e: Expr)
    ensures WellFormed(Minimal(e)) && NoSpare(Minimal(e), 0) && Meaning(m, Minimal(e)) == Meaning(m, e)
    decreases e, 0
  {
    hide Apply, LengthOf, MatchOf, IndexOf, SubstrOf, BinaryOf, Fit;
    match e
    case Word(s) =>
    case Quoted(s) =>
    case Grouped(a) => MinimalIsGood(m, a);
    case Length(a) => MinimalFits(m, a, 6);
    case Match(a, b) => MinimalFits(m, a, 6); MinimalFits(m, b, 6);
    case Index(a, b) => MinimalFits(m, a, 6); MinimalFits(m, b, 6);
    case Substr(a, b, c) => MinimalFits(m, a, 6); MinimalFits(m, b, 6); MinimalFits(m, c, 6);
    case Binary(op, a, b) => MinimalFits(m, a, LevelOf(op)); MinimalFits(m, b, LevelOf(op) + 1);
  }

  lemma {:induction false} MinimalFits(m: Matcher, e: Expr, k: nat)
    requires k <= 7
    ensures var f := Fit(Minimal(e), k); WellFormed(f) && Level(f) >= k && NoSpare(f, k) && Meaning(m, f) == Meaning(m, e)
    decreases e, 1
  {
    MinimalIsGood(m, e);
    FitKeeps(m, Minimal(e), k);
  }

  /** Any expression can be written with parentheses only where they are needed;
      evaluating that gives what the expression means. */
  lemma MinimalRead(m: Matcher, e: Expr)
    ensures Evaluated(m, Print(Minimal(e))) == Meaning(m, e)
  {
    MinimalIsGood(m, e);
    ExpressionRead(m, Minimal(e));
  }
}
