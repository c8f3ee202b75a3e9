/** What numbers, divisions, comparisons and keywords of expr.c are, without the
    functions of `Expressions` that compute them. */
module ExpressionValues {
  import opened Bits
  import opened PrefixCode
  import opened CStrings
  import Versions
  import opened Expressions

  // ----- division -----

  function Abs(a: int): nat
  {
    if a < 0 then -a else a
  }

  /** q and r are the quotient and the remainder of C: towards zero, with the sign of a. */
  predicate Divides(a: int, b: int, q: int, r: int)
  {
    Leaves(a, b, b * q, r)
  }

  predicate Leaves(a: int, b: int, p: int, r: int)
  {
    a == p + r && Abs(r) < Abs(b) && (r == 0 || (r > 0 <==> a > 0))
  }

  lemma DivisionIs(a: int, b: int)
    requires b != 0
    ensures Divides(a, b, Quotient(a, b), Remainder(a, b))
  {
    hide Leaves;
    EuclidIs(Abs(a), b);
    NegatedProduct(b, Abs(a) / b);
    Signed(a, b, b * (Abs(a) / b), Abs(a) % b);
  }

  lemma Signed(a: int, b: int, p: int, r: int)
    requires Abs(a) == p + r && 0 <= r < Abs(b) && r <= Abs(a)
    ensures if a >= 0 then Leaves(a, b, p, r) else Leaves(a, b, -p, -r)
  {
  }

  lemma EuclidIs(n: int, b: int)
    requires b != 0
    ensures n == b * (n / b) + n % b && 0 <= n % b < Abs(b)
    ensures n >= 0 ==> n % b <= n
  {
    var q, r := n / b, n % b;
    if n >= 0 && r > n {
      MultipleIsLarge(b, q);
    }
  }

  lemma NegatedProduct(a: int, b: int)
    ensures a * -b == -(a * b)
  {
  }

  /** No other pair is. */
  lemma OnlyDivision(a: int, b: int, q: int, r: int)
    requires b != 0 && Divides(a, b, q, r)
    ensures q == Quotient(a, b) && r == Remainder(a, b)
  {
    DivisionIs(a, b);
    var q', r' := Quotient(a, b), Remainder(a, b);
    Distribute(b, q, q');
    MultipleIsLarge(b, q - q');
  }

  lemma MultipleIsLarge(b: int, k: int)
    ensures k != 0 ==> Abs(b * k) >= Abs(b)
  {
    if k > 0 {
      ProductAtLeast(Abs(b), k);
    } else if k < 0 {
      ProductAtLeast(Abs(b), -k);
    }
    assert Abs(b * k) == Abs(b) * Abs(k);
  }

  lemma ProductAtLeast(a: nat, k: nat)
    requires k > 0
    ensures a * k >= a
  {
  }

  /** Whether a result fits 64 bits. */
  function In64(i: int): Outcome
  {
    if -0x8000_0000_0000_0000 <= i < 0x8000_0000_0000_0000 then Ok(Integer(i)) else Undefined
  }

  /** What the five operators give for two numbers. */
  lemma ArithmeticIs(l: Value, r: Value, x: int, y: int)
    requires NumberOf(l) == Some(x) && NumberOf(r) == Some(y)
    ensures Calculated(Add, l, r) == In64(x + y) && Calculated(Sub, l, r) == In64(x - y) && Calculated(Mul, l, r) == In64(x * y)
    ensures y == 0 ==> Calculated(Div, l, r) == Calculated(Mod, l, r) == DivisionByZero
    ensures forall q, m :: y != 0 && Divides(x, y, q, m) ==>
      Calculated(Div, l, r) == In64(q) && Calculated(Mod, l, r) == if In64(q).Ok? then Ok(Integer(m)) else Undefined
  {
    hide NumberOf, Quotient, Remainder, Divides;
    forall q, m | y != 0 && Divides(x, y, q, m)
      ensures q == Quotient(x, y) && m == Remainder(x, y)
    {
      OnlyDivision(x, y, q, m);
    }
  }

  /** And for anything else. */
  lemma NotArithmetic(op: Op, l: Value, r: Value)
    requires NumberOf(l).None? || NumberOf(r).None?
    ensures Calculated(op, l, r) == NonNumeric
  {
  }

  // ----- strings that say numbers -----

  predicate AllDigits(d: seq<byte>)
  {
    forall i :: 0 <= i < |d| ==> 48 <= d[i] <= 57
  }

  predicate AllSpace(w: seq<byte>)
  {
    forall i :: 0 <= i < |w| ==> w[i] == 32 || 9 <= w[i] <= 13
  }

  /** The string is white space, a sign maybe, and digits. */
  ghost predicate Says(s: Arg, w: seq<byte>, sign: seq<byte>, d: seq<byte>)
  {
    s == w + sign + d && AllSpace(w) && (sign == [] || sign == [43] || sign == [45]) && d != [] && AllDigits(d)
  }

  lemma {:induction false} SpaceSkipped(w: seq<byte>, s: seq<byte>)
    requires AllSpace(w) && s != [] && !(s[0] == 32 || 9 <= s[0] <= 13)
    ensures Versions.SkipSpace(w + s) == s
  {
    if w == [] {
      assert w + s == s;
    } else {
      assert (w + s)[1..] == w[1..] + s;
      SpaceSkipped(w[1..], s);
    }
  }

  lemma {:induction false} SpaceBefore(s: seq<byte>) returns (w: seq<byte>)
    ensures AllSpace(w) && s == w + Versions.SkipSpace(s)
  {
    if s != [] && (s[0] == 32 || 9 <= s[0] <= 13) {
      w := SpaceBefore(s[1..]);
      w := [s[0]] + w;
    } else {
      w := [];
    }
  }

  lemma {:induction false} DigitsOnly(d: seq<byte>)
    requires AllDigits(d)
    ensures Versions.Digits(d) == d
  {
    if d != [] {
      DigitsOnly(d[1..]);
    }
  }

  /** Such a string is that number, or the nearest that 64 bits can hold. */
  lemma NumberSaid(s: Arg, w: seq<byte>, sign: seq<byte>, d: seq<byte>)
    requires Says(s, w, sign, d)
    ensures var n: int := Versions.Value(d);
            NumberOf(Text(s)) == Some(Clamp(if sign == [45] then -n else n))
  {
    hide Versions.Value, Versions.Digits, Clamp;
    assert s == w + (sign + d);
    SpaceSkipped(w, sign + d);
    DigitsOnly(d);
    var t := sign + d;
    if sign != [] {
      assert t[1..] == d;
    } else {
      assert t == d;
    }
    assert d[|d|..] == [];
  }

  lemma HowSaid(s: Arg) returns (w: seq<byte>, sign: seq<byte>, d: seq<byte>)
    requires NumberOf(Text(s)).Some?
    ensures Says(s, w, sign, d)
  {
    hide NumberOf, Versions.SkipSpace, Versions.Digits;
    w := SpaceBefore(s);
    sign, d := SaidBehindSpace(s);
    assert s == w + sign + d;
  }

  lemma SaidBehindSpace(s: Arg) returns (sign: seq<byte>, d: seq<byte>)
    requires NumberOf(Text(s)).Some?
    ensures Versions.SkipSpace(s) == sign + d && (sign == [] || sign == [43] || sign == [45]) && d != [] && AllDigits(d)
  {
    hide Versions.Value, Clamp, Versions.SkipSpace;
    var t := Versions.SkipSpace(s);
    sign := if t != [] && (t[0] == 45 || t[0] == 43) then t[..1] else [];
    d := t[|sign|..];
    assert t == sign + d;
    DigitsAll(d);
  }

  lemma DigitsAll(d: seq<byte>)
    ensures Versions.Digits(d) != [] && d[|Versions.Digits(d)|..] == [] ==> AllDigits(d)
  {
  }

  /** And no other string is a number. */
  lemma NumberIsSaid(s: Arg)
    ensures NumberOf(Text(s)).Some? <==> exists w, sign, d :: Says(s, w, sign, d)
  {
    hide Versions.Value, Clamp, Says, NumberOf;
    if NumberOf(Text(s)).Some? {
      var w, sign, d := HowSaid(s);
    }
    if w, sign, d :| Says(s, w, sign, d) {
      NumberSaid(s, w, sign, d);
    }
  }

  /** A number is written without white space, plus sign or leading zeros. */
  lemma WrittenPlain(i: int)
    ensures var d := if i < 0 then Decimal(i)[1..] else Decimal(i);
            AllDigits(d) && d != [] && (d[0] == 48 ==> d == [48]) && Versions.Value(d) == Abs(i)
    ensures i < 0 ==> Decimal(i)[0] == 45
  {
    hide Numeral;
    NumeralValue(Abs(i));
    NoLeadingZero(Abs(i));
    if i < 0 {
      assert Decimal(i)[1..] == Numeral(-i);
    }
  }

  lemma {:induction false} NoLeadingZero(n: nat)
    ensures Numeral(n)[0] == 48 ==> n == 0
    ensures Numeral(0) == [48]
  {
    if n >= 10 {
      NoLeadingZero(n / 10);
    }
  }

  // ----- the order of strings -----

  /** The first difference decides, and an end comes first. */
  lemma {:induction false} StringsOrdered(p: Arg, x: byte, u: Arg, y: byte, v: Arg, s: Arg, t: Arg)
    requires x < y && s == p + [x] + u && t == p + [y] + v
    ensures Compare(s, t) < 0 && Compare(t, s) > 0 && Compare(p, t) < 0 && Compare(t, p) > 0
    decreases |p|
  {
    if p != [] {
      var q: Arg, s', t' := p[1..], s[1..], t[1..];
      assert s' == q + [x] + u && t' == q + [y] + v;
      StringsOrdered(q, x, u, y, v, s', t');
    }
  }

  // ----- keywords -----

  lemma KeywordsSpelled()
    ensures QUOTE == Ascii("quote") && LENGTH == Ascii("length") && MATCH == Ascii("match")
    ensures INDEX == Ascii("index") && SUBSTR == Ascii("substr") && OPEN == Ascii("(") && CLOSE == Ascii(")")
  {
  }

  lemma SymbolsSpelled()
    ensures Symbol(Or) == Ascii("|") && Symbol(And) == Ascii("&") && Symbol(Colon) == Ascii(":")
    ensures Symbol(Lt) == Ascii("<") && Symbol(Le) == Ascii("<=") && Symbol(Eq) == Ascii("=") && Symbol(EqEq) == Ascii("==")
    ensures Symbol(Ne) == Ascii("!=") && Symbol(Ge) == Ascii(">=") && Symbol(Gt) == Ascii(">")
    ensures Symbol(Add) == Ascii("+") && Symbol(Sub) == Ascii("-")
    ensures Symbol(Mul) == Ascii("*") && Symbol(Div) == Ascii("/") && Symbol(Mod) == Ascii("%")
  {
  }
}
