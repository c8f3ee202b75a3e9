/** The evaluator of expr.c: one method for each level of operators, which goes
    over the arguments and evaluates as it reads. No tree is built. */
module ExprEvaluator {
  import opened PrefixCode
  import opened CStrings
  import opened Expressions

  /** What stands for an operator: the sum of its first two characters. */
  function OpCode(s: Arg): (n: nat)
    requires s != []
    ensures n > 0
  {
    assert s[0] in s;
    (s[0] as nat) + if |s| > 1 then s[1] as nat else 0
  }

  /** `tostring` */
  method ToString(v: Value) returns (t: Value)
    ensures t == Text(TextOf(v))
  {
    t := v;
    if v.Integer? {
      t := Text(Decimal(v.i));
    }
  }

  /** `toarith`: the value as a number, if it is one; otherwise it stays a string. */
  method ToArith(v: Value) returns (ok: bool, t: Value)
    ensures ok == NumberOf(v).Some?
    ensures t == if ok then Integer(NumberOf(v).value) else v
  {
    ok, t := true, v;
    if v.Text? {
      var r := ReadInteger(v.s);
      if r.None? || r.value.1 != [] {
        return false, v;
      }
      t := Integer(r.value.0);
    }
  }

  /** `cmp_common` */
  method CmpCommon(l0: Value, r0: Value, op: nat, ghost o: Op) returns (b: bool)
    requires op == OpCode(Symbol(o)) && LevelOf(o) == 2
    ensures b == if l0.Integer? && r0.Integer? then Holds(o, l0.i, r0.i) else Holds(o, Compare(TextOf(l0), TextOf(r0)), 0)
  {
    var l, r := l0, r0;
    var ll, rr := 0, 0;
    if l.Text? || r.Text? {
      l := ToString(l);
      r := ToString(r);
      ll := Compare(l.s, r.s);
      rr := 0;
    } else {
      ll := l.i;
      rr := r.i;
    }
    if op == 60 {
      return ll < rr;
    }
    if op == 60 + 61 {
      return ll <= rr;
    }
    if op == 61 || op == 61 + 61 {
      return ll == rr;
    }
    if op == 33 + 61 {
      return ll != rr;
    }
    if op == 62 {
      return ll > rr;
    }
    return ll >= rr;
  }

  /** What a comparison of two values gives, after both have been made numbers if
      they are. */
  method CompareValues(l0: Value, r0: Value, op: nat, ghost o: Op) returns (v: Value)
    requires op == OpCode(Symbol(o)) && LevelOf(o) == 2
    ensures v == Compared(o, l0, r0)
  {
    hide Compare, Decimal, Symbol, OpCode, ReadInteger, Holds;
    var x, l := ToArith(l0);
    var y, r := ToArith(r0);
    var b := CmpCommon(l, r, op, o);
    v := Integer(if b then 1 else 0);
  }

  /** `arithmetic_common` */
  method ArithmeticCommon(l0: Value, r0: Value, op: nat, ghost o: Op) returns (out: Outcome)
    requires op == OpCode(Symbol(o)) && (LevelOf(o) == 3 || LevelOf(o) == 4)
    ensures out == Calculated(o, l0, r0)
  {
    hide ReadInteger, NumberOf, Quotient, Remainder, Fits;
    var x, l := ToArith(l0);
    if !x {
      return NonNumeric;
    }
    var y, r := ToArith(r0);
    if !y {
      return NonNumeric;
    }
    var li, ri := l.i, r.i;
    if op == 43 {
      return Checked(li + ri);
    }
    if op == 45 {
      return Checked(li - ri);
    }
    if op == 42 {
      return Checked(li * ri);
    }
    if ri == 0 {
      return DivisionByZero;
    }
    if op == 47 {
      return Checked(Quotient(li, ri));
    }
    if !Fits(Quotient(li, ri)) {
      return Undefined;
    }
    return Ok(Integer(Remainder(li, ri)));
  }

  // ----- the operators of each level -----

  lemma Level0(ts: seq<Arg>)
    ensures OpAt(0, ts) ==
      if ts == [] then None
      else if ts[0] == [124] then Some(Or)
      else None
  {
  }

  lemma Level1(ts: seq<Arg>)
    ensures OpAt(1, ts) ==
      if ts == [] then None
      else if ts[0] == [38] then Some(And)
      else None
  {
  }

  lemma Level2(ts: seq<Arg>)
    ensures OpAt(2, ts) ==
      if ts == [] then None
      else if ts[0] == [60] then Some(Lt)
      else if ts[0] == [60, 61] then Some(Le)
      else if ts[0] == [61] then Some(Eq)
      else if ts[0] == [61, 61] then Some(EqEq)
      else if ts[0] == [33, 61] then Some(Ne)
      else if ts[0] == [62, 61] then Some(Ge)
      else if ts[0] == [62] then Some(Gt)
      else None
  {
  }

  lemma Level3(ts: seq<Arg>)
    ensures OpAt(3, ts) ==
      if ts == [] then None
      else if ts[0] == [43] then Some(Add)
      else if ts[0] == [45] then Some(Sub)
      else None
  {
  }

  lemma Level4(ts: seq<Arg>)
    ensures OpAt(4, ts) ==
      if ts == [] then None
      else if ts[0] == [42] then Some(Mul)
      else if ts[0] == [47] then Some(Div)
      else if ts[0] == [37] then Some(Mod)
      else None
  {
  }

  lemma Level5(ts: seq<Arg>)
    ensures OpAt(5, ts) ==
      if ts == [] then None
      else if ts[0] == [58] then Some(Colon)
      else None
  {
  }

  lemma RightFirst(m: Matcher, o: Op, l: Outcome, r: Outcome)
    ensures BinaryOf(m, o, l, r).Ok? ==> r.Ok?
  {
  }

  class Evaluator {
    const args: seq<Arg>
    const m: Matcher
    var pos: nat

    /** The arguments that are left. */
    function Left(): seq<Arg>
      requires pos <= |args|
      reads this
    {
      args[pos..]
    }

    constructor (args: seq<Arg>, m: Matcher)
      ensures this.args == args && this.m == m && pos == 0
    {
      this.args, this.m, pos := args, m, 0;
    }

    /** The arguments s, which were left, have been evaluated on level k. */
    ghost predicate Read(k: nat, s: seq<Arg>, r: Outcome)
      requires k <= 7
      reads this
    {
      && pos <= |args| && r == Expressions.Read(m, k, s).out
      && (r.Ok? ==> Left() == Expressions.Read(m, k, s).rest)
    }

    /** `nextarg` */
    method NextArg(s: Arg) returns (code: nat)
      requires s != [] && pos <= |args|
      ensures code == if Left() != [] && Left()[0] == s then OpCode(s) else 0
    {
      if pos == |args| || args[pos] != s {
        return 0;
      }
      return OpCode(s);
    }

    lemma OneLess()
      requires pos < |args|
      ensures args[pos + 1..] == Left()[1..] && |Left()| == |args| - pos
    {
    }

    /** `docolon` */
    method DoColon(l: Value, r: Value) returns (out: Outcome)
      ensures out == Matched(m, l, r)
    {
      var s := ToString(l);
      var p := ToString(r);
      var v := m(s.s, p.s);
      out := if v.Some? then Ok(v.value) else BadPattern;
    }

    /** `eval7`: operands and parentheses. */
    method Eval7() returns (r: Outcome)
      requires pos <= |args|
      modifies this`pos
      ensures Read(7, old(Left()), r)
      decreases |args| - pos, 1
    {
      hide IsKeyword;
      OperandStep(m, Left());
      if pos == |args| {
        return SyntaxError;
      }
      OneLess();
      var open := NextArg(OPEN);
      if open != 0 {
        pos := pos + 1;
        r := Eval();
        if !r.Ok? {
          return;
        }
        var close := NextArg(CLOSE);
        if close == 0 {
          return SyntaxError;
        }
        OneLess();
        pos := pos + 1;
        return;
      }
      var close := NextArg(CLOSE);
      if close != 0 {
        return SyntaxError;
      }
      r := Ok(Text(args[pos]));
      pos := pos + 1;
    }

    /** Goes on with operators of level k, to whose left is r, as reading s does. */
    ghost predicate Going(k: nat, s: seq<Arg>, r: Outcome)
      requires k <= 5
      reads this
    {
      pos <= |args| && r.Ok? && Continue(m, k, r, Left()) == Expressions.Read(m, k, s)
    }

    lemma Starts(k: nat, s: seq<Arg>, r: Outcome)
      requires k <= 5 && Read(k + 1, s, r)
      ensures r.Ok? ==> pos <= |args| && Going(k, s, r) && |Left()| < |s|
      ensures !r.Ok? ==> Read(k, s, r)
    {
      hide Expressions.Read;
      StepDown(m, k, s);
    }

    lemma Stops(k: nat, s: seq<Arg>, r: Outcome)
      requires k <= 5 && Going(k, s, r) && OpAt(k, Left()).None?
      ensures Read(k, s, r)
    {
      hide Expressions.Read, ReadMore;
      MoreStops(m, k, r.v, Left());
    }

    /** Behind an operator o and what is read to its right. */
    lemma Onward(k: nat, s: seq<Arg>, l: Value, ts: seq<Arg>, o: Op, r: Outcome, out: Outcome)
      requires k <= 5 && ReadMore(m, k, l, ts) == Expressions.Read(m, k, s) && OpAt(k, ts) == Some(o)
      requires ts != [] && Read(k + 1, ts[1..], r) && out == BinaryOf(m, o, Ok(l), r)
      ensures out.Ok? ==> pos <= |args| && Going(k, s, out) && |Left()| < |ts|
      ensures !out.Ok? ==> Read(k, s, out)
    {
      hide Expressions.Read, ReadMore, BinaryOf, OpAt;
      RightFirst(m, o, Ok(l), r);
      MoreStep(m, k, l, ts);
    }

    lemma GoingOn(k: nat, s: seq<Arg>, r: Outcome)
      requires k <= 5 && Going(k, s, r)
      ensures pos <= |args| && r.Ok? && ReadMore(m, k, r.v, Left()) == Expressions.Read(m, k, s)
    {
      hide Expressions.Read, ReadMore;
    }

    /** The code of the comparison that comes next, or 0. */
    method ComparisonHere() returns (op: nat, ghost o: Option<Op>)
      requires pos <= |args|
      ensures o == OpAt(2, Left())
      ensures op == if o.Some? then OpCode(Symbol(o.value)) else 0
    {
      hide OpAt;
      Level2(Left());
      o := OpAt(2, Left());
      op := NextArg([60]);
      if op == 0 {
        op := NextArg([60, 61]);
        if op == 0 {
          op := NextArg([61]);
          if op == 0 {
            op := NextArg([61, 61]);
            if op == 0 {
              op := NextArg([33, 61]);
              if op == 0 {
                op := NextArg([62, 61]);
                if op == 0 {
                  op := NextArg([62]);
                }
              }
            }
          }
        }
      }
    }

    /** The code of the addition or subtraction that comes next, or 0. */
    method SumHere() returns (op: nat, ghost o: Option<Op>)
      requires pos <= |args|
      ensures o == OpAt(3, Left())
      ensures op == if o.Some? then OpCode(Symbol(o.value)) else 0
    {
      hide OpAt;
      Level3(Left());
      o := OpAt(3, Left());
      op := NextArg([43]);
      if op == 0 {
        op := NextArg([45]);
      }
    }

    /** The code of the multiplication or division that comes next, or 0. */
    method ProductHere() returns (op: nat, ghost o: Option<Op>)
      requires pos <= |args|
      ensures o == OpAt(4, Left())
      ensures op == if o.Some? then OpCode(Symbol(o.value)) else 0
    {
      hide OpAt;
      Level4(Left());
      o := OpAt(4, Left());
      op := NextArg([42]);
      if op == 0 {
        op := NextArg([47]);
        if op == 0 {
          op := NextArg([37]);
        }
      }
    }

    /** `eval5`: the matching operator. */
    method Eval5() returns (r: Outcome)
      requires pos <= |args|
      modifies this`pos
      ensures Read(5, old(Left()), r)
      decreases |args| - pos, 3
    {
      hide Expressions.Read, ReadMore, Compared, Calculated, Matched, OpAt, Symbol, OpCode, IsNull, Going, Read;
      ghost var s := Left();
      r := Eval6();
      Starts(5, s, r);
      if !r.Ok? {
        return;
      }
      while true
        invariant pos <= |args| && |Left()| < |s| && Going(5, s, r)
        decreases |args| - pos
      {
        GoingOn(5, s, r);
        ghost var ts := Left();
        Level5(ts);
        var op := NextArg([58]);
        if op == 0 {
          Stops(5, s, r);
          return;
        }
        OneLess();
        pos := pos + 1;
        var l := r.v;
        var right := Eval6();
        if !right.Ok? {
          Onward(5, s, l, ts, Colon, right, right);
          return right;
        }
        r := DoColon(l, right.v);
        Onward(5, s, l, ts, Colon, right, r);
        if !r.Ok? {
          return;
        }
      }
    }

    /** `eval4`: multiplication and division. */
    method Eval4() returns (r: Outcome)
      requires pos <= |args|
      modifies this`pos
      ensures Read(4, old(Left()), r)
      decreases |args| - pos, 4
    {
      hide Expressions.Read, ReadMore, Compared, Calculated, Matched, OpAt, Symbol, OpCode, IsNull, Going, Read;
      ghost var s := Left();
      r := Eval5();
      Starts(4, s, r);
      if !r.Ok? {
        return;
      }
      while true
        invariant pos <= |args| && |Left()| < |s| && Going(4, s, r)
        decreases |args| - pos
      {
        GoingOn(4, s, r);
        ghost var ts := Left();
        var op, o := ProductHere();
        if op == 0 {
          Stops(4, s, r);
          return;
        }
        OneLess();
        pos := pos + 1;
        var l := r.v;
        var right := Eval5();
        if !right.Ok? {
          Onward(4, s, l, ts, o.value, right, right);
          return right;
        }
        r := ArithmeticCommon(l, right.v, op, o.value);
        Onward(4, s, l, ts, o.value, right, r);
        if !r.Ok? {
          return;
        }
      }
    }

    /** `eval3`: addition and subtraction. */
    method Eval3() returns (r: Outcome)
      requires pos <= |args|
      modifies this`pos
      ensures Read(3, old(Left()), r)
      decreases |args| - pos, 5
    {
      hide Expressions.Read, ReadMore, Compared, Calculated, Matched, OpAt, Symbol, OpCode, IsNull, Going, Read;
      ghost var s := Left();
      r := Eval4();
      Starts(3, s, r);
      if !r.Ok? {
        return;
      }
      while true
        invariant pos <= |args| && |Left()| < |s| && Going(3, s, r)
        decreases |args| - pos
      {
        GoingOn(3, s, r);
        ghost var ts := Left();
        var op, o := SumHere();
        if op == 0 {
          Stops(3, s, r);
          return;
        }
        OneLess();
        pos := pos + 1;
        var l := r.v;
        var right := Eval4();
        if !right.Ok? {
          Onward(3, s, l, ts, o.value, right, right);
          return right;
        }
        r := ArithmeticCommon(l, right.v, op, o.value);
        Onward(3, s, l, ts, o.value, right, r);
        if !r.Ok? {
          return;
        }
      }
    }

    /** `eval2`: comparisons. */
    method Eval2() returns (r: Outcome)
      requires pos <= |args|
      modifies this`pos
      ensures Read(2, old(Left()), r)
      decreases |args| - pos, 6
    {
      hide Expressions.Read, ReadMore, Compared, Calculated, Matched, OpAt, Symbol, OpCode, IsNull, Going, Read;
      ghost var s := Left();
      r := Eval3();
      Starts(2, s, r);
      if !r.Ok? {
        return;
      }
      while true
        invariant pos <= |args| && |Left()| < |s| && Going(2, s, r)
        decreases |args| - pos
      {
        GoingOn(2, s, r);
        ghost var ts := Left();
        var op, o := ComparisonHere();
        if op == 0 {
          Stops(2, s, r);
          return;
        }
        OneLess();
        pos := pos + 1;
        var l := r.v;
        var right := Eval3();
        if !right.Ok? {
          Onward(2, s, l, ts, o.value, right, right);
          return right;
        }
        var v := CompareValues(l, right.v, op, o.value);
        r := Ok(v);
        Onward(2, s, l, ts, o.value, right, r);
        if !r.Ok? {
          return;
        }
      }
    }

    /** `eval1`: and. */
    method Eval1() returns (r: Outcome)
      requires pos <= |args|
      modifies this`pos
      ensures Read(1, old(Left()), r)
      decreases |args| - pos, 7
    {
      hide Expressions.Read, ReadMore, Compared, Calculated, Matched, OpAt, Symbol, OpCode, IsNull, Going, Read;
      ghost var s := Left();
      r := Eval2();
      Starts(1, s, r);
      if !r.Ok? {
        return;
      }
      while true
        invariant pos <= |args| && |Left()| < |s| && Going(1, s, r)
        decreases |args| - pos
      {
        GoingOn(1, s, r);
        ghost var ts := Left();
        Level1(ts);
        var op := NextArg([38]);
        if op == 0 {
          Stops(1, s, r);
          return;
        }
        OneLess();
        pos := pos + 1;
        var l := r.v;
        var right := Eval2();
        if !right.Ok? {
          Onward(1, s, l, ts, And, right, right);
          return right;
        }
        r := Ok(if IsNull(l) || IsNull(right.v) then Integer(0) else l);
        Onward(1, s, l, ts, And, right, r);
        if !r.Ok? {
          return;
        }
      }
    }

    /** `eval`: or, and whole expressions. */
    method Eval() returns (r: Outcome)
      requires pos <= |args|
      modifies this`pos
      ensures Read(0, old(Left()), r)
      decreases |args| - pos, 8
    {
      hide Expressions.Read, ReadMore, Compared, Calculated, Matched, OpAt, Symbol, OpCode, IsNull, Going, Read;
      ghost var s := Left();
      r := Eval1();
      Starts(0, s, r);
      if !r.Ok? {
        return;
      }
      while true
        invariant pos <= |args| && |Left()| < |s| && Going(0, s, r)
        decreases |args| - pos
      {
        GoingOn(0, s, r);
        ghost var ts := Left();
        Level0(ts);
        var op := NextArg([124]);
        if op == 0 {
          Stops(0, s, r);
          return;
        }
        OneLess();
        pos := pos + 1;
        var l := r.v;
        var right := Eval1();
        if !right.Ok? {
          Onward(0, s, l, ts, Or, right, right);
          return right;
        }
        r := Ok(if IsNull(l) then right.v else l);
        Onward(0, s, l, ts, Or, right, r);
        if !r.Ok? {
          return;
        }
      }
    }

    /** `length` */
    method LengthValue(r: Value) returns (v: Value)
      ensures Ok(v) == LengthOf(Ok(r))
    {
      var t := ToString(r);
      v := Integer(|t.s|);
    }

    /** `index` */
    method IndexValue(l: Value, r: Value) returns (v: Value)
      ensures Ok(v) == IndexOf(Ok(l), Ok(r))
    {
      var s := ToString(l);
      var t := ToString(r);
      v := Integer(CSpan(s.s, Characters(t.s)) + 1);
      if v.i == |s.s| + 1 {
        v := Integer(0);
      }
    }

    /** `substr` */
    method SubstrValue(l: Value, from: Value, len: Value) returns (v: Value)
      ensures Ok(v) == SubstrOf(Ok(l), Ok(from), Ok(len))
    {
      hide NumberOf;
      var s := ToString(l);
      var x, i1 := ToArith(from);
      if !x {
        return Text([]);
      }
      var y, i2 := ToArith(len);
      if !y || i1.i > |s.s| || i1.i <= 0 || i2.i <= 0 {
        return Text([]);
      }
      var start := i1.i - 1;
      var n := if i2.i < |s.s| - start then i2.i else |s.s| - start;
      var part: Arg := s.s[start..start + n];
      v := Text(part);
    }

    /** The keyword that comes next, counted from 1, or 0. */
    method KeywordHere() returns (key: nat)
      requires pos <= |args|
      ensures key == 0 <==> Left() == [] || !IsKeyword(Left()[0])
      ensures key == 1 <==> Left() != [] && Left()[0] == QUOTE
      ensures key == 2 <==> Left() != [] && Left()[0] == LENGTH
      ensures key == 3 <==> Left() != [] && Left()[0] == MATCH
      ensures key == 4 <==> Left() != [] && Left()[0] == INDEX
    {
      key := 0;
      if pos < |args| {
        var s := args[pos];
        key := if s == QUOTE then 1 else if s == LENGTH then 2 else if s == MATCH then 3 else if s == INDEX then 4
               else if s == SUBSTR then 5 else 0;
      }
    }

    /** `eval6`: keywords. */
    method Eval6() returns (r: Outcome)
      requires pos <= |args|
      modifies this`pos
      ensures Read(6, old(Left()), r)
      decreases |args| - pos, 2
    {
      hide Expressions.Read, Read, IsKeyword, LengthOf, IndexOf, SubstrOf, Matched, ReadOperand;
      ghost var ts := Left();
      OperandStep(m, ts);
      var key := KeywordHere();
      if key == 0 {
        r := Eval7();
        PlainRead(ts, r);
        return;
      }
      OneLess();
      pos := pos + 1;
      if key == 1 {
        if pos == |args| {
          IsRead(6, ts, SyntaxError, []);
          return SyntaxError;
        }
        r := Ok(Text(args[pos]));
        OneLess();
        pos := pos + 1;
        IsRead(6, ts, r, Left());
        return;
      }
      ghost var t1 := Left();
      var l := Eval6();
      WasRead6(t1, l);
      if !l.Ok? {
        IsRead(6, ts, l, []);
        return l;
      }
      if key == 2 {
        var v := LengthValue(l.v);
        r := Ok(v);
        IsRead(6, ts, r, Left());
        return;
      }
      ghost var t2 := Left();
      var x := Eval6();
      WasRead6(t2, x);
      if !x.Ok? {
        IsRead(6, ts, x, []);
        return x;
      }
      if key == 3 {
        r := DoColon(l.v, x.v);
        IsRead(6, ts, r, if r.Ok? then Left() else []);
        return;
      }
      if key == 4 {
        var v := IndexValue(l.v, x.v);
        r := Ok(v);
        IsRead(6, ts, r, Left());
        return;
      }
      ghost var t3 := Left();
      var y := Eval6();
      WasRead6(t3, y);
      if !y.Ok? {
        IsRead(6, ts, y, []);
        return y;
      }
      var v := SubstrValue(l.v, x.v, y.v);
      r := Ok(v);
      IsRead(6, ts, r, Left());
    }

    /** What has been read on level 6, in terms of `ReadKeyword`. */
    lemma WasRead6(s: seq<Arg>, r: Outcome)
      requires Read(6, s, r)
      ensures pos <= |args| && Expressions.Read(m, 6, s) == Reading(r, if r.Ok? then Left() else [])
      ensures r.Ok? ==> |Left()| < |s|
    {
    }

    lemma IsRead(k: nat, s: seq<Arg>, r: Outcome, rest: seq<Arg>)
      requires k <= 7 && pos <= |args| && Expressions.Read(m, k, s) == Reading(r, rest) && (r.Ok? ==> rest == Left())
      ensures Read(k, s, r)
    {
      hide Expressions.Read;
    }

    lemma PlainRead(s: seq<Arg>, r: Outcome)
      requires Read(7, s, r) && (s == [] || !IsKeyword(s[0]))
      ensures Read(6, s, r)
    {
      hide Expressions.Read, ReadOperand;
      OperandStep(m, s);
    }

    /** `expr_main`: evaluates the arguments as one expression. The result is ok
        exactly if the arguments are a tree, and then it is what the tree means;
        the exit status says whether it is null. */
    method Expr() returns (r: Outcome, status: int)
      requires pos == 0
      modifies this`pos
      ensures r == Evaluated(m, args)
      ensures forall v :: r == Ok(v) <==> TreeFor(m, args, v)
      ensures status == if r.Ok? then (if IsNull(r.v) then 1 else 0) else 2
    {
      hide Expressions.Read, TreeFor, IsNull;
      assert args[0..] == args;
      status := 2;
      if pos == |args| {
        NoArguments(m);
        r := SyntaxError;
      } else {
        r := Eval();
        if r.Ok? && pos != |args| {
          r := SyntaxError;
        } else if r.Ok? {
          status := if IsNull(r.v) then 1 else 0;
        }
      }
      ValuesOfTrees(m, args);
    }

    lemma ValuesOfTrees(m: Matcher, args: seq<Arg>)
      ensures forall v :: Evaluated(m, args) == Ok(v) <==> TreeFor(m, args, v)
    {
      hide Evaluated, TreeFor;
      forall v
        ensures Evaluated(m, args) == Ok(v) <==> TreeFor(m, args, v)
      {
        ValueOfTree(m, args, v);
      }
    }

    lemma NoArguments(m: Matcher)
      ensures Evaluated(m, []) == SyntaxError
    {
      hide ReadMore, Expressions.Read;
      OperandStep(m, []);
      StepDown(m, 5, []);
      StepDown(m, 4, []);
      StepDown(m, 3, []);
      StepDown(m, 2, []);
      StepDown(m, 1, []);
      StepDown(m, 0, []);
      assert ReadKeyword(m, []) == Fail(SyntaxError);
      assert Expressions.Read(m, 6, []).out == SyntaxError;
      assert Expressions.Read(m, 4, []).out == SyntaxError;
    }
  }
}
