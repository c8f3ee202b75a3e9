/** How dpkg.c orders version numbers, against section 5.6.12 of the Debian Policy
    Manual: epoch, upstream version and revision, the last two as alternating
    strings of non-digits and numbers. */
module Versions {
  import opened Bits
  import opened PrefixCode
  import opened CStrings

  predicate IsDigit(c: byte)
  {
    48 <= c <= 57
  }

  predicate IsAlpha(c: byte)
  {
    65 <= c <= 90 || 97 <= c <= 122
  }

  /** `order`: tilde before the end of a string, the end before letters, letters
      before everything else. */
  function Order(c: byte): (r: int)
    ensures r == 0 <==> c == 0 || IsDigit(c)
    ensures r < 0 <==> c == 126
  {
    if c == 126 then -1
    else if c == 0 then 0
    else if IsDigit(c) then 0
    else if IsAlpha(c) then c
    else (c as int) + 256
  }

  /** Characters that are ordered, and not just ends of strings, are told apart. */
  lemma OrderDistinct(a: byte, b: byte)
    requires Order(a) == Order(b) != 0
    ensures a == b
  {
  }

  function Sign(x: int): int
  {
    if x < 0 then -1 else if x == 0 then 0 else 1
  }

  // ----- what a version part means -----

  /** A string of non-digits and the number behind it. */
  datatype Part = Part(text: seq<byte>, number: nat)

  function Text(s: seq<byte>): (t: seq<byte>)
    ensures |t| <= |s| && t == s[..|t|]
    ensures |t| < |s| ==> IsDigit(s[|t|])
    ensures forall c :: c in t ==> !IsDigit(c)
  {
    if s == [] || IsDigit(s[0]) then [] else [s[0]] + Text(s[1..])
  }

  function Digits(s: seq<byte>): (d: seq<byte>)
    ensures |d| <= |s| && d == s[..|d|]
    ensures |d| < |s| ==> !IsDigit(s[|d|])
    ensures forall i :: 0 <= i < |d| ==> IsDigit(d[i])
  {
    if s == [] || !IsDigit(s[0]) then [] else [s[0]] + Digits(s[1..])
  }

  function DigitValue(c: byte): (v: nat)
    requires IsDigit(c)
    ensures v < 10
  {
    c - 48
  }

  /** The number a string of digits stands for, however long it is. */
  function Value(d: seq<byte>): nat
    requires forall i :: 0 <= i < |d| ==> IsDigit(d[i])
  {
    if d == [] then 0
    else
      assert IsDigit(d[|d| - 1]);
      10 * Value(d[..|d| - 1]) + DigitValue(d[|d| - 1])
  }

  function FirstPart(s: seq<byte>): Part
  {
    Part(Text(s), Value(Digits(s[|Text(s)|..])))
  }

  function BehindPart(s: seq<byte>): (r: seq<byte>)
    ensures s != [] ==> |r| < |s|
  {
    s[|Text(s)| + |Digits(s[|Text(s)|..])|..]
  }

  /** A version part as an alternating list. */
  function Parts(s: seq<byte>): seq<Part>
    decreases |s|
  {
    if s == [] then [] else [FirstPart(s)] + Parts(BehindPart(s))
  }

  /** The places of all characters and numbers, one behind the other. A 0 closes
      each string of non-digits, so that the end of a string has a place too. */
  function Key(parts: seq<Part>): seq<int>
  {
    if parts == [] then [] else Weights(parts[0].text) + [0, parts[0].number] + Key(parts[1..])
  }

  function Weights(t: seq<byte>): (w: seq<int>)
    ensures |w| == |t| && forall i :: 0 <= i < |t| ==> w[i] == Order(t[i])
  {
    seq(|t|, i requires 0 <= i < |t| => Order(t[i]))
  }

  function First(a: seq<int>): int
  {
    if a == [] then 0 else a[0]
  }

  /** Lexicographic order, where what is missing counts as 0: -1, 0 or 1. */
  function Lex(a: seq<int>, b: seq<int>): (r: int)
    ensures -1 <= r <= 1
    decreases |a| + |b|
  {
    if a == [] && b == [] then 0
    else
      if First(a) < First(b) then -1 else if First(a) > First(b) then 1
      else Lex(if a == [] then [] else a[1..], if b == [] then [] else b[1..])
  }

  function PartOrder(s: seq<byte>, t: seq<byte>): int
  {
    Lex(Key(Parts(s)), Key(Parts(t)))
  }

  lemma {:induction false} LexSame(a: seq<int>)
    ensures Lex(a, a) == 0
  {
    if a != [] {
      LexSame(a[1..]);
    }
  }

  lemma {:induction false} LexTurned(a: seq<int>, b: seq<int>)
    ensures Lex(b, a) == -Lex(a, b)
    decreases |a| + |b|
  {
    if a != [] || b != [] {
      LexTurned(if a == [] then [] else a[1..], if b == [] then [] else b[1..]);
    }
  }

  lemma {:induction false} LexTransitive(a: seq<int>, b: seq<int>, c: seq<int>)
    requires Lex(a, b) <= 0 && Lex(b, c) <= 0
    ensures Lex(a, c) <= 0
    ensures Lex(a, b) < 0 || Lex(b, c) < 0 ==> Lex(a, c) < 0
    decreases |a| + |b| + |c|
  {
    if (a != [] || b != [] || c != []) && First(a) == First(b) == First(c) {
      LexTransitive(if a == [] then [] else a[1..], if b == [] then [] else b[1..], if c == [] then [] else c[1..]);
    }
  }

  /** Zeros at the end make no difference. */
  lemma LexPadded(a: seq<int>, b: seq<int>)
    ensures Lex(if a == [] then [0, 0] else a, b) == Lex(a, b)
    ensures Lex(a, if b == [] then [0, 0] else b) == Lex(a, b)
  {
    assert [0, 0][1..] == [0] && [0][1..] == [];
    if a == [] && b == [] {
      assert Lex([0], []) == Lex([], []) == Lex([], [0]);
    } else if a == [] {
      TwoZeros(b);
    } else if b == [] {
      TwoZeros(a);
      LexTurned(a, []);
      LexTurned(a, [0, 0]);
    }
  }

  lemma TwoZeros(b: seq<int>)
    ensures Lex([0, 0], b) == Lex([], b)
  {
    assert [0, 0][1..] == [0] && [0][1..] == [];
    if b != [] {
      assert Lex([0], b[1..]) == Lex([], b[1..]);
    }
  }

  // ----- the key, read from the front -----

  /** The rest of the key from within a string of non-digits. */
  function TextKey(s: seq<byte>): (k: seq<int>)
    ensures k != []
    decreases |s|, 1
  {
    if s != [] && !IsDigit(s[0]) then [Order(s[0])] + TextKey(s[1..]) else [0] + NumberKey(s)
  }

  /** The rest of the key from a number on. */
  function NumberKey(s: seq<byte>): (k: seq<int>)
    requires s == [] || IsDigit(s[0])
    ensures k != []
    decreases |s|, 0
  {
    [Value(Digits(s))] + (if s == [] then [] else RestKey(s[|Digits(s)|..]))
  }

  lemma NumberKeyIs(s: seq<byte>)
    requires s == [] || IsDigit(s[0])
    ensures NumberKey(s) == [Value(Digits(s))] + RestKey(s[|Digits(s)|..])
  {
  }

  function RestKey(s: seq<byte>): seq<int>
    decreases |s|, 2
  {
    if s == [] then [] else TextKey(s)
  }

  lemma {:induction false} TextKeyIs(s: seq<byte>)
    ensures TextKey(s) == Weights(Text(s)) + [0] + NumberKey(s[|Text(s)|..])
    decreases |s|
  {
    hide NumberKey, Order;
    if s != [] && !IsDigit(s[0]) {
      TextKeyIs(s[1..]);
      assert s[1..][|Text(s[1..])|..] == s[|Text(s)|..];
      WeightsCons(s[0], Text(s[1..]));
    } else {
      assert Weights([]) == [];
    }
  }

  lemma WeightsCons(c: byte, t: seq<byte>)
    ensures Weights([c] + t) == [Order(c)] + Weights(t)
  {
    hide Order;
  }

  lemma KeyCons(p: Part, ps: seq<Part>)
    ensures Key([p] + ps) == Weights(p.text) + [0, p.number] + Key(ps)
  {
    hide Weights;
    assert ([p] + ps)[0] == p && ([p] + ps)[1..] == ps;
  }

  lemma PartsStep(s: seq<byte>)
    requires s != []
    ensures Key(Parts(s)) == Weights(FirstPart(s).text) + [0, FirstPart(s).number] + Key(Parts(BehindPart(s)))
  {
    hide FirstPart, BehindPart, Weights, Key;
    KeyCons(FirstPart(s), Parts(BehindPart(s)));
  }

  lemma {:induction false} KeyIs(s: seq<byte>)
    ensures Key(Parts(s)) == RestKey(s)
    decreases |s|
  {
    hide TextKey, NumberKey, Weights, Text, Digits, Value, Key, Parts;
    if s != [] {
      var t := Text(s);
      var d := Digits(s[|t|..]);
      KeyIs(BehindPart(s));
      TextKeyIs(s);
      NumberKeyIs(s[|t|..]);
      PartsStep(s);
      assert s[|t|..][|d|..] == s[|t| + |d|..];
      assert [0] + ([Value(d)] + RestKey(s[|t| + |d|..])) == [0, Value(d)] + RestKey(s[|t| + |d|..]);
      assert Weights(t) + [0] + ([Value(d)] + RestKey(s[|t| + |d|..])) == Weights(t) + [0, Value(d)] + RestKey(s[|t| + |d|..]);
    } else {
      NoKey();
    }
  }

  lemma NoKey()
    ensures Key(Parts([])) == []
  {
  }

  /** The order of two parts is that of what is left of their keys. */
  ghost predicate Undecided(c: int, a: seq<int>, b: seq<int>)
  {
    c == Lex(a, b)
  }

  lemma StartUndecided(s: seq<byte>, t: seq<byte>)
    ensures Undecided(PartOrder(s, t), TextKey(s), TextKey(t))
  {
    KeyIs(s);
    KeyIs(t);
    NothingKey();
    LexPadded(RestKey(s), RestKey(t));
    LexPadded(RestKey(s), TextKey(t));
    hide TextKey, Lex, Parts, Key;
  }

  lemma NothingKey()
    ensures TextKey([]) == [0, 0]
  {
    var s: seq<byte> := [];
    assert s[|Digits(s)|..] == [];
  }

  lemma RestUndecided(c: int, s: seq<byte>, t: seq<byte>)
    requires Undecided(c, RestKey(s), RestKey(t))
    ensures Undecided(c, TextKey(s), TextKey(t))
  {
    NothingKey();
    LexPadded(RestKey(s), RestKey(t));
    LexPadded(RestKey(s), TextKey(t));
    hide TextKey, Lex;
  }

  // ----- the loops -----

  /** The loop over non-digits: a difference, or two places where digits or ends are. */
  method CompareTexts(val: cstring, ref: cstring, i0: nat, j0: nat, ghost c: int) returns (r: int, i: nat, j: nat)
    requires i0 <= |val| && j0 <= |ref| && Undecided(c, TextKey(val[i0..]), TextKey(ref[j0..]))
    ensures i0 <= i <= |val| && j0 <= j <= |ref|
    ensures r != 0 ==> Sign(r) == c
    ensures r == 0 ==> !IsTextAt(val, i) && !IsTextAt(ref, j)
    ensures r == 0 ==> Undecided(c, TextKey(val[i..]), TextKey(ref[j..]))
    ensures r == 0 && IsTextAt(val, i0) ==> i > i0
    ensures r == 0 && IsTextAt(ref, j0) ==> j > j0
  {
    hide TextKey, Undecided;
    i, j := i0, j0;
    while IsTextAt(val, i) || IsTextAt(ref, j)
      invariant i0 <= i <= |val| && j0 <= j <= |ref|
      invariant Undecided(c, TextKey(val[i..]), TextKey(ref[j..]))
      invariant IsTextAt(val, i0) ==> i > i0 || (i == i0 && j == j0)
      invariant IsTextAt(ref, j0) ==> j > j0 || (i == i0 && j == j0)
      decreases |val| - i
    {
      var vc := Order(CharAt(val, i));
      var rc := Order(CharAt(ref, j));
      FirstPlaces(val, i, ref, j, c);
      if vc != rc {
        return vc - rc, i, j;
      }
      i := i + 1;
      j := j + 1;
    }
    r := 0;
  }

  /** A character that is neither a digit nor the end. */
  predicate IsTextAt(s: cstring, i: nat)
    requires i <= |s|
  {
    CharAt(s, i) != 0 && !IsDigit(CharAt(s, i))
  }

  /** Two characters decide, or are the same and can be passed; none of them is
      then the terminating NUL. */
  lemma FirstPlaces(val: cstring, i: nat, ref: cstring, j: nat, c: int)
    requires i <= |val| && j <= |ref| && (IsTextAt(val, i) || IsTextAt(ref, j))
    requires Undecided(c, TextKey(val[i..]), TextKey(ref[j..]))
    ensures var vc, rc := Order(CharAt(val, i)), Order(CharAt(ref, j));
            if vc != rc then Sign(vc - rc) == c
            else i < |val| && j < |ref| && Undecided(c, TextKey(val[i + 1..]), TextKey(ref[j + 1..]))
  {
    FirstPlace(val, i);
    FirstPlace(ref, j);
    hide TextKey;
  }

  lemma FirstPlace(s: cstring, i: nat)
    requires i <= |s|
    ensures TextKey(s[i..])[0] == Order(CharAt(s, i))
    ensures IsTextAt(s, i) ==> i < |s| && TextKey(s[i..])[1..] == TextKey(s[i + 1..])
    ensures !IsTextAt(s, i) ==> (s[i..] == [] || IsDigit(s[i..][0])) && TextKey(s[i..]) == [0] + NumberKey(s[i..])
  {
    if i < |s| {
      assert s[i] != 0;
      assert s[i..][0] == s[i] && s[i..][1..] == s[i + 1..];
    }
    hide NumberKey;
  }


  function Number(s: seq<byte>): nat
  {
    Value(Digits(s))
  }

  function AfterNumber(s: seq<byte>): (r: seq<byte>)
    ensures |r| <= |s|
  {
    s[|Digits(s)|..]
  }

  /** The order is that of two numbers and what is behind them. */
  ghost predicate AtNumbers(c: int, s: seq<byte>, t: seq<byte>)
  {
    Undecided(c, [Number(s)] + RestKey(AfterNumber(s)), [Number(t)] + RestKey(AfterNumber(t)))
  }

  lemma TextsDone(c: int, val: cstring, i: nat, ref: cstring, j: nat)
    requires i <= |val| && j <= |ref| && !IsTextAt(val, i) && !IsTextAt(ref, j)
    requires Undecided(c, TextKey(val[i..]), TextKey(ref[j..]))
    ensures AtNumbers(c, val[i..], ref[j..])
  {
    FirstPlace(val, i);
    FirstPlace(ref, j);
    var a, b := TextKey(val[i..]), TextKey(ref[j..]);
    assert a[1..] == NumberKey(val[i..]) && b[1..] == NumberKey(ref[j..]);
    NumberKeyIs(val[i..]);
    NumberKeyIs(ref[j..]);
    hide TextKey, NumberKey;
  }

  lemma NumbersDecide(c: int, s: seq<byte>, t: seq<byte>)
    requires AtNumbers(c, s, t)
    ensures Number(s) != Number(t) ==> c == Sign(Number(s) - Number(t))
    ensures Number(s) == Number(t) ==> Undecided(c, RestKey(AfterNumber(s)), RestKey(AfterNumber(t)))
  {
    var a, b := [Number(s)] + RestKey(AfterNumber(s)), [Number(t)] + RestKey(AfterNumber(t));
    assert a[1..] == RestKey(AfterNumber(s)) && b[1..] == RestKey(AfterNumber(t));
    hide RestKey, Number, AfterNumber;
  }

  /** A leading zero does not count. */
  lemma ZeroSkipped(s: seq<byte>)
    requires s != [] && s[0] == 48
    ensures Number(s[1..]) == Number(s) && AfterNumber(s[1..]) == AfterNumber(s)
  {
    var d := Digits(s);
    assert d == [48] + Digits(s[1..]);
    ValueOfZero(Digits(s[1..]));
    assert s[|d|..] == s[1..][|d| - 1..];
  }

  lemma {:induction false} ValueOfZero(d: seq<byte>)
    requires forall i :: 0 <= i < |d| ==> IsDigit(d[i])
    ensures Value([48] + d) == Value(d)
  {
    if d == [] {
      assert [48] + d == [48] && [48][..0] == [];
      assert Value([48]) == 10 * Value([]) + DigitValue(48);
    } else {
      ValueOfZero(d[..|d| - 1]);
      assert ([48] + d)[..|d|] == [48] + d[..|d| - 1];
    }
  }

  method SkipZeros(s: cstring, i0: nat) returns (i: nat)
    requires i0 <= |s|
    ensures i0 <= i <= |s| && CharAt(s, i) != 48
    ensures Number(s[i..]) == Number(s[i0..]) && AfterNumber(s[i..]) == AfterNumber(s[i0..])
    ensures CharAt(s, i0) == 48 ==> i > i0
  {
    hide Number, AfterNumber;
    i := i0;
    while CharAt(s, i) == 48
      invariant i0 <= i <= |s|
      invariant Number(s[i..]) == Number(s[i0..]) && AfterNumber(s[i..]) == AfterNumber(s[i0..])
      decreases |s| - i
    {
      ZeroSkipped(s[i..]);
      assert s[i..][1..] == s[i + 1..];
      i := i + 1;
    }
  }

  function Power10(n: nat): (r: nat)
    ensures r > 0
  {
    if n == 0 then 1 else 10 * Power10(n - 1)
  }

  /** A number lies between the powers of ten that its digits say. */
  lemma {:induction false} ValueBounds(d: seq<byte>)
    requires forall i :: 0 <= i < |d| ==> IsDigit(d[i])
    ensures Value(d) < Power10(|d|)
    ensures d != [] && d[0] != 48 ==> Power10(|d| - 1) <= Value(d)
  {
    if d != [] {
      ValueBounds(d[..|d| - 1]);
      if |d| > 1 {
        assert d[..|d| - 1][0] == d[0];
      } else {
        assert d[..0] == [] && IsDigit(d[0]);
      }
    }
  }

  lemma {:induction false} Power10Monotone(m: nat, n: nat)
    requires m <= n
    ensures Power10(m) <= Power10(n)
  {
    if m < n {
      Power10Monotone(m, n - 1);
    }
  }

  /** Without leading zeros the longer number is the larger. */
  lemma LongerIsLarger(d: seq<byte>, e: seq<byte>)
    requires forall i :: 0 <= i < |d| ==> IsDigit(d[i])
    requires forall i :: 0 <= i < |e| ==> IsDigit(e[i])
    requires |d| > |e| && d[0] != 48
    ensures Value(d) > Value(e)
  {
    ValueBounds(d);
    ValueBounds(e);
    Power10Monotone(|e|, |d| - 1);
  }

  /** One digit more on both sides: the first difference still decides. */
  lemma FirstDifference(d: seq<byte>, e: seq<byte>, k: nat, diff: int)
    requires forall i :: 0 <= i < |d| ==> IsDigit(d[i])
    requires forall i :: 0 <= i < |e| ==> IsDigit(e[i])
    requires k < |d| && k < |e| && Sign(diff) == Sign(Value(d[..k]) - Value(e[..k]))
    ensures var diff' := if diff == 0 then d[k] as int - e[k] as int else diff;
            Sign(diff') == Sign(Value(d[..k + 1]) - Value(e[..k + 1]))
  {
    assert d[..k + 1][..k] == d[..k] && e[..k + 1][..k] == e[..k];
    assert IsDigit(d[k]) && IsDigit(e[k]);
    var x, y := Value(d[..k]), Value(e[..k]);
    assert Value(d[..k + 1]) == 10 * x + DigitValue(d[k]) && Value(e[..k + 1]) == 10 * y + DigitValue(e[k]);
    hide Value;
  }

  lemma DigitHere(s: cstring, i0: nat, i: nat)
    requires i0 <= i <= |s| && i - i0 <= |Digits(s[i0..])|
    ensures IsDigit(CharAt(s, i)) <==> i - i0 < |Digits(s[i0..])|
    ensures i - i0 < |Digits(s[i0..])| ==> s[i] == Digits(s[i0..])[i - i0]
    ensures i - i0 == |Digits(s[i0..])| ==> AfterNumber(s[i0..]) == s[i..]
  {
    var d := Digits(s[i0..]);
    if i - i0 < |d| {
      assert IsDigit(d[i - i0]) && d[i - i0] == s[i0..][i - i0];
    } else if i < |s| {
      assert s[i0..][|d|] == s[i];
    }
  }

  /** Runs over as many digits as both numbers have; the first that differ decide. */
  method ScanDigits(val: cstring, ref: cstring, i0: nat, j0: nat) returns (firstDiff: int, i: nat, j: nat)
    requires i0 <= |val| && j0 <= |ref|
    ensures i0 <= i <= |val| && j0 <= j <= |ref|
    ensures i - i0 == j - j0 <= |Digits(val[i0..])| && j - j0 <= |Digits(ref[j0..])|
    ensures Sign(firstDiff) == Sign(Value(Digits(val[i0..])[..i - i0]) - Value(Digits(ref[j0..])[..j - j0]))
    ensures !IsDigit(CharAt(val, i)) || !IsDigit(CharAt(ref, j))
  {
    hide Value, Digits;
    ghost var d, e := Digits(val[i0..]), Digits(ref[j0..]);
    i, j := i0, j0;
    firstDiff := 0;
    assert d[..0] == e[..0];
    while IsDigit(CharAt(val, i)) && IsDigit(CharAt(ref, j))
      invariant i0 <= i <= |val| && j0 <= j <= |ref| && i - i0 == j - j0 <= |d| && j - j0 <= |e|
      invariant Sign(firstDiff) == Sign(Value(d[..i - i0]) - Value(e[..j - j0]))
      decreases |val| - i
    {
      DigitHere(val, i0, i);
      DigitHere(ref, j0, j);
      FirstDifference(d, e, i - i0, firstDiff);
      if firstDiff == 0 {
        firstDiff := CharAt(val, i) as int - CharAt(ref, j) as int;
      }
      i := i + 1;
      j := j + 1;
    }
  }

  /** The digits of two numbers without leading zeros. */
  method CompareNumbers(val: cstring, ref: cstring, i0: nat, j0: nat, ghost c: int) returns (r: int, i: nat, j: nat)
    requires i0 <= |val| && j0 <= |ref| && CharAt(val, i0) != 48 && CharAt(ref, j0) != 48
    requires AtNumbers(c, val[i0..], ref[j0..])
    ensures i0 <= i <= |val| && j0 <= j <= |ref|
    ensures r != 0 ==> Sign(r) == c
    ensures r == 0 ==> Undecided(c, RestKey(val[i..]), RestKey(ref[j..]))
    ensures r == 0 && IsDigit(CharAt(val, i0)) ==> i > i0
    ensures r == 0 && IsDigit(CharAt(ref, j0)) ==> j > j0
  {
    hide RestKey, Undecided, AtNumbers, Value, Digits, AfterNumber;
    ghost var d, e := Digits(val[i0..]), Digits(ref[j0..]);
    NumbersDecide(c, val[i0..], ref[j0..]);
    DigitHere(val, i0, i0);
    DigitHere(ref, j0, j0);
    var firstDiff;
    firstDiff, i, j := ScanDigits(val, ref, i0, j0);
    DigitHere(val, i0, i);
    DigitHere(ref, j0, j);
    if IsDigit(CharAt(val, i)) {
      LongerIsLarger(d, e);
      return 1, i, j;
    }
    if IsDigit(CharAt(ref, j)) {
      LongerIsLarger(e, d);
      return -1, i, j;
    }
    assert d[..i - i0] == d && e[..j - j0] == e;
    r := firstDiff;
  }

  /** `version_compare_part`: the order of the policy; a missing part is empty. */
  method VersionComparePart(val0: Option<cstring>, ref0: Option<cstring>) returns (r: int)
    ensures Sign(r) == PartOrder(if val0.None? then [] else val0.value, if ref0.None? then [] else ref0.value)
  {
    var val: cstring := if val0.None? then [] else val0.value;
    var ref: cstring := if ref0.None? then [] else ref0.value;
    ghost var c := PartOrder(val, ref);
    hide TextKey, RestKey, Undecided, PartOrder, Number, AfterNumber, AtNumbers;
    StartUndecided(val, ref);
    var i, j := 0, 0;
    assert val[0..] == val && ref[0..] == ref;
    while CharAt(val, i) != 0 || CharAt(ref, j) != 0
      invariant i <= |val| && j <= |ref| && Undecided(c, TextKey(val[i..]), TextKey(ref[j..]))
      decreases |val| - i + |ref| - j
    {
      ghost var i0, j0 := i, j;
      r, i, j := CompareTexts(val, ref, i, j, c);
      if r != 0 {
        return;
      }
      TextsDone(c, val, i, ref, j);
      i := SkipZeros(val, i);
      j := SkipZeros(ref, j);
      r, i, j := CompareNumbers(val, ref, i, j, c);
      if r != 0 {
        return;
      }
      RestUndecided(c, val[i..], ref[j..]);
    }
    BothEnd(c, val, i, ref, j);
    r := 0;
  }

  lemma BothEnd(c: int, val: cstring, i: nat, ref: cstring, j: nat)
    requires i <= |val| && j <= |ref| && CharAt(val, i) == 0 == CharAt(ref, j)
    requires Undecided(c, TextKey(val[i..]), TextKey(ref[j..]))
    ensures c == 0
  {
    assert i == |val| && j == |ref|;
    assert val[i..] == [] == ref[j..];
    LexSame(TextKey([]));
    hide TextKey, Lex;
  }

  // ----- whole versions -----

  /** `strchr` */
  function FirstOf(s: cstring, c: byte, i: nat): (r: Option<nat>)
    requires i <= |s|
    ensures r.Some? ==> i <= r.value < |s| && s[r.value] == c && forall k :: i <= k < r.value ==> s[k] != c
    ensures r.None? ==> forall k :: i <= k < |s| ==> s[k] != c
    decreases |s| - i
  {
    if i == |s| then None else if s[i] == c then Some(i) else FirstOf(s, c, i + 1)
  }

  /** `strrchr` */
  function LastOf(s: cstring, c: byte, n: nat): (r: Option<nat>)
    requires n <= |s|
    ensures r.Some? ==> r.value < n && s[r.value] == c && forall k :: r.value < k < n ==> s[k] != c
    ensures r.None? ==> forall k :: 0 <= k < n ==> s[k] != c
  {
    if n == 0 then None else if s[n - 1] == c then Some(n - 1) else LastOf(s, c, n - 1)
  }

  function SkipSpace(s: seq<byte>): seq<byte>
  {
    if s != [] && (s[0] == 32 || 9 <= s[0] <= 13) then SkipSpace(s[1..]) else s
  }

  /** `atoi`: white space, a sign, digits, and whatever follows. */
  function Atoi(s: seq<byte>): int
  {
    var t := SkipSpace(s);
    if t != [] && t[0] == 45 then -(Number(t[1..]) as int)
    else if t != [] && t[0] == 43 then Number(t[1..])
    else Number(t)
  }

  const COLON: byte := 58
  const HYPHEN: byte := 45

  /** Epoch, upstream version and revision. */
  datatype Version = Version(epoch: nat, upstream: cstring, revision: Option<cstring>)

  function SplitEpoch(s: cstring): (nat, cstring)
  {
    var colon := FirstOf(s, COLON, 0);
    if colon.None? then (0, s) else (Atoi(s) % U32, s[colon.value + 1..])
  }

  function SplitRevision(s: cstring): (cstring, Option<cstring>)
  {
    var hyphen := LastOf(s, HYPHEN, |s|);
    if hyphen.None? then (s, None) else (s[..hyphen.value], Some(s[hyphen.value + 1..]))
  }

  /** The number before the first colon, what comes before the last hyphen behind
      it, and what comes after that. */
  function SplitVersion(s: cstring): Version
  {
    var (epoch, rest) := SplitEpoch(s);
    var (upstream, revision) := SplitRevision(rest);
    Version(epoch, upstream, revision)
  }

  function Revision(v: Version): cstring
  {
    if v.revision.None? then [] else v.revision.value
  }

  /** By epoch, then upstream version, then revision. */
  function VersionOrder(v: Version, w: Version): int
  {
    if v.epoch != w.epoch then Sign(v.epoch - w.epoch)
    else
      var u := PartOrder(v.upstream, w.upstream);
      if u != 0 then u else PartOrder(Revision(v), Revision(w))
  }

  /** A total preorder: every version is as good as itself, either of two is at
      most the other, and the order carries over. */
  lemma OrderReflexive(v: Version)
    ensures VersionOrder(v, v) == 0
  {
    LexSame(Key(Parts(v.upstream)));
    LexSame(Key(Parts(Revision(v))));
    hide Lex, Parts, Key;
  }

  lemma OrderTotal(v: Version, w: Version)
    ensures VersionOrder(w, v) == -VersionOrder(v, w)
  {
    LexTurned(Key(Parts(v.upstream)), Key(Parts(w.upstream)));
    LexTurned(Key(Parts(Revision(v))), Key(Parts(Revision(w))));
    hide Lex, Parts, Key;
  }

  lemma OrderTransitive(v: Version, w: Version, x: Version)
    requires VersionOrder(v, w) <= 0 && VersionOrder(w, x) <= 0
    ensures VersionOrder(v, x) <= 0
    ensures VersionOrder(v, w) < 0 || VersionOrder(w, x) < 0 ==> VersionOrder(v, x) < 0
  {
    hide Lex, Parts, Key, Revision;
    if v.epoch == w.epoch == x.epoch {
      PartsTransitive(v.upstream, w.upstream, x.upstream);
      PartsTransitive(Revision(v), Revision(w), Revision(x));
    }
  }

  lemma PartsTransitive(s: seq<byte>, t: seq<byte>, u: seq<byte>)
    ensures PartOrder(s, t) <= 0 && PartOrder(t, u) <= 0 ==> PartOrder(s, u) <= 0
    ensures PartOrder(s, t) <= 0 && PartOrder(t, u) <= 0 && (PartOrder(s, t) < 0 || PartOrder(t, u) < 0) ==> PartOrder(s, u) < 0
    ensures PartOrder(s, t) == 0 == PartOrder(t, u) ==> PartOrder(s, u) == 0
  {
    hide Parts, Key, Lex;
    var a, b, c := Key(Parts(s)), Key(Parts(t)), Key(Parts(u));
    if PartOrder(s, t) <= 0 && PartOrder(t, u) <= 0 {
      LexTransitive(a, b, c);
    }
    LexTurned(a, b);
    LexTurned(b, c);
    LexTurned(a, c);
    if PartOrder(s, t) == 0 == PartOrder(t, u) {
      LexTransitive(c, b, a);
    }
  }

  /** Whether the epoch of a version, if it has one, can be told without overflow. */
  predicate EpochFits(s: cstring)
  {
    FirstOf(s, COLON, 0).Some? ==> -0x8000_0000 <= Atoi(s) < 0x8000_0000
  }

  /** The number before the first colon, and the rest. */
  method ChopEpoch(ver: cstring) returns (epoch: nat, rest: cstring)
    requires EpochFits(ver)
    ensures epoch == SplitEpoch(ver).0 && rest == SplitEpoch(ver).1
  {
    hide Atoi;
    rest := ver;
    epoch := 0;
    var colon := FirstOf(ver, COLON, 0);
    if colon.Some? {
      epoch := Atoi(ver) % U32;
      rest := ver[colon.value + 1..];
    }
  }

  /** What is before the last hyphen, and what is behind it. */
  method ChopRevision(ver: cstring) returns (upstream: cstring, deb: Option<cstring>)
    ensures upstream == SplitRevision(ver).0 && deb == SplitRevision(ver).1
  {
    upstream, deb := ver, None;
    var hyphen := LastOf(ver, HYPHEN, |ver|);
    if hyphen.Some? {
      upstream, deb := ver[..hyphen.value], Some(ver[hyphen.value + 1..]);
    }
  }

  /** `version_compare` */
  method VersionCompare(ver1: cstring, ver2: cstring) returns (result: int)
    requires EpochFits(ver1) && EpochFits(ver2)
    ensures Sign(result) == VersionOrder(SplitVersion(ver1), SplitVersion(ver2))
  {
    hide PartOrder, EpochFits, SplitEpoch, SplitRevision;
    var epoch1, chVer1 := ChopEpoch(ver1);
    var epoch2, chVer2 := ChopEpoch(ver2);
    if epoch1 < epoch2 {
      return -1;
    }
    if epoch1 > epoch2 {
      return 1;
    }
    var upstream1, deb1 := ChopRevision(chVer1);
    var upstream2, deb2 := ChopRevision(chVer2);
    result := VersionComparePart(Some(upstream1), Some(upstream2));
    if result == 0 {
      result := VersionComparePart(deb1, deb2);
    }
  }

  datatype Operator = VerNull | VerEqual | VerLess | VerLessEqual | VerMore | VerMoreEqual | VerAny

  /** What a relation to a version asks for. */
  predicate Holds(op: Operator, order: int)
  {
    match op
    case VerNull => false
    case VerEqual => order == 0
    case VerLess => order < 0
    case VerLessEqual => order <= 0
    case VerMore => order > 0
    case VerMoreEqual => order >= 0
    case VerAny => true
  }
}
