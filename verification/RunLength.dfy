/** The run-length form in which code lengths are transmitted: which symbols
    `scan_tree` counts and `send_tree` emits, and why a reader of section 3.2.7
    of RFC 1951 gets the lengths back. */
module RunLength {
  import opened Bits
  import opened PrefixCode
  import opened Inflate
  import opened Tokens

  /** A length itself, a repetition of the last length, or a run of zeros. */
  datatype LenSym = Len(v: nat) | Rep(n: nat) | Zeros(n: nat)

  predicate InRange(s: LenSym)
  {
    match s
    case Len(v) => v <= MAX_BITS
    case Rep(n) => 3 <= n <= 6
    case Zeros(n) => 3 <= n <= 138
  }

  /** The code length symbol. */
  function SymOf(s: LenSym): (r: nat)
    requires InRange(s)
    ensures r < 19
  {
    match s
    case Len(v) => v
    case Rep(_) => 16
    case Zeros(n) => if n <= 10 then 17 else 18
  }

  /** How many extra bits follow code length symbol c. */
  function ExtraCount(c: nat): nat
  {
    if c == 16 then 2 else if c == 17 then 3 else if c == 18 then 7 else 0
  }

  function ExtraValue(s: LenSym): (r: nat)
    requires InRange(s)
    ensures r < Pow2(ExtraCount(SymOf(s)))
  {
    SmallPowers();
    match s
    case Len(_) => 0
    case Rep(n) => n - 3
    case Zeros(n) => if n <= 10 then n - 3 else n - 11
  }

  // ----- what the symbols stand for -----

  function ExpandSym(acc: seq<nat>, s: LenSym): (r: seq<nat>)
    requires s.Rep? ==> acc != []
  {
    match s
    case Len(v) => acc + [v]
    case Rep(n) => acc + Repeat(acc[|acc| - 1], n)
    case Zeros(n) => acc + Repeat(0, n)
  }

  predicate Expandable(acc: seq<nat>, syms: seq<LenSym>)
    decreases |syms|
  {
    syms == []
    || ((syms[0].Rep? ==> acc != []) && Expandable(ExpandSym(acc, syms[0]), syms[1..]))
  }

  function ExpandSyms(acc: seq<nat>, syms: seq<LenSym>): (r: seq<nat>)
    requires Expandable(acc, syms)
    decreases |syms|
  {
    if syms == [] then acc else ExpandSyms(ExpandSym(acc, syms[0]), syms[1..])
  }

  lemma {:induction false} ExpandAppend(acc: seq<nat>, a: seq<LenSym>, b: seq<LenSym>)
    requires Expandable(acc, a) && Expandable(ExpandSyms(acc, a), b)
    ensures Expandable(acc, a + b) && ExpandSyms(acc, a + b) == ExpandSyms(ExpandSyms(acc, a), b)
    decreases |a|
  {
    if a == [] {
      assert a + b == b;
    } else {
      ExpandAppend(ExpandSym(acc, a[0]), a[1..], b);
      assert (a + b)[1..] == a[1..] + b;
    }
  }

  // ----- the symbols of a list of lengths -----

  /** The longest and the shortest run a repeat symbol is used for, given the
      length sent before the run. */
  function MaxCount(prev: int, cur: nat): nat
  {
    if cur == 0 then 138 else if cur == prev then 6 else 7
  }

  function MinCount(prev: int, cur: nat): nat
  {
    if cur == 0 || cur == prev then 3 else 4
  }

  function RunSyms(prev: int, cur: nat, count: nat): seq<LenSym>
  {
    if count < MinCount(prev, cur) then seq(count, _ => Len(cur))
    else if cur == 0 then [Zeros(count)]
    else if cur == prev then [Rep(count)]
    else [Len(cur), Rep(count - 1)]
  }

  /** The entry after n, or a value no length equals. */
  function NextLen(lens: seq<nat>, n: nat): nat
    requires n < |lens|
  {
    if n + 1 < |lens| then lens[n + 1] else 0xffff
  }

  /** The symbols still to come at index n, when `prev` was sent last and
      `count` entries just before n await sending. */
  function SymsFrom(lens: seq<nat>, n: nat, prev: int, count: nat): seq<LenSym>
    requires n <= |lens|
    decreases |lens| - n
  {
    if n == |lens| then []
    else if count + 1 < MaxCount(prev, lens[n]) && lens[n] == NextLen(lens, n)
    then SymsFrom(lens, n + 1, prev, count + 1)
    else RunSyms(prev, lens[n], count + 1) + SymsFrom(lens, n + 1, lens[n], 0)
  }

  function Syms(lens: seq<nat>): seq<LenSym>
  {
    SymsFrom(lens, 0, -1, 0)
  }

  lemma RepeatSnoc(v: nat, n: nat)
    ensures Repeat(v, n + 1) == Repeat(v, n) + [v] == [v] + Repeat(v, n)
  {
  }

  lemma {:induction false} LensExpand(acc: seq<nat>, v: nat, n: nat)
    ensures Expandable(acc, seq(n, _ => Len(v)))
    ensures ExpandSyms(acc, seq(n, _ => Len(v))) == acc + Repeat(v, n)
    decreases n
  {
    var s := seq(n, _ => Len(v));
    if n > 0 {
      LensExpand(acc + [v], v, n - 1);
      assert s[1..] == seq(n - 1, _ => Len(v));
      RepeatSnoc(v, n - 1);
    }
  }

  /** One run's symbols stand for the run, wherever it is allowed to occur. */
  lemma RunExpands(acc: seq<nat>, prev: int, cur: nat, count: nat)
    requires 0 < count <= MaxCount(prev, cur) && cur <= MAX_BITS
    requires acc == [] ==> prev == -1
    requires acc != [] ==> prev == acc[|acc| - 1]
    ensures Expandable(acc, RunSyms(prev, cur, count))
    ensures ExpandSyms(acc, RunSyms(prev, cur, count)) == acc + Repeat(cur, count)
    ensures forall i :: 0 <= i < |RunSyms(prev, cur, count)| ==> InRange(RunSyms(prev, cur, count)[i])
  {
    var syms := RunSyms(prev, cur, count);
    if count < MinCount(prev, cur) {
      LensExpand(acc, cur, count);
    } else if cur == 0 || cur == prev {
      assert syms[1..] == [];
      assert ExpandSyms(ExpandSym(acc, syms[0]), []) == acc + Repeat(cur, count);
    } else {
      RepeatSnoc(cur, count - 1);
      assert syms[1..] == [Rep(count - 1)] && syms[1..][1..] == [];
      assert ExpandSyms(acc + [cur], [Rep(count - 1)]) == acc + [cur] + Repeat(cur, count - 1);
    }
  }

  lemma ExpandNone(acc: seq<nat>)
    ensures Expandable(acc, []) && ExpandSyms(acc, []) == acc
  {
  }

  lemma RunOfEqual(lens: seq<nat>, a: nat, b: nat, v: nat)
    requires a <= b <= |lens| && forall i :: a <= i < b ==> lens[i] == v
    ensures lens[..a] + Repeat(v, b - a) == lens[..b]
  {
  }

  /** From any point of the scan, expanding what is still to come completes
      the list of lengths. */
  lemma {:induction false} SymsFromExpand(lens: seq<nat>, n: nat, prev: int, count: nat)
    requires Bounded(lens) && count <= n <= |lens|
    requires n == |lens| ==> count == 0
    requires forall i :: n - count <= i < n < |lens| ==> lens[i] == lens[n]
    requires n < |lens| ==> count < MaxCount(prev, lens[n])
    requires n == count ==> prev == -1
    requires n > count ==> prev == lens[n - count - 1]
    ensures var syms := SymsFrom(lens, n, prev, count);
            && Expandable(lens[..n - count], syms)
            && ExpandSyms(lens[..n - count], syms) == lens
            && forall i :: 0 <= i < |syms| ==> InRange(syms[i])
    decreases |lens| - n
  {
    hide RunSyms, MinCount, Repeat, Expandable, ExpandSyms, InRange;
    if n == |lens| {
      assert lens[..n] == lens;
      ExpandNone(lens);
    } else if count + 1 < MaxCount(prev, lens[n]) && lens[n] == NextLen(lens, n) {
      SymsFromExpand(lens, n + 1, prev, count + 1);
    } else {
      var acc := lens[..n - count];
      RunExpands(acc, prev, lens[n], count + 1);
      RunOfEqual(lens, n - count, n + 1, lens[n]);
      SymsFromExpand(lens, n + 1, lens[n], 0);
      ExpandAppend(acc, RunSyms(prev, lens[n], count + 1), SymsFrom(lens, n + 1, lens[n], 0));
    }
  }

  /** The round trip of the run-length form. */
  lemma SymsExpand(lens: seq<nat>)
    requires Bounded(lens)
    ensures Expandable([], Syms(lens)) && ExpandSyms([], Syms(lens)) == lens
    ensures forall i :: 0 <= i < |Syms(lens)| ==> InRange(Syms(lens)[i])
  {
    assert lens[..0] == [];
    SymsFromExpand(lens, 0, -1, 0);
  }
}
