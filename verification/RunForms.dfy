/** Which symbols the run-length form of a list of code lengths consists of: each
    stretch of equal lengths by itself, in repeats as long as they can be. */
module RunForms {
  import opened Bits
  import opened PrefixCode
  import opened Inflate
  import opened RunLength

  // ----- stretches are independent of one another -----

  lemma {:induction false} FirstPartFrom(a: seq<nat>, b: seq<nat>, n: nat, prev: int, count: nat)
    requires Bounded(a) && n < |a| && b != [] && a[|a| - 1] != b[0]
    ensures SymsFrom(a + b, n, prev, count) == SymsFrom(a, n, prev, count) + SymsFrom(a + b, |a|, a[|a| - 1], 0)
    decreases |a| - n
  {
    hide RunSyms;
    assert (a + b)[n] == a[n] && NextLen(a, n) == if n + 1 < |a| then a[n + 1] else 0xffff;
    assert NextLen(a + b, n) == if n + 1 < |a| then a[n + 1] else b[0];
    if count + 1 < MaxCount(prev, a[n]) && a[n] == NextLen(a, n) {
      FirstPartFrom(a, b, n + 1, prev, count + 1);
    } else if n + 1 < |a| {
      FirstPartFrom(a, b, n + 1, a[n], 0);
      assert SymsFrom(a, n, prev, count) == RunSyms(prev, a[n], count + 1) + SymsFrom(a, n + 1, a[n], 0);
    } else {
      assert SymsFrom(a, n, prev, count) == RunSyms(prev, a[n], count + 1) + SymsFrom(a, n + 1, a[n], 0);
    }
  }

  /** What was sent last matters only if it is the same. */
  lemma {:induction false} SecondPartFrom(all: seq<nat>, at: nat, b: seq<nat>, n: nat, prev: int, prev': int, count: nat)
    requires at <= |all| && all[at..] == b && Bounded(b) && n <= |b|
    requires prev == prev' || (n < |b| && prev != b[n] && prev' != b[n])
    ensures SymsFrom(all, at + n, prev, count) == SymsFrom(b, n, prev', count)
    decreases |b| - n
  {
    hide RunSyms, MaxCount, SymsFrom, Bounded, NextLen;
    if n == |b| {
      NoSyms(all, prev, count);
      NoSyms(b, prev', count);
    } else {
      BehindFirst(all, at, b, n);
      SameMost(prev, prev', b[n], count + 1);
      SymsStep(all, at + n, prev, count);
      SymsStep(b, n, prev', count);
      if count + 1 < MaxCount(prev, b[n]) && b[n] == NextLen(b, n) {
        SecondPartFrom(all, at, b, n + 1, prev, prev', count + 1);
      } else {
        SecondPartFrom(all, at, b, n + 1, b[n], b[n], 0);
      }
    }
  }

  lemma NoSyms(lens: seq<nat>, prev: int, count: nat)
    ensures SymsFrom(lens, |lens|, prev, count) == []
  {
  }

  lemma BehindFirst(all: seq<nat>, at: nat, b: seq<nat>, n: nat)
    requires at <= |all| && all[at..] == b && n < |b| && Bounded(b)
    ensures all[at + n] == b[n] && NextLen(all, at + n) == NextLen(b, n)
    ensures b[n] == NextLen(b, n) ==> n + 1 < |b| && b[n + 1] == b[n]
  {
  }

  lemma SymsStep(lens: seq<nat>, n: nat, prev: int, count: nat)
    requires n < |lens|
    ensures count + 1 < MaxCount(prev, lens[n]) && lens[n] == NextLen(lens, n) ==>
      SymsFrom(lens, n, prev, count) == SymsFrom(lens, n + 1, prev, count + 1)
    ensures !(count + 1 < MaxCount(prev, lens[n]) && lens[n] == NextLen(lens, n)) ==>
      SymsFrom(lens, n, prev, count) == RunSyms(prev, lens[n], count + 1) + SymsFrom(lens, n + 1, lens[n], 0)
  {
    hide RunSyms, MaxCount;
  }

  lemma SameMost(prev: int, prev': int, cur: nat, count: nat)
    requires prev == prev' || (prev != cur && prev' != cur)
    ensures MaxCount(prev, cur) == MaxCount(prev', cur) && RunSyms(prev, cur, count) == RunSyms(prev', cur, count)
  {
  }

  /** Where the length changes, the symbols start anew. */
  lemma SymsSplit(a: seq<nat>, b: seq<nat>)
    requires Bounded(a) && Bounded(b) && a != [] && b != [] && a[|a| - 1] != b[0]
    ensures Syms(a + b) == Syms(a) + Syms(b)
  {
    FirstPartFrom(a, b, 0, -1, 0);
    assert (a + b)[|a|..] == b;
    SecondPartFrom(a + b, |a|, b, 0, a[|a| - 1], -1, 0);
  }

  // ----- one stretch -----

  /** The scan goes on to the end of the stretch or as far as a repeat can. */
  lemma {:induction false} OneRepeat(v: nat, n: nat, i: nat, prev: int, count: nat)
    requires i < n && v <= MAX_BITS && count < MaxCount(prev, v)
    ensures var k := n - i + count;
            var c := if k < MaxCount(prev, v) then k else MaxCount(prev, v);
            SymsFrom(Repeat(v, n), i, prev, count) == RunSyms(prev, v, c) + SymsFrom(Repeat(v, n), i + c - count, v, 0)
    decreases n - i
  {
    hide RunSyms;
    var lens := Repeat(v, n);
    assert lens[i] == v && NextLen(lens, i) == if i + 1 < n then v else 0xffff;
    if count + 1 < MaxCount(prev, v) && i + 1 < n {
      OneRepeat(v, n, i + 1, prev, count + 1);
    }
  }

  /** The symbols for r zeros, fewer than a whole repeat. */
  function FewZeros(r: nat): seq<LenSym>
  {
    if r < 3 then seq(r, _ => Len(0)) else [Zeros(r)]
  }

  /** The symbols for the last r lengths of a stretch, fewer than a whole repeat. */
  function FewMore(v: nat, r: nat): seq<LenSym>
  {
    if r < 3 then seq(r, _ => Len(v)) else [Rep(r)]
  }

  lemma {:induction false} ZerosFrom(n: nat, i: nat, prev: int)
    requires i <= n
    ensures SymsFrom(Repeat(0, n), i, prev, 0) == seq((n - i) / 138, _ => Zeros(138)) + FewZeros((n - i) % 138)
    decreases n - i
  {
    var k := n - i;
    if k > 0 {
      OneRepeat(0, n, i, prev, 0);
      if k >= 138 {
        ZerosFrom(n, i + 138, 0);
        assert k / 138 == (k - 138) / 138 + 1 && k % 138 == (k - 138) % 138;
        assert seq(k / 138, _ => Zeros(138)) == [Zeros(138)] + seq((k - 138) / 138, _ => Zeros(138));
      } else {
        assert SymsFrom(Repeat(0, n), n, 0, 0) == [];
      }
    }
  }

  lemma {:induction false} MoreFrom(v: nat, n: nat, i: nat)
    requires i <= n && 0 < v <= MAX_BITS
    ensures SymsFrom(Repeat(v, n), i, v, 0) == seq((n - i) / 6, _ => Rep(6)) + FewMore(v, (n - i) % 6)
    decreases n - i
  {
    var k := n - i;
    if k > 0 {
      OneRepeat(v, n, i, v, 0);
      if k >= 6 {
        MoreFrom(v, n, i + 6);
        assert k / 6 == (k - 6) / 6 + 1 && k % 6 == (k - 6) % 6;
        assert seq(k / 6, _ => Rep(6)) == [Rep(6)] + seq((k - 6) / 6, _ => Rep(6));
      } else {
        assert SymsFrom(Repeat(v, n), n, v, 0) == [];
      }
    }
  }

  /** Zeros: repeats of 138, then one repeat of what is left, or single zeros for
      less than three. */
  lemma ZerosSent(n: nat)
    ensures Syms(Repeat(0, n)) == seq(n / 138, _ => Zeros(138)) + FewZeros(n % 138)
  {
    ZerosFrom(n, 0, -1);
  }

  /** A length above 0: the length itself, repeats of 6, then one repeat of what
      is left, or the length again for less than three. */
  lemma LengthsSent(v: nat, n: nat)
    requires 0 < v <= MAX_BITS && n > 0
    ensures Syms(Repeat(v, n)) == [Len(v)] + seq((n - 1) / 6, _ => Rep(6)) + FewMore(v, (n - 1) % 6)
  {
    OneRepeat(v, n, 0, -1, 0);
    var c := if n < 7 then n else 7;
    MoreFrom(v, n, c);
    if n >= 7 {
      assert (n - 1) / 6 == (n - 7) / 6 + 1 && (n - 1) % 6 == (n - 7) % 6;
      assert seq((n - 1) / 6, _ => Rep(6)) == [Rep(6)] + seq((n - 7) / 6, _ => Rep(6));
    } else {
      assert SymsFrom(Repeat(v, n), n, v, 0) == [];
    }
  }
}
