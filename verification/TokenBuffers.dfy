/** The buffers in which the tokens of a block wait: literals and lengths,
    distances, and flag bits telling which is which. */
module TokenBuffers {
  import opened Bits
  import opened Config
  import opened Inflate
  import opened Tokens

  /** The byte kept for a token: the literal, or the length less 3. */
  function StoredByte(t: Token): byte
    requires Encodable(t)
  {
    if t.Literal? then t.b else t.len - MIN_MATCH
  }

  function Matches(toks: seq<Token>): (n: nat)
    ensures n <= |toks|
  {
    if toks == [] then 0
    else Matches(toks[..|toks| - 1]) + (if toks[|toks| - 1].Match? then 1 else 0)
  }

  /** One bit for each token, set for matches. */
  function FlagBits(toks: seq<Token>): (s: seq<bool>)
    ensures |s| == |toks| && forall i :: 0 <= i < |toks| ==> s[i] == toks[i].Match?
  {
    seq(|toks|, i requires 0 <= i < |toks| => toks[i].Match?)
  }

  lemma FlagsSnoc(toks: seq<Token>, t: Token)
    ensures FlagBits(toks + [t]) == FlagBits(toks) + [t.Match?]
  {
  }

  ghost predicate AllEncodable(toks: seq<Token>)
  {
    forall i :: 0 <= i < |toks| ==> Encodable(toks[i])
  }

  /** Token i is in the buffers. */
  ghost predicate Slot(toks: seq<Token>, i: nat, lBuf: seq<byte>, dBuf: seq<nat>)
    requires i < |toks| && i < |lBuf| && AllEncodable(toks)
  {
    && lBuf[i] == StoredByte(toks[i])
    && (toks[i].Match? ==> Matches(toks[..i]) < |dBuf| && dBuf[Matches(toks[..i])] == toks[i].dist - 1)
  }

  /** What the literal and distance buffers hold. */
  ghost predicate Buffered(toks: seq<Token>, lBuf: seq<byte>, dBuf: seq<nat>)
  {
    && AllEncodable(toks) && |toks| <= |lBuf| && Matches(toks) <= |dBuf|
    && forall i :: 0 <= i < |toks| ==> Slot(toks, i, lBuf, dBuf)
  }

  /** The flag bytes that are full, the bits that are not yet a byte, and the bit
      to use next. */
  ghost predicate Flagged(toks: seq<Token>, flagBuf: seq<nat>, lastFlags: nat, flags: nat, flagBit: nat)
  {
    && lastFlags == |toks| / 8 <= |flagBuf|
    && (forall k :: 0 <= k < lastFlags ==> flagBuf[k] == FlagByte(toks, k))
    && flags == FromBits(FlagBits(toks)[8 * lastFlags..])
    && flagBit == Pow2(|toks| % 8)
  }

  /** The k-th flag byte. */
  function FlagByte(toks: seq<Token>, k: nat): nat
    requires 8 * k <= |toks|
  {
    FromBits(FlagBits(toks)[8 * k..if 8 * k + 8 <= |toks| then 8 * k + 8 else |toks|])
  }

  lemma {:induction false} FromBitsSnoc(s: seq<bool>, b: bool)
    ensures FromBits(s + [b]) == FromBits(s) + (if b then Pow2(|s|) else 0)
  {
    if s != [] {
      FromBitsSnoc(s[1..], b);
      assert (s + [b])[1..] == s[1..] + [b];
    }
  }

  lemma {:induction false} OrPower(v: nat, k: nat)
    requires v < Pow2(k)
    ensures Or(v, Pow2(k)) == v + Pow2(k)
  {
    if k == 0 {
      OrZero(1);
    } else {
      OrPower(v / 2, k - 1);
    }
  }

  lemma BufferedSnoc(toks: seq<Token>, lBuf: seq<byte>, dBuf: seq<nat>, t: Token)
    requires Buffered(toks, lBuf, dBuf) && Encodable(t) && |toks| < |lBuf|
    requires t.Match? ==> Matches(toks) < |dBuf|
    ensures Buffered(toks + [t], lBuf[|toks| := StoredByte(t)],
                     if t.Match? then dBuf[Matches(toks) := t.dist - 1] else dBuf)
    ensures Matches(toks + [t]) == Matches(toks) + (if t.Match? then 1 else 0)
  {
    hide Slot, StoredByte, AllEncodable, Matches;
    EncodableSnoc(toks, t);
    MatchesSnoc(toks, t);
    SlotsKept(toks, lBuf, dBuf, t, toks + [t], lBuf[|toks| := StoredByte(t)],
              if t.Match? then dBuf[Matches(toks) := t.dist - 1] else dBuf);
  }

  lemma EncodableSnoc(toks: seq<Token>, t: Token)
    requires AllEncodable(toks) && Encodable(t)
    ensures AllEncodable(toks + [t])
  {
    hide Encodable;
  }

  lemma MatchesSnoc(toks: seq<Token>, t: Token)
    ensures Matches(toks + [t]) == Matches(toks) + (if t.Match? then 1 else 0)
  {
    assert (toks + [t])[..|toks|] == toks;
  }

  lemma SlotsKept(toks: seq<Token>, lBuf: seq<byte>, dBuf: seq<nat>, t: Token, toks': seq<Token>, lBuf': seq<byte>, dBuf': seq<nat>)
    requires Buffered(toks, lBuf, dBuf) && Encodable(t) && |toks| < |lBuf| && AllEncodable(toks + [t])
    requires t.Match? ==> Matches(toks) < |dBuf|
    requires toks' == toks + [t] && lBuf' == lBuf[|toks| := StoredByte(t)]
    requires dBuf' == if t.Match? then dBuf[Matches(toks) := t.dist - 1] else dBuf
    ensures forall i :: 0 <= i < |toks'| ==> Slot(toks', i, lBuf', dBuf')
  {
    hide Slot, StoredByte, Encodable, AllEncodable, Matches, Buffered;
    forall i: nat | i < |toks'|
      ensures Slot(toks', i, lBuf', dBuf')
    {
      if i < |toks| {
        SlotKept(toks, lBuf, dBuf, t, i);
      } else {
        NewSlot(toks, lBuf, dBuf, t);
      }
    }
  }

  lemma NewSlot(toks: seq<Token>, lBuf: seq<byte>, dBuf: seq<nat>, t: Token)
    requires Encodable(t) && |toks| < |lBuf| && AllEncodable(toks + [t])
    requires t.Match? ==> Matches(toks) < |dBuf|
    ensures Slot(toks + [t], |toks|, lBuf[|toks| := StoredByte(t)],
                 if t.Match? then dBuf[Matches(toks) := t.dist - 1] else dBuf)
  {
    hide Matches, StoredByte, Encodable, AllEncodable;
    assert (toks + [t])[..|toks|] == toks && (toks + [t])[|toks|] == t;
  }

  lemma SlotKept(toks: seq<Token>, lBuf: seq<byte>, dBuf: seq<nat>, t: Token, i: nat)
    requires i < |toks| && Buffered(toks, lBuf, dBuf) && Encodable(t) && |toks| < |lBuf| && AllEncodable(toks + [t])
    requires t.Match? ==> Matches(toks) < |dBuf|
    ensures Slot(toks + [t], i, lBuf[|toks| := StoredByte(t)],
                 if t.Match? then dBuf[Matches(toks) := t.dist - 1] else dBuf)
  {
    assert Slot(toks, i, lBuf, dBuf) && (toks + [t])[..i] == toks[..i];
    if toks[i].Match? {
      MatchesGrow(toks, i);
    }
    hide Matches, StoredByte, Encodable;
  }

  lemma {:induction false} MatchesGrow(toks: seq<Token>, i: nat)
    requires i < |toks| && toks[i].Match?
    ensures Matches(toks[..i]) < Matches(toks)
  {
    if i < |toks| - 1 {
      MatchesGrow(toks[..|toks| - 1], i);
      assert toks[..|toks| - 1][..i] == toks[..i];
    }
  }

  /** Setting the next flag bit; the byte moves to the buffer when it is full. */
  lemma FlaggedSnoc(toks: seq<Token>, flagBuf: seq<nat>, lastFlags: nat, flags: nat, flagBit: nat, t: Token)
    requires Flagged(toks, flagBuf, lastFlags, flags, flagBit) && |toks| / 8 < |flagBuf|
    ensures var flags' := if t.Match? then Or(flags, flagBit) else flags;
            if (|toks| + 1) % 8 == 0
            then Flagged(toks + [t], flagBuf[lastFlags := flags'], lastFlags + 1, 0, 1)
            else Flagged(toks + [t], flagBuf, lastFlags, flags', 2 * flagBit) && 2 * flagBit < 256
  {
    FlagsValue(toks, lastFlags, flags, flagBit, t);
    EarlierFlags(toks, t);
    hide FromBits, Or, Pow2, FlagBits, FlagByte;
    if (|toks| + 1) % 8 == 0 {
      LastFlags(toks, t);
    } else {
      assert Pow2(|toks| % 8 + 1) <= Pow2(7) == 128 by {
        Pow2Monotone(|toks| % 8 + 1, 7);
        SmallPowers();
      }
      assert Pow2(|toks| % 8 + 1) == 2 * flagBit by { Pow2Next(|toks| % 8); }
    }
  }

  lemma Pow2Next(k: nat)
    ensures Pow2(k + 1) == 2 * Pow2(k)
  {
  }

  /** The bits not yet stored, with the new one. */
  lemma FlagsValue(toks: seq<Token>, lastFlags: nat, flags: nat, flagBit: nat, t: Token)
    requires lastFlags == |toks| / 8 && flags == FromBits(FlagBits(toks)[8 * lastFlags..])
    requires flagBit == Pow2(|toks| % 8)
    ensures (if t.Match? then Or(flags, flagBit) else flags) == FromBits(FlagBits(toks + [t])[8 * lastFlags..])
  {
    var open := FlagBits(toks)[8 * lastFlags..];
    FlagsSnoc(toks, t);
    assert FlagBits(toks + [t])[8 * lastFlags..] == open + [t.Match?];
    FromBitsSnoc(open, t.Match?);
    OrPower(flags, |toks| % 8);
  }

  lemma EarlierFlags(toks: seq<Token>, t: Token)
    ensures forall j :: 0 <= j < |toks| / 8 ==> FlagByte(toks + [t], j) == FlagByte(toks, j)
  {
    forall j | 0 <= j < |toks| / 8
      ensures FlagByte(toks + [t], j) == FlagByte(toks, j)
    {
      assert FlagBits(toks + [t])[8 * j..8 * j + 8] == FlagBits(toks)[8 * j..8 * j + 8];
    }
  }

  lemma LastFlags(toks: seq<Token>, t: Token)
    requires (|toks| + 1) % 8 == 0
    ensures |toks + [t]| / 8 == |toks| / 8 + 1
    ensures FlagByte(toks + [t], |toks| / 8) == FromBits(FlagBits(toks + [t])[8 * (|toks| / 8)..])
    ensures FromBits(FlagBits(toks + [t])[8 * (|toks| / 8 + 1)..]) == 0
    ensures Pow2(|toks + [t]| % 8) == 1
  {
    var k, s := |toks| / 8, FlagBits(toks + [t]);
    assert |toks| + 1 == 8 * k + 8;
    assert s[8 * k..8 * k + 8] == s[8 * k..];
    assert s[8 * (k + 1)..] == [];
  }

  class TokenBuffer {
    const lBuf: array<byte>
    const dBuf: array<nat>
    const flagBuf: array<nat>
    var lastLit: nat
    var lastDist: nat
    var lastFlags: nat
    var flags: nat
    var flagBit: nat
    ghost var toks: seq<Token>

    ghost predicate Valid()
      reads this, lBuf, dBuf, flagBuf
    {
      && lBuf.Length == INBUFSIZ && dBuf.Length == DIST_BUFSIZE && flagBuf.Length == LIT_BUFSIZE / 8
      && dBuf != flagBuf
      && lastLit == |toks| < LIT_BUFSIZE && lastDist == Matches(toks)
      && Buffered(toks, lBuf[..], dBuf[..])
      && Flagged(toks, flagBuf[..], lastFlags, flags, flagBit)
    }

    constructor ()
      ensures Valid() && toks == [] && fresh(lBuf) && fresh(dBuf) && fresh(flagBuf)
    {
      lBuf := new byte[INBUFSIZ];
      dBuf := new nat[DIST_BUFSIZE];
      flagBuf := new nat[LIT_BUFSIZE / 8];
      lastLit, lastDist, lastFlags, flags, flagBit := 0, 0, 0, 0, 1;
      toks := [];
    }

    /** The part of `init_block` that empties the buffers. */
    method Clear()
      requires lBuf.Length == INBUFSIZ && dBuf.Length == DIST_BUFSIZE && flagBuf.Length == LIT_BUFSIZE / 8 && dBuf != flagBuf
      modifies this
      ensures Valid() && toks == []
    {
      lastLit, lastDist, lastFlags, flags, flagBit := 0, 0, 0, 0, 1;
      toks := [];
    }

    /** The part of `ct_tally` that stores a literal (dist 0) or a match. */
    method Store(dist: nat, lc: byte, ghost t: Token)
      requires Valid() && lastLit < LIT_BUFSIZE - 1
      requires if dist == 0 then t == Literal(lc) else t == Match(lc + MIN_MATCH, dist)
      requires Encodable(t)
      modifies this, lBuf, dBuf, flagBuf
      ensures Valid() && toks == old(toks) + [t]
    {
      hide Buffered, Flagged, StoredByte, Matches;
      BufferSizes(toks, lBuf[..], dBuf[..]);
      BufferedSnoc(toks, lBuf[..], dBuf[..], t);
      StoredLit(t, lc, dist);
      lBuf[lastLit] := lc;
      lastLit := lastLit + 1;
      if dist != 0 {
        dBuf[lastDist] := dist - 1;
        lastDist := lastDist + 1;
      }
      assert lBuf[..] == old(lBuf[..])[|toks| := StoredByte(t)];
      assert dBuf[..] == if t.Match? then old(dBuf[..])[Matches(toks) := t.dist - 1] else old(dBuf[..]);
      StoreFlag(dist != 0, t);
      toks := toks + [t];
    }

    /** Sets the flag bit of the token just stored; a full byte of flags is saved. */
    method StoreFlag(isMatch: bool, ghost t: Token)
      requires flagBuf.Length == LIT_BUFSIZE / 8 && lastLit == |toks| + 1 < LIT_BUFSIZE && isMatch == t.Match?
      requires Flagged(toks, flagBuf[..], lastFlags, flags, flagBit)
      modifies `lastFlags, `flags, `flagBit, flagBuf
      ensures Flagged(toks + [t], flagBuf[..], lastFlags, flags, flagBit)
    {
      hide Flagged;
      FlagSpace(toks, flagBuf[..], lastFlags, flags, flagBit);
      FlaggedSnoc(toks, flagBuf[..], lastFlags, flags, flagBit, t);
      if isMatch {
        flags := Or(flags, flagBit);
      }
      flagBit := (2 * flagBit) % 256;
      if lastLit % 8 == 0 {
        flagBuf[lastFlags] := flags;
        assert flagBuf[..] == old(flagBuf[..])[lastFlags := flags];
        lastFlags := lastFlags + 1;
        flags := 0;
        flagBit := 1;
      }
    }
  }

  lemma BufferSizes(toks: seq<Token>, lBuf: seq<byte>, dBuf: seq<nat>)
    requires Buffered(toks, lBuf, dBuf)
    ensures Matches(toks) <= |toks|
  {
  }

  lemma FlagSpace(toks: seq<Token>, flagBuf: seq<nat>, lastFlags: nat, flags: nat, flagBit: nat)
    requires Flagged(toks, flagBuf, lastFlags, flags, flagBit)
    ensures lastFlags == |toks| / 8
  {
  }

  lemma StoredLit(t: Token, lc: byte, dist: nat)
    requires Encodable(t)
    requires if dist == 0 then t == Literal(lc) else t == Match(lc + MIN_MATCH, dist)
    ensures StoredByte(t) == lc
  {
  }
}
