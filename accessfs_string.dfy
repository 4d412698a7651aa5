/**
 * The text form of an `AccessFSSet`: `AccessFSSet.String()` in
 * `landlock/accessfs.go`.
 *
 * The empty set is written as the empty-set sign. Any other set is written as
 * `{`, the tokens of its set bits in ascending bit order separated by commas,
 * and `}`; the token of a named bit is its name and that of any other bit `i`
 * is `1<<i`. `Render` states this as a function, the method `String` is the
 * loop of `String()` in `accessfs.go` proved equal to it, and the lemmas show the grammar of
 * the output and that no two sets are written alike.
 */
module AccessFSString {
  import opened Bits
  import opened AccessFS
  import opened Decimal

  /** What `String()` returns for the empty set: the single character U+2205. */
  const EmptySetSymbol: string := "\U{2205}"

  lemma FlagNamesShape()
    ensures forall k :: 0 <= k < |FlagNames| ==> 1 <= |FlagNames[k]| && FlagNames[k][0] != '1' && ',' !in FlagNames[k]
    ensures forall j, k :: 0 <= j < k < |FlagNames| ==> FlagNames[j] != FlagNames[k]
  {
  }

  /** The text of bit `i`: its name, or `1<<` and its index in decimal. */
  function Token(i: nat): (t: string)
  {
    if i < |FlagNames| then FlagNames[i] else "1<<" + DecimalString(i)
  }

  /** A token is never empty and holds no comma; only the token of an unnamed bit starts with `1`. */
  lemma TokenShape(i: nat)
    ensures 1 <= |Token(i)| && ',' !in Token(i)
    ensures |FlagNames| <= i <==> Token(i)[0] == '1'
  {
    FlagNamesShape();
  }

  /** No two bits have the same text. */
  lemma TokenInjective(i: nat, j: nat)
    requires Token(i) == Token(j)
    ensures i == j
  {
    FlagNamesShape();
    TokenShape(i);
    TokenShape(j);
    if |FlagNames| <= i && |FlagNames| <= j {
      assert Token(i)[3..] == DecimalString(i);
      assert Token(j)[3..] == DecimalString(j);
      DecimalInjective(i, j);
    }
  }

  /** The positions below `n` at which `a` has a bit set, in ascending order. */
  function SetBits(a: nat, n: nat): (bits: seq<nat>)
  {
    if n == 0 then [] else SetBits(a, n - 1) + (if Has(a, n - 1) then [n - 1] else [])
  }

  /**
   * `SetBits(a, n)` lists each position below `n` at which `a` has a bit set,
   * once, in ascending order, and nothing else.
   */
  lemma {:induction false} SetBitsCorrect(a: nat, n: nat)
    ensures forall k :: 0 <= k < |SetBits(a, n)| ==> SetBits(a, n)[k] < n && Has(a, SetBits(a, n)[k])
    ensures forall i: nat :: i < n && Has(a, i) ==> i in SetBits(a, n)
    ensures forall k, l :: 0 <= k < l < |SetBits(a, n)| ==> SetBits(a, n)[k] < SetBits(a, n)[l]
  {
    if n > 0 {
      SetBitsCorrect(a, n - 1);
    }
  }

  /** The text of each position in turn. */
  function Tokens(bits: seq<nat>): (ts: seq<string>)
    ensures |ts| == |bits|
  {
    if bits == [] then [] else Tokens(bits[..|bits| - 1]) + [Token(bits[|bits| - 1])]
  }

  /** The token at index `k` of `Tokens(bits)` is the token of `bits[k]`. */
  lemma {:induction false} TokenAt(bits: seq<nat>, k: nat)
    requires k < |bits|
    ensures Tokens(bits)[k] == Token(bits[k])
    decreases |bits|
  {
    var init := bits[..|bits| - 1];
    assert Tokens(bits) == Tokens(init) + [Token(bits[|bits| - 1])];
    if k < |init| {
      TokenAt(init, k);
    }
  }

  /** No token in `Tokens(bits)` is empty or holds a comma. */
  lemma TokensShape(bits: seq<nat>)
    ensures forall k :: 0 <= k < |bits| ==> 1 <= |Tokens(bits)[k]| && ',' !in Tokens(bits)[k]
  {
    forall k | 0 <= k < |bits|
      ensures 1 <= |Tokens(bits)[k]| && ',' !in Tokens(bits)[k]
    {
      TokenAt(bits, k);
      TokenShape(bits[k]);
    }
  }

  /** `ts` joined with a comma between each two neighbours. */
  function Join(ts: seq<string>): (s: string)
  {
    if |ts| == 0 then ""
    else if |ts| == 1 then ts[0]
    else Join(ts[..|ts| - 1]) + "," + ts[|ts| - 1]
  }

  /** The text `String()` returns for `a`. */
  function Render(a: AccessFSSet): (s: string)
  {
    if IsEmpty(a) then EmptySetSymbol else "{" + Join(Tokens(SetBits(a, 64))) + "}"
  }

  /**
   * `a.String()`: skips the clear bits from 0 to 63 and writes the token of
   * each set one, putting a comma first whenever the text is longer than the
   * opening brace.
   */
  method String(a: AccessFSSet) returns (s: string)
    ensures s == Render(a)
  {
    if IsEmpty(a) {
      return EmptySetSymbol;
    }
    var b := "{";
    assert SetBits(a, 0) == [] && Tokens([]) == [];
    for i := 0 to 64
      invariant b == "{" + Join(Tokens(SetBits(a, i)))
    {
      if BitIsClear(a, i) {
        SkipClearBit(a, i);
        continue;
      }
      AppendSetBit(a, i, b);
      if |b| > 1 {
        b := b + ",";
      }
      if i < |FlagNames| {
        b := b + FlagNames[i];
      } else {
        b := b + ("1<<" + DecimalString(i));
      }
    }
    b := b + "}";
    return b;
  }

  /** A clear bit adds nothing to the text. */
  lemma SkipClearBit(a: nat, i: nat)
    requires !Has(a, i)
    ensures SetBits(a, i + 1) == SetBits(a, i)
  {
  }

  /**
   * After the text `b` of the bits below `i`, a set bit `i` adds a comma when
   * `b` is longer than the brace, then its token.
   */
  lemma AppendSetBit(a: nat, i: nat, b: string)
    requires Has(a, i)
    requires b == "{" + Join(Tokens(SetBits(a, i)))
    ensures (if |b| > 1 then b + "," else b) + Token(i) == "{" + Join(Tokens(SetBits(a, i + 1)))
  {
    SetBitsAppend(a, i);
    TokensShape(SetBits(a, i));
    TokensAppend(SetBits(a, i), i);
    WriteToken(Tokens(SetBits(a, i)), Token(i), b);
  }

  lemma SetBitsAppend(a: nat, i: nat)
    requires Has(a, i)
    ensures SetBits(a, i + 1) == SetBits(a, i) + [i]
  {
  }

  /** Go's bit test `a & (1 << i) == 0`: bit `i` of `a` is clear. */
  function BitIsClear(a: nat, i: nat): (r: bool)
    ensures r <==> !Has(a, i)
  {
    BitTest(a, i);
    And(a, Pow2(i)) == 0
  }

  lemma BitTest(a: nat, i: nat)
    ensures And(a, Pow2(i)) == 0 <==> !Has(a, i)
  {
    Pow2Bits(i);
    if Has(a, i) {
      assert Has(And(a, Pow2(i)), i);
    } else {
      NoBitsInZero();
      SameBits(And(a, Pow2(i)), 0);
    }
  }

  lemma TokensAppend(bits: seq<nat>, i: nat)
    ensures Tokens(bits + [i]) == Tokens(bits) + [Token(i)]
  {
    assert (bits + [i])[..|bits|] == bits;
  }

  /** Writing one more token after the text of `done` gives the text of `done + [t]`. */
  lemma WriteToken(done: seq<string>, t: string, w: string)
    requires w == "{" + Join(done)
    requires forall k :: 0 <= k < |done| ==> 1 <= |done[k]|
    ensures (if |w| > 1 then w + "," else w) + t == "{" + Join(done + [t])
  {
    JoinAppend(done, t);
    if done != [] {
      JoinNotEmpty(done);
    }
  }

  /** Appending a token to a joined list adds a comma only after a first token. */
  lemma JoinAppend(ts: seq<string>, t: string)
    ensures Join(ts + [t]) == if ts == [] then t else Join(ts) + "," + t
  {
    assert (ts + [t])[..|ts|] == ts;
  }

  /** The join of a list whose first token is not empty is not empty. */
  lemma JoinNotEmpty(ts: seq<string>)
    requires ts != [] && 1 <= |ts[0]|
    ensures 1 <= |Join(ts)|
  {
  }
}
