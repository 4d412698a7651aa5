/**
 * What the text of `AccessFSSet.String()` says about the set.
 *
 * `Split` cuts a text at its commas and undoes `Join` on comma-free tokens.
 * With it the lemmas below show that a non-empty set is written as braces
 * around its tokens in ascending bit order, with no comma at either end; that
 * a single bit is written as its own token; that a valid set is written with
 * names only; and that no two sets are written alike.
 */
module AccessFSRender {
  import opened Bits
  import opened AccessFS
  import opened AccessFSString

  /** The position of the last comma in `s`. */
  function LastComma(s: string): (k: nat)
    requires ',' in s
    ensures k < |s| && s[k] == ','
    ensures forall j :: k < j < |s| ==> s[j] != ','
  {
    if s[|s| - 1] == ',' then |s| - 1
    else
      assert s == s[..|s| - 1] + [s[|s| - 1]];
      LastComma(s[..|s| - 1])
  }

  /** The comma-separated fields of `s`, in order. */
  function Split(s: string): (ts: seq<string>)
    ensures 1 <= |ts|
    decreases |s|
  {
    if ',' !in s then [s]
    else
      var k := LastComma(s);
      Split(s[..k]) + [s[k + 1..]]
  }

  /** Splitting `p + "," + t` with a comma-free `t` splits `p` and adds `t` as the last field. */
  lemma SplitLastField(p: string, t: string)
    requires ',' !in t
    ensures ',' in p + "," + t
    ensures Split(p + "," + t) == Split(p) + [t]
  {
    var s := p + "," + t;
    assert s[|p|] == ',';
    assert LastComma(s) == |p|;
    assert s[..|p|] == p;
    assert s[|p| + 1..] == t;
  }

  /** Splitting the join of comma-free tokens gives the tokens back. */
  lemma {:induction false} JoinSplit(ts: seq<string>)
    requires 1 <= |ts|
    requires forall k :: 0 <= k < |ts| ==> ',' !in ts[k]
    ensures Split(Join(ts)) == ts
  {
    if |ts| > 1 {
      var init, last := ts[..|ts| - 1], ts[|ts| - 1];
      assert Join(ts) == Join(init) + "," + last;
      JoinSplit(init);
      SplitLastField(Join(init), last);
      assert ts == init + [last];
    }
  }

  /** The join of non-empty tokens begins with the first token and ends with the last. */
  lemma {:induction false} JoinEnds(ts: seq<string>)
    requires 1 <= |ts|
    requires forall k :: 0 <= k < |ts| ==> 1 <= |ts[k]|
    ensures 1 <= |Join(ts)|
    ensures Join(ts)[0] == ts[0][0]
    ensures Join(ts)[|Join(ts)| - 1] == ts[|ts| - 1][|ts[|ts| - 1]| - 1]
  {
    if |ts| > 1 {
      JoinEnds(ts[..|ts| - 1]);
    }
  }

  /** A non-empty set has a set bit below 64, so its text has a token. */
  lemma NonEmptyHasToken(a: AccessFSSet)
    requires !IsEmpty(a)
    ensures 1 <= |SetBits(a, 64)|
  {
    var i: nat :| Has(a, i);
    Uint64Bits(a);
    SetBitsCorrect(a, 64);
    assert i in SetBits(a, 64);
  }

  /** `String()` returns the empty-set sign exactly for the empty set. */
  lemma RenderEmpty(a: AccessFSSet)
    ensures Render(a) == EmptySetSymbol <==> a == 0
  {
    ZeroExactlyWhenNoRights(a);
    if !IsEmpty(a) {
      assert Render(a)[0] == '{';
    }
  }

  /**
   * The text of a non-empty set is `{`, then its tokens in ascending bit
   * order separated by commas, then `}`; no comma follows the opening brace
   * or precedes the closing one.
   */
  lemma RenderGrammar(a: AccessFSSet)
    requires !IsEmpty(a)
    ensures 3 <= |Render(a)|
    ensures Render(a)[0] == '{' && Render(a)[|Render(a)| - 1] == '}'
    ensures Render(a)[1] != ',' && Render(a)[|Render(a)| - 2] != ','
    ensures Split(Render(a)[1..|Render(a)| - 1]) == Tokens(SetBits(a, 64))
  {
    var ts := Tokens(SetBits(a, 64));
    NonEmptyHasToken(a);
    TokensShape(SetBits(a, 64));
    JoinEnds(ts);
    JoinSplit(ts);
    var s := Render(a);
    assert s == "{" + Join(ts) + "}";
    assert s[1..|s| - 1] == Join(ts);
    assert s[1] == ts[0][0];
    assert s[|s| - 2] == ts[|ts| - 1][|ts[|ts| - 1]| - 1];
  }

  /** The set bits of `1 << i` below `n`: just `i`, once `n` passes it. */
  lemma {:induction false} SetBitsOfPow2(i: nat, n: nat)
    ensures SetBits(Pow2(i), n) == if n <= i then [] else [i]
  {
    if n > 0 {
      SetBitsOfPow2(i, n - 1);
      Pow2Bit(i, n - 1);
    }
  }

  /** A set of one bit `i` is written as `{`, the token of `i`, and `}`. */
  lemma RenderSingleBit(i: nat)
    requires i < 64
    ensures Pow2(i) < Uint64Limit && Render(Pow2(i)) == "{" + Token(i) + "}"
    ensures i < |FlagNames| ==> Pow2(i) < Uint64Limit && Render(Pow2(i)) == "{" + FlagNames[i] + "}"
  {
    Pow2Bits(i);
    NoHighBitsBelowPow2(Pow2(i), 64);
    Pow2Is64();
    SetBitsOfPow2(i, 64);
    assert Tokens([i]) == [Token(i)];
  }

  /** Every token of `ts` is a right's name. */
  ghost predicate NamesOnly(ts: seq<string>)
  {
    forall k :: 0 <= k < |ts| ==> ts[k] in FlagNames
  }

  /** A set is valid exactly when its text holds right names and no `1<<i`. */
  lemma RenderValidNamesOnly(a: AccessFSSet)
    ensures Valid(a) <==> NamesOnly(Tokens(SetBits(a, 64)))
  {
    var bits := SetBits(a, 64);
    SetBitsCorrect(a, 64);
    if Valid(a) {
      forall k | 0 <= k < |bits|
        ensures Tokens(bits)[k] in FlagNames
      {
        TokenAt(bits, k);
      }
    } else {
      var i: nat :| Has(a, i) && |FlagNames| <= i;
      Uint64Bits(a);
      assert i in bits;
      var k :| 0 <= k < |bits| && bits[k] == i;
      TokenAt(bits, k);
      UnknownTokenIsNoName(i);
      assert Tokens(bits)[k] !in FlagNames;
    }
  }

  /** The token of a bit without a name is no right's name. */
  lemma UnknownTokenIsNoName(i: nat)
    requires |FlagNames| <= i
    ensures Token(i) !in FlagNames
  {
    FlagNamesShape();
    TokenShape(i);
  }

  /** Different bit lists have different token lists. */
  lemma TokensInjective(x: seq<nat>, y: seq<nat>)
    requires Tokens(x) == Tokens(y)
    ensures x == y
  {
    forall k | 0 <= k < |x|
      ensures x[k] == y[k]
    {
      TokenAt(x, k);
      TokenAt(y, k);
      TokenInjective(x[k], y[k]);
    }
  }

  /** Two sets with the same set bits below 64 are the same set. */
  lemma SameSetBits(a: AccessFSSet, b: AccessFSSet)
    requires SetBits(a, 64) == SetBits(b, 64)
    ensures a == b
  {
    Uint64Bits(a);
    Uint64Bits(b);
    SetBitsCorrect(a, 64);
    SetBitsCorrect(b, 64);
    forall i: nat
      ensures Has(a, i) == Has(b, i)
    {
      if i < 64 && (Has(a, i) || Has(b, i)) {
        assert i in SetBits(a, 64);
      }
    }
    SameBits(a, b);
  }

  /** No two sets have the same text. */
  lemma RenderInjective(a: AccessFSSet, b: AccessFSSet)
    requires Render(a) == Render(b)
    ensures a == b
  {
    RenderEmpty(a);
    RenderEmpty(b);
    if !IsEmpty(a) && !IsEmpty(b) {
      RenderGrammar(a);
      RenderGrammar(b);
      TokensInjective(SetBits(a, 64), SetBits(b, 64));
      SameSetBits(a, b);
    }
  }
}
