# Landlock file system access sets

A model of `AccessFSSet` from `landlock/accessfs.go` in go-landlock. An
`AccessFSSet` is a `uint64` in which bit `i` grants the Landlock file system
right named `flagNames[i]`. There are fourteen named rights, from `execute`
(bit 0) to `refer` (bit 13). The file defines these operations:

- `supportedAccessFS`: the set of all named rights;
- `isSubset`, `intersect` and `union`: single bitwise expressions;
- `isEmpty`;
- `valid`: the set holds only rights this version knows;
- `String`: writes a set as `{name,name,…}`, using `1<<i` for a bit that has
  no name, and `∅` for the empty set.

The project has five modules:

- `Bits` (`bits.dfy`): a `uint64` as a natural number below 2^64. Its bits are
  its binary digits, `&` and `|` are defined digit by digit, and their
  bit-by-bit meaning is proved.
- `AccessFS` (`accessfs.dfy`): the name list, the set type, the set operations
  with contracts stated over bit positions, and the lattice and validity laws.
- `Decimal` (`decimal.dfy`): the decimal notation `fmt.Sprintf("%v", i)` writes
  for a bit index, with its round trip.
- `AccessFSString` (`accessfs_string.dfy`): `Render`, the text a set is written
  as, and the method `String`, the loop of `String()` in `accessfs.go` proved to return
  `Render`.
- `AccessFSRender` (`accessfs_render.dfy`): `Split` undoes the comma join. The
  module also proves the grammar of the text, the single-bit and names-only
  cases, and that no two sets are written alike.

## Model

| member | source | states |
|---|---|---|
| Bits.And | landlock/accessfs.go:53-59 | `a & b` has bit `i` set exactly when both operands do, and is at most either operand |
| Bits.Or | landlock/accessfs.go:61-63 | a bitwise or `a OR b` has bit `i` set exactly when either operand does, and is at least either operand |
| Bits.SameBits | landlock/accessfs.go:26 | two `uint64` values with the same bits are equal, so a set is determined by its bit positions |
| Bits.Pow2Bits | landlock/accessfs.go:37 | `1 << n` has exactly bit `n` set |
| Bits.LowMaskBits | landlock/accessfs.go:28 | `(1 << n) - 1` has exactly the bits below `n` set |
| Bits.OrUint64 | landlock/accessfs.go:61-63 | the bitwise or of two `uint64` values is again a `uint64` |
| AccessFS.FlagNames | landlock/accessfs.go:8-23 | the fourteen names in bit order; their shape is stated by `FlagNamesShape` and their count by `SupportedAccessFSBits` |
| AccessFS.SupportedAccessFS | landlock/accessfs.go:28 | `(1 << len(flagNames)) - 1`; `SupportedAccessFSBits` proves it holds exactly bits 0 to 13 |
| AccessFS.IsSubset | landlock/accessfs.go:53-55 | `a & b == a` holds exactly when every bit of `a` is a bit of `b` |
| AccessFS.Intersect | landlock/accessfs.go:57-59 | the result holds exactly the rights in both operands |
| AccessFS.Union | landlock/accessfs.go:61-63 | the result holds exactly the rights in either operand, and stays a `uint64` |
| AccessFS.IsEmpty | landlock/accessfs.go:65-67 | `a == 0` holds exactly when `a` holds no right |
| AccessFS.Valid | landlock/accessfs.go:69-73 | `a` is a subset of `supportedAccessFS` exactly when every bit of `a` has a name |
| AccessFS.SupportedAccessFSBits | landlock/accessfs.go:8-28 | there are 14 names, and `supportedAccessFS` holds exactly bits 0 to 13 |
| AccessFS.SubsetReflexive | landlock/accessfs.go:53-55 | every set is a subset of itself |
| AccessFS.SubsetAntisymmetric | landlock/accessfs.go:53-55 | two sets that are subsets of each other are equal |
| AccessFS.SubsetTransitive | landlock/accessfs.go:53-55 | subset is transitive |
| AccessFS.IntersectIsGreatestLowerBound | landlock/accessfs.go:53-59 | the intersection is a subset of both operands, and contains every common subset |
| AccessFS.UnionIsLeastUpperBound | landlock/accessfs.go:53-63 | both operands are subsets of the union, and the union is a subset of every common superset |
| AccessFS.IntersectIdempotent | landlock/accessfs.go:57-59 | `a.intersect(a) == a` |
| AccessFS.UnionIdempotent | landlock/accessfs.go:61-63 | `a.union(a) == a` |
| AccessFS.IntersectCommutative | landlock/accessfs.go:57-59 | intersection does not depend on operand order |
| AccessFS.UnionCommutative | landlock/accessfs.go:61-63 | union does not depend on operand order |
| AccessFS.SubsetIffIntersectIsLeft | landlock/accessfs.go:53-59 | `a.isSubset(b)` exactly when `a.intersect(b) == a` |
| AccessFS.SubsetIffUnionIsRight | landlock/accessfs.go:53-63 | `a.isSubset(b)` exactly when `a.union(b) == b` |
| AccessFS.EmptyIsBottom | landlock/accessfs.go:53-67 | the empty set is a subset of every set, and a set is empty exactly when it is a subset of the empty set |
| AccessFS.ValidIffBelowFirstUnknownBit | landlock/accessfs.go:28 | a set is valid exactly when it is below `1 << len(flagNames)` |
| AccessFS.ValidBounds | landlock/accessfs.go:69-73 | the empty set is valid, and a set holding any bit from 14 up is invalid |
| AccessFS.ValidClosed | landlock/accessfs.go:53-73 | subsets and intersections of a valid set are valid, and so is the union of two valid sets |
| Decimal.DecimalString | landlock/accessfs.go:46 | the decimal text of `i` is non-empty, all digits, has no leading zero, and is one digit long exactly for `i < 10` |
| Decimal.DecimalRoundTrip | landlock/accessfs.go:46 | reading the decimal text of `i` back gives `i` |
| Decimal.DecimalInjective | landlock/accessfs.go:46 | different numbers have different decimal texts |
| AccessFSString.FlagNamesShape | landlock/accessfs.go:8-23 | every name is non-empty, holds no comma, does not start with `1`, and no two names are equal |
| AccessFSString.EmptySetSymbol | landlock/accessfs.go:31-33 | the one-character text `∅` written for the empty set; `RenderEmpty` proves it is written exactly for 0 |
| AccessFSString.Token | landlock/accessfs.go:43-47 | the name of a named bit, else `1<<` and the decimal index; `TokenShape` and `TokenInjective` state its contract |
| AccessFSString.TokenShape | landlock/accessfs.go:43-47 | the text of a bit is non-empty and holds no comma, and it starts with `1` exactly when the bit has no name |
| AccessFSString.TokenInjective | landlock/accessfs.go:43-47 | different bits are written as different texts |
| AccessFSString.SetBitsCorrect | landlock/accessfs.go:36-39 | `SetBits(a, n)` lists each set bit of `a` below `n` once, in ascending order, and nothing else |
| AccessFSString.TokenAt | landlock/accessfs.go:43-47 | entry `k` of `Tokens(bits)` is the text of `bits[k]` |
| AccessFSString.JoinAppend | landlock/accessfs.go:40-42 | adding a token to a join puts a comma in front of it exactly when a token came before |
| AccessFSString.WriteToken | landlock/accessfs.go:40-47 | the loop body's step, a comma when the text is longer than `{` and then the token, extends the join by that token |
| AccessFSString.AppendSetBit | landlock/accessfs.go:36-47 | a set bit `i` turns the text of the bits below `i` into the text of the bits below `i + 1` |
| AccessFSString.BitIsClear | landlock/accessfs.go:37 | `a & (1 << i) == 0` holds exactly when bit `i` of `a` is clear |
| AccessFSString.Render | landlock/accessfs.go:30-51 | the text `String()` returns; `RenderEmpty`, `RenderGrammar`, `RenderSingleBit`, `RenderValidNamesOnly` and `RenderInjective` state what it means |
| AccessFSString.String | landlock/accessfs.go:30-51 | the loop returns `Render(a)`: `∅` for the empty set, otherwise `{`, the comma-joined tokens of the set bits from 0 to 63, and `}` |
| AccessFSRender.LastComma | landlock/accessfs.go:40-42 | the index found holds a comma, and no comma comes after it |
| AccessFSRender.SplitLastField | landlock/accessfs.go:40-42 | splitting `p + "," + t`, with `t` free of commas, gives the fields of `p` followed by `t` |
| AccessFSRender.JoinSplit | landlock/accessfs.go:40-47 | splitting the join of comma-free tokens at its commas gives the tokens back |
| AccessFSRender.JoinEnds | landlock/accessfs.go:40-47 | the join of non-empty tokens begins with the first letter of the first token and ends with the last letter of the last token |
| AccessFSRender.RenderEmpty | landlock/accessfs.go:31-33 | the text is `∅` exactly when the set is 0 |
| AccessFSRender.RenderGrammar | landlock/accessfs.go:34-50 | a non-empty set is written as `{` and `}` around its tokens, with no comma at either end; splitting the inside at its commas gives one token per set bit, in ascending order |
| AccessFSRender.SetBitsOfPow2 | landlock/accessfs.go:36-39 | the only set bit of `1 << i` is `i` |
| AccessFSRender.RenderSingleBit | landlock/accessfs.go:34-50 | a set of one bit `i < 64` is written `{` + its token + `}`, and `{` + `flagNames[i]` + `}` when the bit has a name |
| AccessFSRender.RenderValidNamesOnly | landlock/accessfs.go:43-47 | a set is valid exactly when every token of its text is a right's name, so no `1<<i` appears |
| AccessFSRender.UnknownTokenIsNoName | landlock/accessfs.go:43-47 | the `1<<i` text of a bit without a name is no right's name |
| AccessFSRender.TokensInjective | landlock/accessfs.go:43-47 | two bit lists with the same token lists are equal |
| AccessFSRender.SameSetBits | landlock/accessfs.go:36-39 | two sets with the same set bits below 64 are equal |
| AccessFSRender.RenderInjective | landlock/accessfs.go:30-51 | two sets with the same text are the same set |

`Render`, `Token`, `Tokens`, `Join`, `Split` and `SetBits` are the
specification functions these lemmas talk about. The lemmas above state what
those functions mean.

## Left out

- `RestrictPaths`, `V1`, `MustConfig`, `RODirs`, `PathAccess` and
  `RequireLandlockABI`: their code is not among the files modelled. `V1`,
  `MustConfig`, `RODirs` and `PathAccess` build the configuration that
  `RestrictPaths` applies through the Landlock system calls.
  `RequireLandlockABI` is a test helper that asks the kernel for its Landlock
  ABI version.
- The classification of system call errors is not part of this model.
- `fmt.Sprintf` and `strings.Builder` are library code. The model writes the
  decimal text of a bit index itself (`Decimal.DecimalString`). It models the
  builder as a string that grows, and its `Len` as that string's length. All
  the text before the check (the brace, the names, commas and digits) is
  ASCII, so this length equals the count of bytes Go's `Len` returns.
- `∅` is modelled as the one character U+2205. The model does not capture its
  encoding as three bytes of UTF-8 in a Go string.
- `1 << i` is `Pow2(i)`. Every shift in `accessfs.go` is by at most 63, so Go's
  wrap-around of larger shifts never arises and is not modelled.
- A `uint64` is a natural number below 2^64. `&` and `|` of two such numbers
  never leave that range, which `Bits.OrUint64` and the contract of `Bits.And`
  show.
