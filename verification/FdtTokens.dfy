/**
 The tokens of the structure block of a flattened devicetree (port/src/fdt.rs,
 `parse_token`), and how section 5.4.1 of the Devicetree Specification writes them.
 */
module FdtTokens {
  import opened Wrappers
  import opened Bits

  newtype Byte = x: int | 0 <= x < 256

  type Bytes = seq<Byte>

  type U32 = x: nat | x < 0x1_0000_0000

  /** The next multiple of four. */
  function Align4(n: nat): (r: nat)
    ensures n <= r < n + 4
  {
    if n == 0 then 0 else if n < 4 then 4 else 4 + Align4(n - 4)
  }

  /** The source rounds up with a wrapping negation and a mask. */
  lemma {:induction false} Align4Bits(n: nat)
    requires n < U64_LIMIT
    ensures Align4(n) == n + And((U64_LIMIT - n) % U64_LIMIT, 3)
  {
    assert Pow2(2) == 4;
    AndLow((U64_LIMIT - n) % U64_LIMIT, 2);
    NegatedLow(n);
    Align4Multiple(n);
  }

  lemma {:induction false} NegatedLow(n: nat)
    requires n < U64_LIMIT
    ensures (U64_LIMIT - n) % U64_LIMIT % 4 == (4 - n % 4) % 4
  {
    if n > 0 {
      assert (U64_LIMIT - n) % U64_LIMIT == U64_LIMIT - n;
    }
  }

  /** The result is the least multiple of four that is not below `n`. */
  lemma {:induction false} Align4Multiple(n: nat)
    ensures Align4(n) % 4 == 0 && n <= Align4(n) < n + 4
  {
    if n >= 4 {
      Align4Multiple(n - 4);
    }
  }

  /** The big-endian word at `i`, if the buffer reaches that far. */
  function U32At(s: Bytes, i: nat): Option<U32> {
    if i + 4 <= |s| then Some(Word(s[i], s[i + 1], s[i + 2], s[i + 3])) else None
  }

  function Word(a: Byte, b: Byte, c: Byte, d: Byte): U32 {
    0x100_0000 * a as nat + 0x1_0000 * b as nat + 0x100 * c as nat + d as nat
  }

  /** The number of bytes before the first zero byte from `i` on. */
  function ZeroPosition(s: Bytes, i: nat): (r: Option<nat>)
    ensures r.Some? ==> i + r.value < |s|
    decreases |s| - i
  {
    if i >= |s| then None
    else if s[i] == 0 then Some(0)
    else
      match ZeroPosition(s, i + 1)
      case None => None
      case Some(n) => Some(n + 1)
  }

  /** A token and where it starts; a begin token with the padded size of its name. */
  datatype Token =
    | BeginNode(start: nat, nameSize: nat)
    | EndNode(start: nat)
    | Prop(start: nat, nameStart: nat, valueLen: nat)
    | Nop(start: nat)
    | End(start: nat)
  {
    function TotalLen(): (r: nat)
      ensures r >= 4
    {
      match this
      case BeginNode(_, n) => 4 + n
      case Prop(_, _, len) => 12 + Align4(len)
      case _ => 4
    }
  }

  function OrZero(v: Option<U32>): U32 {
    if v.Some? then v.value else 0
  }

  function ParseToken(s: Bytes, i: nat): (r: Option<Token>)
    ensures r.Some? ==> r.value.start == i && i < |s|
  {
    match U32At(s, i)
    case None => None
    case Some(token) =>
      if token == 1 then
        var strSize := match ZeroPosition(s, i + 4) case None => 0 case Some(n) => Align4(n + 1);
        Some(BeginNode(i, strSize))
      else if token == 2 then Some(EndNode(i))
      else if token == 3 then
        var len, nameoff := OrZero(U32At(s, i + 4)), OrZero(U32At(s, i + 8));
        Some(Prop(i, nameoff, len))
      else if token == 4 then Some(Nop(i))
      else if token == 9 then Some(End(i))
      else None
  }

  /** The token, if any, that starts at each byte of the block. */
  type Tokens = seq<Option<Token>>

  function Lex(s: Bytes): (r: Tokens)
    ensures |r| == |s|
  {
    LexFrom(s, 0)
  }

  function LexFrom(s: Bytes, i: nat): (r: Tokens)
    requires i <= |s|
    ensures |r| == |s| - i
    decreases |s| - i
  {
    if i == |s| then [] else [ParseToken(s, i)] + LexFrom(s, i + 1)
  }

  function Tok(toks: Tokens, i: nat): Option<Token> {
    if i < |toks| then toks[i] else None
  }

  lemma {:induction false} LexFromAt(s: Bytes, i: nat, j: nat)
    requires i <= j < |s|
    ensures LexFrom(s, i)[j - i] == ParseToken(s, j)
    decreases j - i
  {
    if i < j {
      LexFromAt(s, i + 1, j);
    }
  }

  /** Looking a token up is parsing it where it stands. */
  lemma {:induction false} LexAt(s: Bytes, i: nat)
    ensures Tok(Lex(s), i) == ParseToken(s, i)
  {
    if i < |s| {
      LexFromAt(s, 0, i);
    }
  }

  // ----- the specification's encoding

  function WordBytes(n: U32): (r: Bytes)
    ensures |r| == 4
  {
    [(n / 0x100_0000) as Byte, (n / 0x1_0000 % 256) as Byte, (n / 0x100 % 256) as Byte, (n % 256) as Byte]
  }

  function Zeros(n: nat): (r: Bytes)
    ensures |r| == n && forall i | 0 <= i < n :: r[i] == 0
  {
    seq(n, _ => 0)
  }

  function BeginBytes(name: Bytes): (r: Bytes)
    ensures |r| == 4 + Align4(|name| + 1)
  {
    WordBytes(1) + name + Zeros(Align4(|name| + 1) - |name|)
  }

  function EndBytes(): (r: Bytes)
    ensures |r| == 4
  {
    WordBytes(2)
  }

  function PropBytes(nameoff: U32, value: Bytes): (r: Bytes)
    requires |value| < 0x1_0000_0000
    ensures |r| == 12 + Align4(|value|)
  {
    WordBytes(3) + WordBytes(|value|) + WordBytes(nameoff) + value + Zeros(Align4(|value|) - |value|)
  }

  function NopBytes(): (r: Bytes)
    ensures |r| == 4
  {
    WordBytes(4)
  }

  function FinalBytes(): (r: Bytes)
    ensures |r| == 4
  {
    WordBytes(9)
  }

  /** The bytes of `chunk` stand in `s` at `i`. */
  predicate At(s: Bytes, i: nat, chunk: Bytes)
    decreases |chunk|
  {
    |chunk| > 0 ==> i < |s| && s[i] == chunk[0] && At(s, i + 1, chunk[1..])
  }

  lemma {:induction false} AtConcat(s: Bytes, i: nat, a: Bytes, b: Bytes, j: nat)
    requires At(s, i, a + b) && j == i + |a|
    ensures At(s, i, a) && At(s, j, b)
    decreases |a|
  {
    if a == [] {
      assert a + b == b;
    } else {
      assert (a + b)[1..] == a[1..] + b;
      AtConcat(s, i + 1, a[1..], b, j);
    }
  }

  lemma {:induction false} AtByte(s: Bytes, i: nat, chunk: Bytes, j: nat)
    requires At(s, i, chunk) && j < |chunk|
    ensures i + j < |s| && s[i + j] == chunk[j]
    decreases j
  {
    if j > 0 {
      AtByte(s, i + 1, chunk[1..], j - 1);
    }
  }

  lemma {:induction false} AtSlice(s: Bytes, i: nat, chunk: Bytes)
    requires At(s, i, chunk) && i <= |s|
    ensures i + |chunk| <= |s| && s[i..i + |chunk|] == chunk
    decreases |chunk|
  {
    if chunk != [] {
      AtSlice(s, i + 1, chunk[1..]);
      assert s[i..i + |chunk|] == [s[i]] + s[i + 1..i + |chunk|];
    }
  }

  lemma {:induction false} AtSelf(s: Bytes, i: nat)
    requires i <= |s|
    ensures At(s, i, s[i..])
    decreases |s| - i
  {
    if i < |s| {
      AtSelf(s, i + 1);
      assert s[i..][1..] == s[i + 1..];
    }
  }

  /** Reading a word back gives the number written. */
  lemma {:induction false} WordRoundTrip(s: Bytes, i: nat, n: U32)
    requires At(s, i, WordBytes(n))
    ensures U32At(s, i) == Some(n)
  {
    AtByte(s, i, WordBytes(n), 0);
    AtByte(s, i, WordBytes(n), 1);
    AtByte(s, i, WordBytes(n), 2);
    AtByte(s, i, WordBytes(n), 3);
    WordOfDigits(n);
  }

  lemma {:induction false} WordOfDigits(n: U32)
    ensures var w := WordBytes(n); Word(w[0], w[1], w[2], w[3]) == n
  {
    Digit(n, 0x100, 0x100);
    Digit(n, 0x1_0000, 0x100);
  }

  lemma {:induction false} ZeroAfterName(s: Bytes, i: nat, name: Bytes)
    requires At(s, i, name) && i + |name| < |s| && s[i + |name|] == 0
    requires forall j | 0 <= j < |name| :: name[j] != 0
    ensures ZeroPosition(s, i) == Some(|name|)
    decreases |name|
  {
    if name != [] {
      AtByte(s, i, name, 0);
      assert name == [name[0]] + name[1..];
      AtConcat(s, i, [name[0]], name[1..], i + 1);
      ZeroAfterName(s, i + 1, name[1..]);
    }
  }

  lemma {:induction false} BeginParts(s: Bytes, i: nat, name: Bytes)
    requires At(s, i, BeginBytes(name))
    ensures At(s, i, WordBytes(1)) && At(s, i + 4, name)
    ensures i + 4 + |name| < |s| && s[i + 4 + |name|] == 0
  {
    var n := Align4(|name| + 1) - |name|;
    var pad := Zeros(n);
    var stop: nat := i + 4 + |name|;
    AtConcat(s, i, WordBytes(1) + name, pad, stop);
    AtConcat(s, i, WordBytes(1), name, i + 4);
    assert |pad| == n > 0;
    assert At(s, stop, pad);
    AtByte(s, stop, pad, 0);
    assert stop + 0 == stop;
  }

  /** What a begin token parses to, and a property token below, from the words read. */
  lemma {:induction false} BeginToken(s: Bytes, i: nat, n: nat)
    requires U32At(s, i) == Some(1) && ZeroPosition(s, i + 4) == Some(n)
    ensures ParseToken(s, i) == Some(BeginNode(i, Align4(n + 1)))
  {
  }

  lemma {:induction false} LexBegin(s: Bytes, i: nat, name: Bytes)
    requires At(s, i, BeginBytes(name)) && forall j | 0 <= j < |name| :: name[j] != 0
    ensures Tok(Lex(s), i) == Some(BeginNode(i, Align4(|name| + 1)))
  {
    BeginParts(s, i, name);
    WordRoundTrip(s, i, 1);
    ZeroAfterName(s, i + 4, name);
    BeginToken(s, i, |name|);
    LexAt(s, i);
  }

  lemma {:induction false} LexEnd(s: Bytes, i: nat)
    requires At(s, i, EndBytes())
    ensures Tok(Lex(s), i) == Some(EndNode(i))
  {
    WordRoundTrip(s, i, 2);
    LexAt(s, i);
  }

  lemma {:induction false} PropParts(s: Bytes, i: nat, nameoff: U32, value: Bytes)
    requires |value| < 0x1_0000_0000 && At(s, i, PropBytes(nameoff, value))
    ensures At(s, i, WordBytes(3)) && At(s, i + 4, WordBytes(|value|)) && At(s, i + 8, WordBytes(nameoff))
    ensures At(s, i + 12, value)
  {
    var pad := Zeros(Align4(|value|) - |value|);
    var words := WordBytes(3) + WordBytes(|value|);
    AtConcat(s, i, words + WordBytes(nameoff) + value, pad, i + 12 + |value|);
    AtConcat(s, i, words + WordBytes(nameoff), value, i + 12);
    AtConcat(s, i, words, WordBytes(nameoff), i + 8);
    AtConcat(s, i, WordBytes(3), WordBytes(|value|), i + 4);
  }

  lemma {:induction false} PropToken(s: Bytes, i: nat, len: U32, nameoff: U32)
    requires U32At(s, i) == Some(3) && U32At(s, i + 4) == Some(len) && U32At(s, i + 8) == Some(nameoff)
    ensures ParseToken(s, i) == Some(Prop(i, nameoff, len))
  {
  }

  lemma {:induction false} LexProp(s: Bytes, i: nat, nameoff: U32, value: Bytes)
    requires |value| < 0x1_0000_0000 && At(s, i, PropBytes(nameoff, value))
    ensures Tok(Lex(s), i) == Some(Prop(i, nameoff, |value|))
    ensures At(s, i + 12, value)
  {
    PropParts(s, i, nameoff, value);
    WordRoundTrip(s, i, 3);
    WordRoundTrip(s, i + 4, |value|);
    WordRoundTrip(s, i + 8, nameoff);
    PropToken(s, i, |value|, nameoff);
    LexAt(s, i);
  }

  lemma {:induction false} LexNop(s: Bytes, i: nat)
    requires At(s, i, NopBytes())
    ensures Tok(Lex(s), i) == Some(Nop(i))
  {
    WordRoundTrip(s, i, 4);
    LexAt(s, i);
  }

  lemma {:induction false} LexFinal(s: Bytes, i: nat)
    requires At(s, i, FinalBytes())
    ensures Tok(Lex(s), i) == Some(End(i))
  {
    WordRoundTrip(s, i, 9);
    LexAt(s, i);
  }

  /** The tokens as the specification numbers them, byte by byte. */
  lemma SpecBytes(nameoff: U32, a: Byte)
    requires nameoff < 0x100
    ensures BeginBytes([a]) == [0, 0, 0, 1, a, 0, 0, 0] && EndBytes() == [0, 0, 0, 2]
    ensures PropBytes(nameoff, [a]) == [0, 0, 0, 3, 0, 0, 0, 1, 0, 0, 0, nameoff as Byte, a, 0, 0, 0]
    ensures NopBytes() == [0, 0, 0, 4] && FinalBytes() == [0, 0, 0, 9]
  {
    assert Align4(2) == 4 && Align4(1) == 4;
    assert Zeros(3) == [0, 0, 0];
  }
}
