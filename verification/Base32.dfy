/** Base 32 without padding, sections 3.2 and 6 of RFC 4648: bytes as a stream
    of bits, five to a letter, filled up with zero bits. */
module Base32 {
  import opened Common

  type Bits = seq<bool>

  // ----- Words of bits, most significant first -----

  function Pow2(w: nat): nat {
    if w == 0 then 1 else 2 * Pow2(w - 1)
  }

  function ToBits(v: nat, w: nat): (bits: Bits)
    ensures |bits| == w
  {
    if w == 0 then [] else ToBits(v / 2, w - 1) + [v % 2 == 1]
  }

  function FromBits(bits: Bits): nat {
    if bits == [] then 0 else 2 * FromBits(bits[..|bits| - 1]) + (if bits[|bits| - 1] then 1 else 0)
  }

  lemma {:induction false} WordRoundTrip(v: nat, w: nat)
    requires v < Pow2(w)
    ensures FromBits(ToBits(v, w)) == v
  {
    if w > 0 {
      WordRoundTrip(v / 2, w - 1);
      var bits := ToBits(v, w);
      assert bits[..|bits| - 1] == ToBits(v / 2, w - 1);
    }
  }

  lemma {:induction false} BitsRoundTrip(bits: Bits)
    ensures FromBits(bits) < Pow2(|bits|)
    ensures ToBits(FromBits(bits), |bits|) == bits
  {
    if bits != [] {
      BitsRoundTrip(bits[..|bits| - 1]);
      SplitLast(bits);
    }
  }

  // ----- Streams of words -----

  function Spread(words: seq<nat>, w: nat): Bits {
    if words == [] then [] else ToBits(words[0], w) + Spread(words[1..], w)
  }

  /** As many whole words as there are, the rest left over. */
  function Chunk(bits: Bits, w: nat): seq<nat>
    requires w > 0
  {
    if |bits| < w then [] else [FromBits(bits[..w])] + Chunk(bits[w..], w)
  }

  ghost predicate Fit(words: seq<nat>, w: nat) {
    forall i :: 0 <= i < |words| ==> words[i] < Pow2(w)
  }

  /** The incomplete last word, if any. */
  function Rest(bits: Bits, w: nat): (rest: Bits)
    requires w > 0
    ensures |rest| < w
  {
    if |bits| < w then bits else Rest(bits[w..], w)
  }

  lemma {:induction false} Cut(x: Bits, y: Bits, z: Bits)
    ensures ((x + y) + z)[..|x|] == x && ((x + y) + z)[|x|..] == y + z
  {
  }

  /** Words come back from their bits, whatever incomplete word follows. */
  lemma {:induction false} ChunkSpread(words: seq<nat>, w: nat, extra: Bits)
    requires w > 0 && Fit(words, w) && |extra| < w
    ensures Chunk(Spread(words, w) + extra, w) == words
    ensures Rest(Spread(words, w) + extra, w) == extra
  {
    if words == [] {
      assert Spread(words, w) + extra == extra;
    } else {
      Cut(ToBits(words[0], w), Spread(words[1..], w), extra);
      WordRoundTrip(words[0], w);
      ChunkSpread(words[1..], w, extra);
      assert words == [words[0]] + words[1..];
    }
  }

  lemma {:induction false} SpreadFirst(v: nat, words: seq<nat>, w: nat)
    ensures Spread([v] + words, w) == ToBits(v, w) + Spread(words, w)
  {
    assert ([v] + words)[1..] == words;
  }

  lemma {:induction false} Grouped(x: Bits, y: Bits, z: Bits)
    ensures (x + y) + z == x + (y + z)
  {
  }

  lemma {:induction false} Split(bits: Bits, w: nat)
    requires w <= |bits|
    ensures bits[..w] + bits[w..] == bits
  {
  }

  /** Bits come back from their words, up to an incomplete last word. */
  lemma {:induction false} SpreadChunk(bits: Bits, w: nat)
    requires w > 0
    ensures Spread(Chunk(bits, w), w) + Rest(bits, w) == bits
  {
    if |bits| >= w {
      var first, rest := bits[..w], bits[w..];
      SpreadChunk(rest, w);
      BitsRoundTrip(first);
      SpreadFirst(FromBits(first), Chunk(rest, w), w);
      Grouped(first, Spread(Chunk(rest, w), w), Rest(rest, w));
      Split(bits, w);
    }
  }

  lemma {:induction false} ChunkFits(bits: Bits, w: nat)
    requires w > 0
    ensures Fit(Chunk(bits, w), w)
  {
    if |bits| >= w {
      BitsRoundTrip(bits[..w]);
      ChunkFits(bits[w..], w);
    }
  }

  lemma {:induction false} WholeWords(words: seq<nat>)
    ensures |Spread(words, 5)| == 5 * |words| && |Spread(words, 8)| == 8 * |words|
  {
    if words != [] {
      WholeWords(words[1..]);
    }
  }

  lemma {:induction false} RestOfFives(bits: Bits)
    ensures |Rest(bits, 5)| == |bits| % 5 && |Chunk(bits, 5)| == |bits| / 5
  {
    if |bits| >= 5 {
      RestOfFives(bits[5..]);
    }
  }

  // ----- Letters -----

  predicate IsLetter(c: char) {
    'A' <= c <= 'Z' || '2' <= c <= '7'
  }

  function Letter(v: nat): char {
    if v < 26 then 'A' + v as char else if v < 32 then '2' + (v - 26) as char else '?'
  }

  function ValueOf(c: char): nat
    requires IsLetter(c)
  {
    if 'A' <= c <= 'Z' then (c - 'A') as nat else (c - '2') as nat + 26
  }

  function Letters(words: seq<nat>): (s: string)
    ensures |s| == |words|
  {
    if words == [] then [] else [Letter(words[0])] + Letters(words[1..])
  }

  function Values(s: string): Option<seq<nat>> {
    if s == [] then Some([])
    else if !IsLetter(s[0]) || Values(s[1..]).None? then None
    else Some([ValueOf(s[0])] + Values(s[1..]).value)
  }

  lemma {:induction false} LettersRoundTrip(words: seq<nat>)
    requires Fit(words, 5)
    ensures Values(Letters(words)) == Some(words)
    ensures forall i :: 0 <= i < |words| ==> IsLetter(Letters(words)[i])
  {
    assert Pow2(5) == 32 by { assert Pow2(2) == 4; }
    if words != [] {
      LettersRoundTrip(words[1..]);
      assert words == [words[0]] + words[1..];
    }
  }

  lemma {:induction false} ValuesRoundTrip(s: string)
    requires Values(s).Some?
    ensures Letters(Values(s).value) == s && Fit(Values(s).value, 5)
  {
    assert Pow2(5) == 32 by { assert Pow2(2) == 4; }
    if s != [] {
      ValuesRoundTrip(s[1..]);
    }
  }

  // ----- The encoding -----

  function Zeros(n: nat): (bits: Bits)
    ensures |bits| == n
  {
    if n == 0 then [] else Zeros(n - 1) + [false]
  }

  function Filled(bits: Bits): (filled: Bits)
    ensures |filled| % 5 == 0
  {
    bits + Zeros((5 - |bits| % 5) % 5)
  }

  /** The digits of the text before they become letters. */
  function Digits(b: Bytes): seq<nat> {
    Chunk(Filled(Spread(b, 8)), 5)
  }

  function Encode(b: Bytes): string {
    Letters(Digits(b))
  }

  /** Only letters; only lengths that whole bytes can have; only zero filling. */
  function Decode(s: string): Option<Bytes> {
    match Values(s)
    case None => None
    case Some(words) => Gathered(Spread(words, 5))
  }

  /** The bytes in a stream of fives, if only filling is left over. */
  function Gathered(bits: Bits): Option<Bytes> {
    var rest := Rest(bits, 8);
    if |rest| >= 5 || rest != Zeros(|rest|) then None else Some(AsBytes(Chunk(bits, 8)))
  }

  /** The words as bytes, which they are if they fit eight bits. */
  function AsBytes(words: seq<nat>): Bytes {
    if words == [] then [] else [words[0] % 256] + AsBytes(words[1..])
  }

  lemma {:induction false} AsBytesIs(words: seq<nat>)
    requires Fit(words, 8)
    ensures AsBytes(words) == words
  {
    assert Pow2(8) == 256 by { assert Pow2(4) == 16; }
    if words != [] {
      AsBytesIs(words[1..]);
      assert words == [words[0]] + words[1..];
    }
  }

  lemma {:induction false} BytesFit(b: Bytes)
    ensures Fit(b, 8)
  {
    assert Pow2(8) == 256 by { assert Pow2(4) == 16; }
  }

  lemma {:induction false} FilledIsWhole(bits: Bits)
    ensures Spread(Chunk(Filled(bits), 5), 5) == Filled(bits) && Fit(Chunk(Filled(bits), 5), 5)
    ensures |Chunk(Filled(bits), 5)| == (|bits| + 4) / 5
  {
    var filled := Filled(bits);
    RestOfFives(filled);
    SpreadChunk(filled, 5);
    ChunkFits(filled, 5);
    assert Spread(Chunk(filled, 5), 5) + [] == Spread(Chunk(filled, 5), 5);
  }

  lemma {:induction false} DecodeEncode(b: Bytes)
    ensures Decode(Encode(b)) == Some(b)
  {
    FilledIsWhole(Spread(b, 8));
    LettersRoundTrip(Digits(b));
    GatheredFilled(b);
  }

  lemma {:induction false} GatheredFilled(b: Bytes)
    ensures Gathered(Filled(Spread(b, 8))) == Some(b)
  {
    BytesFit(b);
    ChunkSpread(b, 8, Zeros((5 - |Spread(b, 8)| % 5) % 5));
    AsBytesIs(b);
  }

  /** Nothing decodes but what encoding produces. */
  lemma {:induction false} EncodeDecode(s: string)
    requires Decode(s).Some?
    ensures Encode(Decode(s).value) == s
  {
    var words := Values(s).value;
    ValuesRoundTrip(s);
    ChunkWhole(words);
    WordsGathered(words);
  }

  lemma {:induction false} WordsGathered(words: seq<nat>)
    requires Gathered(Spread(words, 5)).Some?
    ensures Filled(Spread(Gathered(Spread(words, 5)).value, 8)) == Spread(words, 5)
  {
    WholeWords(words);
    FilledGathered(Spread(words, 5));
  }

  lemma {:induction false} ChunkWhole(words: seq<nat>)
    requires Fit(words, 5)
    ensures Chunk(Spread(words, 5), 5) == words
  {
    ChunkSpread(words, 5, []);
    assert Spread(words, 5) + [] == Spread(words, 5);
  }

  lemma {:induction false} FilledGathered(bits: Bits)
    requires Gathered(bits).Some? && |bits| % 5 == 0
    ensures Filled(Spread(Gathered(bits).value, 8)) == bits
  {
    SpreadChunk(bits, 8);
    ChunkFits(bits, 8);
    AsBytesIs(Chunk(bits, 8));
    FillsUp(Spread(Chunk(bits, 8), 8), Rest(bits, 8));
  }

  lemma {:induction false} FillsUp(bits: Bits, rest: Bits)
    requires |rest| < 5 && rest == Zeros(|rest|) && (|bits| + |rest|) % 5 == 0
    ensures Filled(bits) == bits + rest
  {
    assert |rest| == (5 - |bits| % 5) % 5;
  }

  /** Eight bits a byte, five bits a letter, rounded up. */
  lemma {:induction false} EncodedLength(b: Bytes)
    ensures |Encode(b)| == (8 * |b| + 4) / 5
    ensures forall i :: 0 <= i < |Encode(b)| ==> IsLetter(Encode(b)[i])
  {
    WholeWords(b);
    FilledIsWhole(Spread(b, 8));
    LettersRoundTrip(Digits(b));
  }

  // ----- What the letters spell -----

  const ALPHABET: string := "ABCDEFGHIJKLMNOPQRSTUVWXYZ234567"

  /** The number some digits spell, each worth `w` bits, most significant first. */
  function Number(digits: seq<nat>, w: nat): nat {
    if digits == [] then 0 else Number(digits[..|digits| - 1], w) * Pow2(w) + digits[|digits| - 1]
  }

  lemma {:induction false} LetterIs(v: nat)
    requires v < 32
    ensures Letter(v) == ALPHABET[v] && IsLetter(ALPHABET[v]) && ValueOf(ALPHABET[v]) == v
  {
  }

  lemma {:induction false} Distribute(a: nat, b: nat, p: nat)
    ensures 2 * (a * p + b) == a * (2 * p) + 2 * b
  {
  }

  lemma {:induction false} BitsConcat(x: Bits, y: Bits)
    ensures FromBits(x + y) == FromBits(x) * Pow2(|y|) + FromBits(y)
  {
    if y == [] {
      assert x + y == x;
    } else {
      var front := y[..|y| - 1];
      BitsConcat(x, front);
      assert (x + y)[..|x + y| - 1] == x + front;
      Distribute(FromBits(x), FromBits(front), Pow2(|front|));
    }
  }

  lemma {:induction false} SpreadLast(words: seq<nat>, w: nat)
    requires words != []
    ensures Spread(words, w) == Spread(words[..|words| - 1], w) + ToBits(words[|words| - 1], w)
  {
    var front, last := words[..|words| - 1], words[|words| - 1];
    if |words| == 1 {
      assert words[1..] == [] && front == [];
      assert Spread(words, w) == ToBits(words[0], w) + [];
      assert [] + ToBits(last, w) == ToBits(last, w) == ToBits(words[0], w) + [];
    } else {
      SpreadLast(words[1..], w);
      assert words[1..][..|words| - 2] == front[1..];
      Grouped(ToBits(words[0], w), Spread(front[1..], w), ToBits(last, w));
    }
  }

  lemma {:induction false} SpreadSpells(words: seq<nat>, w: nat)
    requires Fit(words, w)
    ensures FromBits(Spread(words, w)) == Number(words, w)
  {
    if words != [] {
      var front, last := words[..|words| - 1], words[|words| - 1];
      SpreadLast(words, w);
      assert Fit(front, w);
      SpreadSpells(front, w);
      BitsConcat(Spread(front, w), ToBits(last, w));
      WordRoundTrip(last, w);
    }
  }

  lemma {:induction false} ZerosSpell(n: nat)
    ensures FromBits(Zeros(n)) == 0
  {
    if n > 0 {
      ZerosSpell(n - 1);
      assert Zeros(n)[..n - 1] == Zeros(n - 1);
    }
  }

  lemma {:induction false} LettersAre(words: seq<nat>)
    requires Fit(words, 5)
    ensures forall i :: 0 <= i < |words| ==> words[i] < 32 && Letters(words)[i] == ALPHABET[words[i]]
  {
    assert Pow2(5) == 32 by { assert Pow2(2) == 4; }
    if words != [] {
      LettersAre(words[1..]);
      LetterIs(words[0]);
      forall i | 0 <= i < |words|
        ensures Letters(words)[i] == ALPHABET[words[i]]
      {
        assert i > 0 ==> Letters(words)[i] == Letters(words[1..])[i - 1] && words[i] == words[1..][i - 1];
      }
    }
  }

  lemma {:induction false} FilledSpells(b: Bytes, fill: nat)
    requires fill == (5 - 8 * |b| % 5) % 5
    ensures FromBits(Filled(Spread(b, 8))) == Number(b, 8) * Pow2(fill)
  {
    WholeWords(b);
    BytesFit(b);
    SpreadSpells(b, 8);
    BitsConcat(Spread(b, 8), Zeros(fill));
    ZerosSpell(fill);
  }

  lemma {:induction false} DigitsSpell(b: Bytes, fill: nat)
    requires fill == (5 - 8 * |b| % 5) % 5
    ensures Number(Digits(b), 5) == Number(b, 8) * Pow2(fill)
  {
    FilledIsWhole(Spread(b, 8));
    SpreadSpells(Digits(b), 5);
    FilledSpells(b, fill);
  }

  lemma {:induction false} Fives(n: nat, fill: nat)
    requires fill == (5 - n % 5) % 5
    ensures 5 * ((n + 4) / 5) == n + fill
  {
  }

  lemma {:induction false} DigitsCount(b: Bytes, fill: nat)
    requires fill == (5 - 8 * |b| % 5) % 5
    ensures 5 * |Digits(b)| == 8 * |b| + fill && Fit(Digits(b), 5)
  {
    WholeWords(b);
    FilledIsWhole(Spread(b, 8));
    Fives(8 * |b|, fill);
  }

  /** The text spells the bytes: its letters are digits of the alphabet, as many as
      the bits need, and the number they make to base 32 is the one the bytes make
      to base 256, moved up by the zero bits that fill the last digit. */
  lemma {:induction false} EncodeSpells(b: Bytes, fill: nat) returns (digits: seq<nat>)
    requires fill == (5 - 8 * |b| % 5) % 5
    ensures 5 * |digits| == 8 * |b| + fill && |Encode(b)| == |digits|
    ensures forall i :: 0 <= i < |digits| ==> digits[i] < 32 && Encode(b)[i] == ALPHABET[digits[i]]
    ensures Number(digits, 5) == Number(b, 8) * Pow2(fill)
  {
    digits := Digits(b);
    DigitsCount(b, fill);
    LettersAre(digits);
    DigitsSpell(b, fill);
  }
}
