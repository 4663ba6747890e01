/** The postcard encoding, as far as the wire formats use it: little-endian
    base-128 integers, length-prefixed bytes and lists, options, fixed arrays
    and records, decoded from the front of the input. */
module Postcard {
  import opened Common

  datatype Parsed<+T> = Parsed(value: T, rest: Bytes) | Malformed

  /** An encoder and its decoder, for the values `ok` admits. */
  datatype Codec<!T> = Codec(ok: T -> bool, enc: T -> Bytes, dec: Bytes -> Parsed<T>)

  /** The decoder takes an encoded value off the front of anything. */
  ghost predicate Inverts<T(!new)>(c: Codec<T>) {
    forall t, tail :: c.ok(t) ==> c.dec(c.enc(t) + tail) == Parsed(t, tail)
  }

  /** What is decoded is admitted, and no encoding of it is shorter than its own. */
  ghost predicate IsTight<T(!new)>(c: Codec<T>) {
    forall b :: c.dec(b).Parsed? ==> c.ok(c.dec(b).value) && |c.enc(c.dec(b).value)| + |c.dec(b).rest| <= |b|
  }

  ghost predicate Lawful<T(!new)>(c: Codec<T>) {
    Inverts(c) && IsTight(c)
  }

  lemma {:induction false} ComesBack<T(!new)>(c: Codec<T>, t: T, tail: Bytes)
    requires Lawful(c) && c.ok(t)
    ensures c.dec(c.enc(t) + tail) == Parsed(t, tail)
  {
  }

  // ----- Integers -----

  function Varint(n: nat): Bytes {
    if n < 128 then [n] else [n % 128 + 128] + Varint(n / 128)
  }

  /** At most `left` bytes, the last of all no larger than `last`. */
  function TakeVarint(b: Bytes, left: nat, last: Byte): Parsed<nat> {
    if left == 0 || b == [] then Malformed
    else if b[0] < 128 then
      if left == 1 && b[0] > last then Malformed else Parsed(b[0], b[1..])
    else
      var high := TakeVarint(b[1..], left - 1, last);
      if high.Malformed? then Malformed else Parsed(b[0] - 128 + 128 * high.value, high.rest)
  }

  function Limit(left: nat, last: Byte): nat {
    if left == 0 then 0 else if left == 1 then last + 1 else 128 * Limit(left - 1, last)
  }

  lemma {:induction false} VarintInverts(n: nat, tail: Bytes, left: nat, last: Byte)
    requires n < Limit(left, last) && last < 128
    ensures TakeVarint(Varint(n) + tail, left, last) == Parsed(n, tail)
  {
    var b := Varint(n) + tail;
    if n < 128 {
      assert b == [n] + tail;
    } else {
      assert b[1..] == Varint(n / 128) + tail;
      VarintInverts(n / 128, tail, left - 1, last);
    }
  }

  lemma {:induction false} VarintIsTight(b: Bytes, left: nat, last: Byte)
    requires TakeVarint(b, left, last).Parsed? && last < 128
    ensures TakeVarint(b, left, last).value < Limit(left, last)
    ensures |Varint(TakeVarint(b, left, last).value)| + |TakeVarint(b, left, last).rest| <= |b|
  {
    if b[0] >= 128 {
      VarintIsTight(b[1..], left - 1, last);
    } else {
      LimitGrows(left, last);
    }
  }

  lemma {:induction false} LimitGrows(left: nat, last: Byte)
    ensures left > 1 ==> Limit(left, last) >= 128
    ensures left > 0 ==> Limit(left, last) >= 1
  {
    if left > 1 {
      LimitGrows(left - 1, last);
    }
  }

  function UInt(left: nat, last: Byte): Codec<nat> {
    Codec((n: nat) => n < Limit(left, last), (n: nat) => Varint(n), (b: Bytes) => TakeVarint(b, left, last))
  }

  const U16 := UInt(3, 3)
  const U32 := UInt(5, 15)
  const U64 := UInt(10, 1)

  lemma {:induction false} UIntIsLawful(left: nat, last: Byte)
    requires last < 128
    ensures Lawful(UInt(left, last))
  {
    var c := UInt(left, last);
    forall n: nat, tail: Bytes | c.ok(n)
      ensures c.dec(c.enc(n) + tail) == Parsed(n, tail)
    {
      VarintInverts(n, tail, left, last);
    }
    forall b | c.dec(b).Parsed?
      ensures c.ok(c.dec(b).value) && |c.enc(c.dec(b).value)| + |c.dec(b).rest| <= |b|
    {
      VarintIsTight(b, left, last);
    }
  }

  /** The number some bytes spell, seven bits each, least significant first. */
  function Sevens(b: Bytes): nat {
    if b == [] then 0 else b[0] % 128 + 128 * Sevens(b[1..])
  }

  /** An integer is spelled by its sevens: every byte but the last has its top bit
      set, and the last is no zero unless it is the only one. */
  lemma {:induction false} VarintSpells(n: nat)
    ensures Varint(n) != [] && Sevens(Varint(n)) == n
    ensures forall i :: 0 <= i < |Varint(n)| ==> (Varint(n)[i] >= 128 <==> i < |Varint(n)| - 1)
    ensures |Varint(n)| > 1 ==> Varint(n)[|Varint(n)| - 1] != 0
  {
    if n >= 128 {
      VarintSpells(n / 128);
      assert Varint(n)[1..] == Varint(n / 128);
    }
  }

  /** The largest values: 2^16 - 1, 2^32 - 1 and 2^64 - 1. */
  lemma {:induction false} WordLimits()
    ensures Limit(3, 3) == 0x1_0000 && Limit(5, 15) == 0x1_0000_0000 && Limit(10, 1) == 0x1_0000_0000_0000_0000
  {
    assert Limit(2, 3) == 512;
    assert Limit(2, 15) == 0x800 && Limit(3, 15) == 0x4_0000 && Limit(4, 15) == 0x200_0000;
    assert Limit(2, 1) == 0x100 && Limit(3, 1) == 0x8000 && Limit(4, 1) == 0x40_0000 && Limit(5, 1) == 0x2000_0000;
    assert Limit(6, 1) == 0x10_0000_0000 && Limit(7, 1) == 0x800_0000_0000 && Limit(8, 1) == 0x4_0000_0000_0000;
    assert Limit(9, 1) == 0x200_0000_0000_0000;
  }

  /** The words as the program has them. */
  lemma {:induction false} WordsOk(n: nat)
    ensures U16.ok(n) <==> n <= 0xFFFF
    ensures U32.ok(n) <==> n <= 0xFFFF_FFFF
    ensures U64.ok(n) <==> n <= 0xFFFF_FFFF_FFFF_FFFF
  {
    WordLimits();
  }

  // ----- Bytes -----

  /** Exactly `n` raw bytes, as for a fixed array. */
  function Raw(n: nat): Codec<Bytes> {
    Codec((x: Bytes) => |x| == n, (x: Bytes) => x, (b: Bytes) => if |b| < n then Malformed else Parsed(b[..n], b[n..]))
  }

  lemma {:induction false} RawIsLawful(n: nat)
    ensures Lawful(Raw(n))
  {
    var c := Raw(n);
    forall t, tail | c.ok(t)
      ensures c.dec(c.enc(t) + tail) == Parsed(t, tail)
    {
      assert (t + tail)[..n] == t && (t + tail)[n..] == tail;
    }
  }

  /** One byte below `n`, as for a truth value, an enum tag or an option tag. */
  function Tag(n: nat): Codec<Byte> {
    Codec((x: Byte) => x < n, (x: Byte) => [x],
          (b: Bytes) => if b == [] || b[0] >= n then Malformed else Parsed(b[0], b[1..]))
  }

  lemma {:induction false} TagIsLawful(n: nat)
    ensures Lawful(Tag(n))
  {
    var c := Tag(n);
    forall t, tail | c.ok(t)
      ensures c.dec(c.enc(t) + tail) == Parsed(t, tail)
    {
      assert ([t] + tail)[1..] == tail;
    }
  }

  // ----- Combinations -----

  function Both<A, B>(c: Codec<A>, d: Codec<B>): Codec<(A, B)> {
    Codec((p: (A, B)) => c.ok(p.0) && d.ok(p.1), (p: (A, B)) => c.enc(p.0) + d.enc(p.1),
          (b: Bytes) =>
            match c.dec(b)
            case Malformed => Malformed
            case Parsed(x, rest) =>
              match d.dec(rest)
              case Malformed => Malformed
              case Parsed(y, end) => Parsed((x, y), end))
  }

  lemma {:induction false} BothIs<A, B>(c: Codec<A>, d: Codec<B>, p: (A, B))
    ensures Both(c, d).enc(p) == c.enc(p.0) + d.enc(p.1)
    ensures Both(c, d).ok(p) <==> c.ok(p.0) && d.ok(p.1)
  {
  }

  lemma {:induction false} BothReads<A, B>(c: Codec<A>, d: Codec<B>, b: Bytes)
    ensures Both(c, d).dec(b) ==
            match c.dec(b)
            case Malformed => Malformed
            case Parsed(x, rest) =>
              match d.dec(rest)
              case Malformed => Malformed
              case Parsed(y, end) => Parsed((x, y), end)
  {
  }

  lemma {:induction false} BothIsLawful<A(!new), B(!new)>(c: Codec<A>, d: Codec<B>)
    requires Lawful(c) && Lawful(d)
    ensures Lawful(Both(c, d))
  {
    var e := Both(c, d);
    forall p, tail | e.ok(p)
      ensures e.dec(e.enc(p) + tail) == Parsed(p, tail)
    {
      assert e.enc(p) + tail == c.enc(p.0) + (d.enc(p.1) + tail);
    }
    forall b | e.dec(b).Parsed?
      ensures e.ok(e.dec(b).value) && |e.enc(e.dec(b).value)| + |e.dec(b).rest| <= |b|
    {
      var x := c.dec(b);
      var y := d.dec(x.rest);
      assert e.dec(b) == Parsed((x.value, y.value), y.rest);
    }
  }

  /** The same bytes read as something else. */
  function Via<A, B>(c: Codec<A>, to: A -> B, from: B -> A): Codec<B> {
    Codec((y: B) => c.ok(from(y)), (y: B) => c.enc(from(y)),
          (b: Bytes) =>
            match c.dec(b)
            case Malformed => Malformed
            case Parsed(x, rest) => Parsed(to(x), rest))
  }

  lemma {:induction false} ViaIs<A, B>(c: Codec<A>, to: A -> B, from: B -> A, y: B)
    ensures Via(c, to, from).enc(y) == c.enc(from(y))
    ensures Via(c, to, from).ok(y) <==> c.ok(from(y))
  {
  }

  lemma {:induction false} ViaIsLawful<A(!new), B(!new)>(c: Codec<A>, to: A -> B, from: B -> A)
    requires Lawful(c) && (forall y :: to(from(y)) == y) && (forall x :: c.ok(x) ==> from(to(x)) == x)
    ensures Lawful(Via(c, to, from))
  {
    var e := Via(c, to, from);
    forall y, tail | e.ok(y)
      ensures e.dec(e.enc(y) + tail) == Parsed(y, tail)
    {
      assert c.dec(c.enc(from(y)) + tail) == Parsed(from(y), tail);
    }
    forall b | e.dec(b).Parsed?
      ensures e.ok(e.dec(b).value) && |e.enc(e.dec(b).value)| + |e.dec(b).rest| <= |b|
    {
      assert c.ok(c.dec(b).value);
      assert from(to(c.dec(b).value)) == c.dec(b).value;
    }
  }

  /** Only the values that are `good`. */
  function Where<A>(c: Codec<A>, good: A -> bool): Codec<A> {
    Codec((x: A) => c.ok(x) && good(x), c.enc,
          (b: Bytes) => if c.dec(b).Parsed? && good(c.dec(b).value) then c.dec(b) else Malformed)
  }

  lemma {:induction false} WhereIsLawful<A(!new)>(c: Codec<A>, good: A -> bool)
    requires Lawful(c)
    ensures Lawful(Where(c, good))
  {
  }

  function Opt<A>(c: Codec<A>): Codec<Option<A>> {
    Codec((o: Option<A>) => o.Some? ==> c.ok(o.value), (o: Option<A>) => if o.None? then [0] else [1] + c.enc(o.value),
          (b: Bytes) =>
            if b == [] || b[0] > 1 then Malformed
            else if b[0] == 0 then Parsed(None, b[1..])
            else
              match c.dec(b[1..])
              case Malformed => Malformed
              case Parsed(x, rest) => Parsed(Some(x), rest))
  }

  lemma {:induction false} OptIsLawful<A(!new)>(c: Codec<A>)
    requires Lawful(c)
    ensures Lawful(Opt(c))
  {
    var e := Opt(c);
    forall o, tail | e.ok(o)
      ensures e.dec(e.enc(o) + tail) == Parsed(o, tail)
    {
      if o.None? {
        assert ([0] + tail)[1..] == tail;
      } else {
        assert (e.enc(o) + tail)[1..] == c.enc(o.value) + tail;
      }
    }
    forall b | e.dec(b).Parsed?
      ensures e.ok(e.dec(b).value) && |e.enc(e.dec(b).value)| + |e.dec(b).rest| <= |b|
    {
      if b[0] == 1 {
        assert c.dec(b[1..]).Parsed?;
      }
    }
  }

  /** `n` values one after the other. */
  function EncodeAll<A>(c: Codec<A>, items: seq<A>): Bytes {
    if items == [] then [] else c.enc(items[0]) + EncodeAll(c, items[1..])
  }

  function TakeAll<A>(c: Codec<A>, n: nat, b: Bytes): Parsed<seq<A>> {
    if n == 0 then Parsed([], b)
    else
      match c.dec(b)
      case Malformed => Malformed
      case Parsed(x, rest) =>
        match TakeAll(c, n - 1, rest)
        case Malformed => Malformed
        case Parsed(xs, end) => Parsed([x] + xs, end)
  }

  predicate AllOk<A>(c: Codec<A>, items: seq<A>) {
    items == [] || (c.ok(items[0]) && AllOk(c, items[1..]))
  }

  lemma {:induction false} AllInvert<A(!new)>(c: Codec<A>, items: seq<A>, tail: Bytes)
    requires Lawful(c) && AllOk(c, items)
    ensures TakeAll(c, |items|, EncodeAll(c, items) + tail) == Parsed(items, tail)
  {
    if items != [] {
      AllInvert(c, items[1..], tail);
      assert EncodeAll(c, items) + tail == c.enc(items[0]) + (EncodeAll(c, items[1..]) + tail);
      assert [items[0]] + items[1..] == items;
    }
  }

  lemma {:induction false} AllAreTight<A(!new)>(c: Codec<A>, n: nat, b: Bytes)
    requires Lawful(c) && TakeAll(c, n, b).Parsed?
    ensures var p := TakeAll(c, n, b); |p.value| == n && AllOk(c, p.value) && |EncodeAll(c, p.value)| + |p.rest| <= |b|
  {
    if n > 0 {
      var x := c.dec(b);
      AllAreTight(c, n - 1, x.rest);
      var xs := TakeAll(c, n - 1, x.rest).value;
      assert ([x.value] + xs)[1..] == xs;
    }
  }

  /** A list: how many, then each. Lengths are 64-bit words. */
  function Many<A>(c: Codec<A>): Codec<seq<A>> {
    Codec((xs: seq<A>) => |xs| < Limit(10, 1) && AllOk(c, xs), (xs: seq<A>) => Varint(|xs|) + EncodeAll(c, xs),
          (b: Bytes) =>
            match TakeVarint(b, 10, 1)
            case Malformed => Malformed
            case Parsed(n, rest) => TakeAll(c, n, rest))
  }

  lemma {:induction false} ManyIsLawful<A(!new)>(c: Codec<A>)
    requires Lawful(c)
    ensures Lawful(Many(c))
  {
    var e := Many(c);
    forall xs, tail | e.ok(xs)
      ensures e.dec(e.enc(xs) + tail) == Parsed(xs, tail)
    {
      ManyInverts(c, xs, tail);
    }
    forall b | e.dec(b).Parsed?
      ensures e.ok(e.dec(b).value) && |e.enc(e.dec(b).value)| + |e.dec(b).rest| <= |b|
    {
      ManyIsTight(c, b);
    }
  }

  lemma {:induction false} ManyInverts<A(!new)>(c: Codec<A>, xs: seq<A>, tail: Bytes)
    requires Lawful(c) && Many(c).ok(xs)
    ensures Many(c).dec(Many(c).enc(xs) + tail) == Parsed(xs, tail)
  {
    VarintInverts(|xs|, EncodeAll(c, xs) + tail, 10, 1);
    assert (Varint(|xs|) + EncodeAll(c, xs)) + tail == Varint(|xs|) + (EncodeAll(c, xs) + tail);
    AllInvert(c, xs, tail);
  }

  lemma {:induction false} ManyIsTight<A(!new)>(c: Codec<A>, b: Bytes)
    requires Lawful(c) && Many(c).dec(b).Parsed?
    ensures var p := Many(c).dec(b); Many(c).ok(p.value) && |Many(c).enc(p.value)| + |p.rest| <= |b|
  {
    VarintIsTight(b, 10, 1);
    var n := TakeVarint(b, 10, 1);
    AllAreTight(c, n.value, n.rest);
  }

  /** Length-prefixed bytes. */
  const Blob: Codec<Bytes> :=
    Codec((x: Bytes) => |x| < Limit(10, 1), (x: Bytes) => Varint(|x|) + x,
          (b: Bytes) =>
            match TakeVarint(b, 10, 1)
            case Malformed => Malformed
            case Parsed(n, rest) => if |rest| < n then Malformed else Parsed(rest[..n], rest[n..]))

  lemma {:induction false} BlobIsLawful()
    ensures Lawful(Blob)
  {
    forall x, tail | Blob.ok(x)
      ensures Blob.dec(Blob.enc(x) + tail) == Parsed(x, tail)
    {
      VarintInverts(|x|, x + tail, 10, 1);
      assert Blob.enc(x) + tail == Varint(|x|) + (x + tail);
      assert (x + tail)[..|x|] == x && (x + tail)[|x|..] == tail;
    }
    forall b | Blob.dec(b).Parsed?
      ensures Blob.ok(Blob.dec(b).value) && |Blob.enc(Blob.dec(b).value)| + |Blob.dec(b).rest| <= |b|
    {
      VarintIsTight(b, 10, 1);
    }
  }

  // ----- Text -----

  predicate Continues(b: Bytes, i: nat) {
    i < |b| && 0x80 <= b[i] < 0xC0
  }

  /** Well-formed UTF-8, section 4 of RFC 3629. */
  predicate IsUtf8(b: Bytes) {
    if b == [] then true
    else if b[0] < 0x80 then IsUtf8(b[1..])
    else if 0xC2 <= b[0] < 0xE0 then Continues(b, 1) && IsUtf8(b[2..])
    else if 0xE0 <= b[0] < 0xF0 then
      Continues(b, 1) && Continues(b, 2) && (b[0] == 0xE0 ==> b[1] >= 0xA0) && (b[0] == 0xED ==> b[1] < 0xA0) &&
      IsUtf8(b[3..])
    else if 0xF0 <= b[0] < 0xF5 then
      Continues(b, 1) && Continues(b, 2) && Continues(b, 3) && (b[0] == 0xF0 ==> b[1] >= 0x90) &&
      (b[0] == 0xF4 ==> b[1] < 0x90) && IsUtf8(b[4..])
    else false
  }

  const Text: Codec<Bytes> := Where(Blob, IsUtf8)

  lemma {:induction false} TextOk(b: Bytes)
    ensures Text.ok(b) <==> IsUtf8(b) && |b| <= 0xFFFF_FFFF_FFFF_FFFF
    ensures Blob.ok(b) <==> |b| <= 0xFFFF_FFFF_FFFF_FFFF
  {
    WordLimits();
  }

  lemma {:induction false} TextIsLawful()
    ensures Lawful(Text)
  {
    BlobIsLawful();
    WhereIsLawful(Blob, IsUtf8);
  }

  function ToFlag(x: Byte): bool {
    x == 1
  }

  function FromFlag(f: bool): Byte {
    if f then 1 else 0
  }

  const Flag: Codec<bool> := Via(Tag(2), ToFlag, FromFlag)

  lemma {:induction false} FlagIsLawful()
    ensures Lawful(Flag)
  {
    TagIsLawful(2);
    ViaIsLawful(Tag(2), ToFlag, FromFlag);
  }
}
