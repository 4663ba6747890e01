/** Texts as what they spell: which bytes are texts, and what a display name may
    hold, by characters. */
module Unicode {
  import opened Common
  import opened Postcard

  /** Everything up to 0x10FFFF that is no surrogate. */
  predicate IsScalar(c: nat) {
    c < 0xD800 || 0xE000 <= c < 0x11_0000
  }

  /** One to four bytes, section 3 of RFC 3629. */
  function EncodeScalar(c: nat): Bytes
    requires IsScalar(c)
  {
    if c < 0x80 then [c]
    else if c < 0x800 then [0xC0 + c / 0x40, 0x80 + c % 0x40]
    else if c < 0x1_0000 then [0xE0 + c / 0x1000, 0x80 + c / 0x40 % 0x40, 0x80 + c % 0x40]
    else [0xF0 + c / 0x4_0000, 0x80 + c / 0x1000 % 0x40, 0x80 + c / 0x40 % 0x40, 0x80 + c % 0x40]
  }

  ghost predicate AllScalars(cs: seq<nat>) {
    forall i :: 0 <= i < |cs| ==> IsScalar(cs[i])
  }

  function EncodeText(cs: seq<nat>): Bytes
    requires AllScalars(cs)
  {
    if cs == [] then [] else EncodeScalar(cs[0]) + EncodeText(cs[1..])
  }

  /** A character's digits to base 64. */
  lemma {:induction false} SpelledDigits(w: nat, x: nat, y: nat, z: nat)
    requires x < 0x40 && y < 0x40 && z < 0x40
    ensures var c := ((w * 0x40 + x) * 0x40 + y) * 0x40 + z;
            c % 0x40 == z && c / 0x40 % 0x40 == y && c / 0x1000 % 0x40 == x && c / 0x4_0000 == w
  {
    var c := ((w * 0x40 + x) * 0x40 + y) * 0x40 + z;
    assert c / 0x40 == (w * 0x40 + x) * 0x40 + y;
    assert c / 0x1000 == w * 0x40 + x;
  }

  /** A text begins with a character, and a text follows it. */
  ghost predicate Begins(b: Bytes, c: nat, n: nat) {
    1 <= n <= |b| && IsScalar(c) && EncodeScalar(c) == b[..n] && IsUtf8(b[n..])
  }

  lemma {:induction false} BeginsWithTwo(b: Bytes) returns (c: nat)
    requires b != [] && IsUtf8(b) && 0xC2 <= b[0] < 0xE0
    ensures Begins(b, c, 2)
  {
    var y: nat, z: nat := b[0] - 0xC0, b[1] - 0x80;
    c := y * 0x40 + z;
    assert c / 0x40 == y && c % 0x40 == z;
    assert EncodeScalar(c) == [b[0], b[1]];
  }

  lemma {:induction false} BeginsWithThree(b: Bytes) returns (c: nat)
    requires b != [] && IsUtf8(b) && 0xE0 <= b[0] < 0xF0
    ensures Begins(b, c, 3)
  {
    var x: nat, y: nat, z: nat := b[0] - 0xE0, b[1] - 0x80, b[2] - 0x80;
    c := (x * 0x40 + y) * 0x40 + z;
    SpelledDigits(0, x, y, z);
    assert 0x800 <= c < 0x1_0000 && IsScalar(c);
    assert c / 0x1000 == x;
    assert EncodeScalar(c) == [b[0], b[1], b[2]];
  }

  lemma {:induction false} BeginsWithFour(b: Bytes) returns (c: nat)
    requires b != [] && IsUtf8(b) && 0xF0 <= b[0]
    ensures Begins(b, c, 4)
  {
    var w: nat, x: nat, y: nat, z: nat := b[0] - 0xF0, b[1] - 0x80, b[2] - 0x80, b[3] - 0x80;
    c := ((w * 0x40 + x) * 0x40 + y) * 0x40 + z;
    SpelledDigits(w, x, y, z);
    assert 0x1_0000 <= c < 0x11_0000;
    assert EncodeScalar(c) == [b[0], b[1], b[2], b[3]];
  }

  lemma {:induction false} BeginsWith(b: Bytes) returns (c: nat, n: nat)
    requires b != [] && IsUtf8(b)
    ensures Begins(b, c, n)
  {
    if b[0] < 0x80 {
      c, n := b[0], 1;
      assert EncodeScalar(c) == b[..1];
    } else if b[0] < 0xE0 {
      c := BeginsWithTwo(b);
      n := 2;
    } else if b[0] < 0xF0 {
      c := BeginsWithThree(b);
      n := 3;
    } else {
      c := BeginsWithFour(b);
      n := 4;
    }
  }

  /** Any character may stand in front of a text. */
  lemma {:induction false} ScalarLeads(c: nat, rest: Bytes)
    requires IsScalar(c) && IsUtf8(rest)
    ensures IsUtf8(EncodeScalar(c) + rest)
  {
    var b, e := EncodeScalar(c) + rest, EncodeScalar(c);
    assert b[|e|..] == rest;
    assert forall i :: 0 <= i < |e| ==> b[i] == e[i];
    if 0x80 <= c < 0x800 {
      assert 2 <= c / 0x40 < 0x20;
    } else if 0x800 <= c < 0x1_0000 {
      ThreeLead(c);
    } else if 0x1_0000 <= c {
      FourLead(c);
    }
  }

  lemma {:induction false} ThreeLead(c: nat)
    requires 0x800 <= c < 0x1_0000 && IsScalar(c)
    ensures c / 0x1000 < 0x10
    ensures c / 0x1000 == 0 ==> c / 0x40 % 0x40 >= 0x20
    ensures c / 0x1000 == 0xD ==> c / 0x40 % 0x40 < 0x20
  {
  }

  lemma {:induction false} FourLead(c: nat)
    requires 0x1_0000 <= c < 0x11_0000
    ensures c / 0x4_0000 < 5
    ensures c / 0x4_0000 == 0 ==> c / 0x1000 % 0x40 >= 0x10
    ensures c / 0x4_0000 == 4 ==> c / 0x1000 % 0x40 < 0x10
  {
  }

  lemma {:induction false} TextDecodes(b: Bytes) returns (cs: seq<nat>)
    requires IsUtf8(b)
    ensures AllScalars(cs) && EncodeText(cs) == b
  {
    cs := [];
    if b != [] {
      var c, n := BeginsWith(b);
      var rest := TextDecodes(b[n..]);
      cs := [c] + rest;
      assert cs[1..] == rest && b == b[..n] + b[n..];
    }
  }

  lemma {:induction false} TextIsUtf8(cs: seq<nat>)
    requires AllScalars(cs)
    ensures IsUtf8(EncodeText(cs))
  {
    if cs != [] {
      TextIsUtf8(cs[1..]);
      ScalarLeads(cs[0], EncodeText(cs[1..]));
    }
  }

  /** Bytes are a text if and only if they spell some characters. */
  lemma {:induction false} Utf8Exactly(b: Bytes)
    ensures IsUtf8(b) <==> exists cs :: AllScalars(cs) && EncodeText(cs) == b
  {
    if IsUtf8(b) {
      var cs := TextDecodes(b);
    }
    if cs :| AllScalars(cs) && EncodeText(cs) == b {
      TextIsUtf8(cs);
    }
  }
}
