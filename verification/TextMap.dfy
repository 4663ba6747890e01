/** An ordered map of texts on the wire: its pairs by ascending key. Reading
    takes pairs in any order, a later pair replacing an earlier one. */
module TextMap {
  import opened Common
  import opened Postcard

  type Entry = (Bytes, Bytes)
  type Entries = seq<Entry>

  // ----- The order of keys -----

  predicate Before(a: Bytes, b: Bytes) {
    b != [] && (a == [] || a[0] < b[0] || (a[0] == b[0] && Before(a[1..], b[1..])))
  }

  /** Byte by byte: up to some place the two agree, and there the first has ended,
      or has the smaller byte. */
  lemma {:induction false} BeforeExactly(a: Bytes, b: Bytes)
    ensures Before(a, b) <==>
            exists i :: 0 <= i <= |a| && i < |b| && a[..i] == b[..i] && (i == |a| || a[i] < b[i])
  {
    if b != [] && a != [] && a[0] == b[0] {
      BeforeExactly(a[1..], b[1..]);
      forall i | 0 <= i < |a| && i + 1 < |b|
        ensures a[..i + 1] == b[..i + 1] <==> a[1..][..i] == b[1..][..i]
      {
        assert a[..i + 1] == [a[0]] + a[1..][..i] && b[..i + 1] == [b[0]] + b[1..][..i];
      }
      if Before(a, b) {
        var j :| 0 <= j <= |a[1..]| && j < |b[1..]| && a[1..][..j] == b[1..][..j] &&
                 (j == |a[1..]| || a[1..][j] < b[1..][j]);
        assert a[..j + 1] == b[..j + 1] && (j + 1 == |a| || a[j + 1] < b[j + 1]);
      }
      if i :| 0 <= i <= |a| && i < |b| && a[..i] == b[..i] && (i == |a| || a[i] < b[i]) {
        assert i > 0;
        assert a[1..][..i - 1] == b[1..][..i - 1] && (i - 1 == |a[1..]| || a[1..][i - 1] < b[1..][i - 1]);
      }
    } else if b != [] {
      assert a[..0] == b[..0] == [];
      if i :| 0 <= i <= |a| && i < |b| && a[..i] == b[..i] && (i == |a| || a[i] < b[i]) {
        assert i > 0 ==> a[..i][0] == b[..i][0];
      }
    }
  }

  lemma {:induction false} BeforeIsStrict(a: Bytes, b: Bytes)
    requires Before(a, b)
    ensures a != b && !Before(b, a)
  {
    if a != [] && a[0] == b[0] {
      BeforeIsStrict(a[1..], b[1..]);
    }
  }

  lemma {:induction false} BeforeIsTotal(a: Bytes, b: Bytes)
    ensures a == b || Before(a, b) || Before(b, a)
  {
    if a != [] && b != [] && a[0] == b[0] {
      BeforeIsTotal(a[1..], b[1..]);
      assert a == [a[0]] + a[1..] && b == [b[0]] + b[1..];
    }
  }

  lemma {:induction false} BeforeIsTransitive(a: Bytes, b: Bytes, c: Bytes)
    requires Before(a, b) && Before(b, c)
    ensures Before(a, c)
  {
    if a != [] && a[0] == b[0] && b[0] == c[0] {
      BeforeIsTransitive(a[1..], b[1..], c[1..]);
    }
  }

  /** Every key comes before all the keys after it. */
  predicate Ascends(xs: Entries) {
    xs == [] || (AllAfter(xs[0].0, xs[1..]) && Ascends(xs[1..]))
  }

  predicate AllAfter(key: Bytes, xs: Entries) {
    xs == [] || (Before(key, xs[0].0) && AllAfter(key, xs[1..]))
  }

  lemma {:induction false} AllAfterWeakens(low: Bytes, key: Bytes, xs: Entries)
    requires Before(low, key) && AllAfter(key, xs)
    ensures AllAfter(low, xs)
  {
    if xs != [] {
      BeforeIsTransitive(low, key, xs[0].0);
      AllAfterWeakens(low, key, xs[1..]);
    }
  }

  // ----- Insertion -----

  function Inserted(xs: Entries, e: Entry): Entries {
    if xs == [] then [e]
    else if e.0 == xs[0].0 then [e] + xs[1..]
    else if Before(e.0, xs[0].0) then [e] + xs
    else [xs[0]] + Inserted(xs[1..], e)
  }

  lemma {:induction false} InsertedAfter(xs: Entries, e: Entry, key: Bytes)
    requires AllAfter(key, xs) && Before(key, e.0)
    ensures AllAfter(key, Inserted(xs, e))
  {
    if xs != [] {
      if e.0 == xs[0].0 {
        assert ([e] + xs[1..])[1..] == xs[1..];
      } else if Before(e.0, xs[0].0) {
        assert ([e] + xs)[1..] == xs;
      } else {
        InsertedAfter(xs[1..], e, key);
        assert ([xs[0]] + Inserted(xs[1..], e))[1..] == Inserted(xs[1..], e);
      }
    }
  }

  lemma {:induction false} InsertedAscends(xs: Entries, e: Entry)
    requires Ascends(xs)
    ensures Ascends(Inserted(xs, e))
  {
    if xs != [] {
      if e.0 == xs[0].0 {
        assert ([e] + xs[1..])[1..] == xs[1..];
      } else if Before(e.0, xs[0].0) {
        assert ([e] + xs)[1..] == xs;
        AllAfterWeakens(e.0, xs[0].0, xs[1..]);
      } else {
        BeforeIsTotal(e.0, xs[0].0);
        InsertedAscends(xs[1..], e);
        InsertedAfter(xs[1..], e, xs[0].0);
        assert ([xs[0]] + Inserted(xs[1..], e))[1..] == Inserted(xs[1..], e);
      }
    }
  }

  /** Does every key of `xs` come before `key`? */
  predicate AllBefore(xs: Entries, key: Bytes) {
    xs == [] || (Before(xs[0].0, key) && AllBefore(xs[1..], key))
  }

  lemma {:induction false} InsertedLast(xs: Entries, e: Entry)
    requires AllBefore(xs, e.0)
    ensures Inserted(xs, e) == xs + [e]
  {
    if xs != [] {
      BeforeIsStrict(xs[0].0, e.0);
      InsertedLast(xs[1..], e);
      assert [xs[0]] + (xs[1..] + [e]) == xs + [e];
    }
  }

  /** The pairs read, one after the other, into an ordered map. */
  function Gathered(xs: Entries): Entries {
    if xs == [] then [] else Inserted(Gathered(xs[..|xs| - 1]), xs[|xs| - 1])
  }

  lemma {:induction false} GatheredAscends(xs: Entries)
    ensures Ascends(Gathered(xs))
  {
    if xs != [] {
      GatheredAscends(xs[..|xs| - 1]);
      InsertedAscends(Gathered(xs[..|xs| - 1]), xs[|xs| - 1]);
    }
  }

  lemma {:induction false} AscendingFront(xs: Entries)
    requires Ascends(xs) && xs != []
    ensures Ascends(xs[..|xs| - 1]) && AllBefore(xs[..|xs| - 1], xs[|xs| - 1].0)
  {
    var front := xs[..|xs| - 1];
    if |xs| > 1 {
      AscendingFront(xs[1..]);
      assert front[1..] == xs[1..][..|xs| - 2];
      FrontAfter(xs[0].0, xs[1..]);
    }
  }

  lemma {:induction false} FrontAfter(key: Bytes, xs: Entries)
    requires AllAfter(key, xs) && xs != []
    ensures AllAfter(key, xs[..|xs| - 1]) && Before(key, xs[|xs| - 1].0)
  {
    if |xs| > 1 {
      FrontAfter(key, xs[1..]);
      assert xs[..|xs| - 1][1..] == xs[1..][..|xs| - 2];
    }
  }

  /** A map read in its own order comes out as it is. */
  lemma {:induction false} GatheredIs(xs: Entries)
    requires Ascends(xs)
    ensures Gathered(xs) == xs
  {
    if xs != [] {
      AscendingFront(xs);
      GatheredIs(xs[..|xs| - 1]);
      InsertedLast(xs[..|xs| - 1], xs[|xs| - 1]);
    }
  }

  // ----- What the map says of a key -----

  function Lookup(xs: Entries, key: Bytes): Option<Bytes> {
    if xs == [] then None else if xs[0].0 == key then Some(xs[0].1) else Lookup(xs[1..], key)
  }

  /** The value of the last pair that names the key. */
  function LastGiven(xs: Entries, key: Bytes): Option<Bytes> {
    if xs == [] then None
    else if xs[|xs| - 1].0 == key then Some(xs[|xs| - 1].1)
    else LastGiven(xs[..|xs| - 1], key)
  }

  lemma {:induction false} InsertedLookup(xs: Entries, e: Entry, key: Bytes)
    ensures Lookup(Inserted(xs, e), key) == if e.0 == key then Some(e.1) else Lookup(xs, key)
  {
    if xs != [] {
      if e.0 == xs[0].0 {
        assert ([e] + xs[1..])[1..] == xs[1..];
      } else if Before(e.0, xs[0].0) {
        assert ([e] + xs)[1..] == xs;
      } else {
        InsertedLookup(xs[1..], e, key);
        assert ([xs[0]] + Inserted(xs[1..], e))[1..] == Inserted(xs[1..], e);
      }
    }
  }

  lemma {:induction false} AfterIsAbsent(xs: Entries, key: Bytes)
    requires AllAfter(key, xs)
    ensures Lookup(xs, key) == None
  {
    if xs != [] {
      BeforeIsStrict(key, xs[0].0);
      AfterIsAbsent(xs[1..], key);
    }
  }

  /** An ascending map is what it says of each key. */
  lemma {:induction false} AscendingIsUnique(x: Entries, y: Entries)
    requires Ascends(x) && Ascends(y) && forall key :: Lookup(x, key) == Lookup(y, key)
    ensures x == y
  {
    if x == [] || y == [] {
      assert x != [] ==> Lookup(x, x[0].0) == Lookup(y, x[0].0);
      assert y != [] ==> Lookup(x, y[0].0) == Lookup(y, y[0].0);
    } else {
      SameFirst(x, y);
      forall key
        ensures Lookup(x[1..], key) == Lookup(y[1..], key)
      {
        AfterIsAbsent(x[1..], x[0].0);
        AfterIsAbsent(y[1..], y[0].0);
        assert Lookup(x, key) == Lookup(y, key);
      }
      AscendingIsUnique(x[1..], y[1..]);
      assert x == [x[0]] + x[1..] && y == [y[0]] + y[1..];
    }
  }

  lemma {:induction false} SameFirst(x: Entries, y: Entries)
    requires x != [] && y != [] && Ascends(x) && Ascends(y) && forall key :: Lookup(x, key) == Lookup(y, key)
    ensures x[0] == y[0]
  {
    assert Lookup(x, x[0].0) == Lookup(y, x[0].0) && Lookup(x, y[0].0) == Lookup(y, y[0].0);
    BeforeIsTotal(x[0].0, y[0].0);
    if Before(x[0].0, y[0].0) {
      AllAfterWeakens(x[0].0, y[0].0, y[1..]);
      AfterIsAbsent(y, x[0].0);
      assert false;
    } else if Before(y[0].0, x[0].0) {
      AllAfterWeakens(y[0].0, x[0].0, x[1..]);
      AfterIsAbsent(x, y[0].0);
      assert false;
    }
  }

  lemma {:induction false} GatheredLookup(xs: Entries, key: Bytes)
    ensures Lookup(Gathered(xs), key) == LastGiven(xs, key)
  {
    if xs != [] {
      GatheredLookup(xs[..|xs| - 1], key);
      InsertedLookup(Gathered(xs[..|xs| - 1]), xs[|xs| - 1], key);
    }
  }

  /** Keys ascend, and each has the value given last. */
  ghost predicate IsMapOf(m: Entries, xs: Entries) {
    Ascends(m) && forall key :: Lookup(m, key) == LastGiven(xs, key)
  }

  lemma {:induction false} GatheredIsMap(xs: Entries)
    ensures IsMapOf(Gathered(xs), xs)
  {
    GatheredAscends(xs);
    forall key
      ensures Lookup(Gathered(xs), key) == LastGiven(xs, key)
    {
      GatheredLookup(xs, key);
    }
  }

  /** Pairs read in any order make the one ascending map in which every key has
      the value given last. */
  lemma {:induction false} LastGivenWins(xs: Entries, m: Entries)
    ensures m == Gathered(xs) <==> IsMapOf(m, xs)
  {
    GatheredIsMap(xs);
    if IsMapOf(m, xs) {
      assert forall key :: Lookup(m, key) == Lookup(Gathered(xs), key);
      AscendingIsUnique(m, Gathered(xs));
    }
  }

  // ----- The codec -----

  const Pair: Codec<Entry> := Both(Text, Text)

  const Texts: Codec<Entries> :=
    Codec((xs: Entries) => Many(Pair).ok(xs) && Ascends(xs), (xs: Entries) => Many(Pair).enc(xs),
          (b: Bytes) =>
            match Many(Pair).dec(b)
            case Malformed => Malformed
            case Parsed(xs, rest) => Parsed(Gathered(xs), rest))

  lemma {:induction false} PairsAreLawful()
    ensures Lawful(Pair) && Lawful(Many(Pair))
  {
    TextIsLawful();
    BothIsLawful(Text, Text);
    ManyIsLawful(Pair);
  }

  lemma {:induction false} InsertedSize(c: Codec<Entry>, xs: Entries, e: Entry)
    requires AllOk(c, xs) && c.ok(e)
    ensures AllOk(c, Inserted(xs, e)) && |Inserted(xs, e)| <= |xs| + 1
    ensures |EncodeAll(c, Inserted(xs, e))| <= |EncodeAll(c, xs)| + |c.enc(e)|
  {
    if xs != [] {
      if e.0 == xs[0].0 {
        assert ([e] + xs[1..])[1..] == xs[1..];
      } else if Before(e.0, xs[0].0) {
        assert ([e] + xs)[1..] == xs;
      } else {
        InsertedSize(c, xs[1..], e);
        assert ([xs[0]] + Inserted(xs[1..], e))[1..] == Inserted(xs[1..], e);
      }
    }
  }

  lemma {:induction false} EncodeAllSplit(c: Codec<Entry>, xs: Entries)
    requires xs != []
    ensures EncodeAll(c, xs) == EncodeAll(c, xs[..|xs| - 1]) + c.enc(xs[|xs| - 1])
    ensures AllOk(c, xs) ==> AllOk(c, xs[..|xs| - 1]) && c.ok(xs[|xs| - 1])
  {
    if |xs| > 1 {
      EncodeAllSplit(c, xs[1..]);
      assert xs[1..][..|xs| - 2] == xs[..|xs| - 1][1..];
    } else {
      assert c.enc(xs[0]) + [] == [] + c.enc(xs[0]);
    }
  }

  lemma {:induction false} GatheredSize(c: Codec<Entry>, xs: Entries)
    requires AllOk(c, xs)
    ensures AllOk(c, Gathered(xs)) && |Gathered(xs)| <= |xs|
    ensures |EncodeAll(c, Gathered(xs))| <= |EncodeAll(c, xs)|
  {
    if xs != [] {
      EncodeAllSplit(c, xs);
      GatheredSize(c, xs[..|xs| - 1]);
      InsertedSize(c, Gathered(xs[..|xs| - 1]), xs[|xs| - 1]);
    }
  }

  lemma {:induction false} VarintGrows(m: nat, n: nat)
    requires m <= n
    ensures |Varint(m)| <= |Varint(n)|
  {
    if m >= 128 {
      VarintGrows(m / 128, n / 128);
    }
  }

  lemma {:induction false} TextsAreLawful()
    ensures Lawful(Texts)
  {
    PairsAreLawful();
    var c := Many(Pair);
    forall xs, tail | Texts.ok(xs)
      ensures Texts.dec(Texts.enc(xs) + tail) == Parsed(xs, tail)
    {
      assert c.dec(c.enc(xs) + tail) == Parsed(xs, tail);
      GatheredIs(xs);
    }
    forall b | Texts.dec(b).Parsed?
      ensures Texts.ok(Texts.dec(b).value) && |Texts.enc(Texts.dec(b).value)| + |Texts.dec(b).rest| <= |b|
    {
      var xs := c.dec(b).value;
      assert c.ok(xs);
      GatheredAscends(xs);
      GatheredSize(Pair, xs);
      VarintGrows(|Gathered(xs)|, |xs|);
    }
  }
}
