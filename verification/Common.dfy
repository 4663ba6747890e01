/** Identities and small datatypes shared by every component of the model. */
module Common {
  datatype Option<+T> = None | Some(value: T)

  datatype Result<+T, +E> = Ok(value: T) | Err(error: E)

  /** A 32-byte endpoint key. Only equality and the byte-wise order matter, so
      a key is the number its bytes spell, most significant byte first. */
  type PeerId = nat

  /** A 32-byte content hash, read as a number the same way. */
  type BlobHash = nat

  /** The 16 random bytes naming one message, read as a number the same way. */
  type FrameId = nat

  type Byte = b: int | 0 <= b < 256

  type Bytes = seq<Byte>

  /** The version of the message and of the sync protocol. */
  const WIRE_VERSION: nat := 2

  /** No frame is longer. */
  const MAX_MESSAGE_SIZE: nat := 64 * 1024

  function Min(a: int, b: int): int {
    if a <= b then a else b
  }

  function Max(a: int, b: int): int {
    if a <= b then b else a
  }

  ghost function Elements<T>(s: seq<T>): set<T> {
    set x | x in s
  }

  /** The elements of a duplicate-free sequence number as many as its length. */
  lemma {:induction false} DistinctCount<T>(s: seq<T>)
    requires forall i, j :: 0 <= i < j < |s| ==> s[i] != s[j]
    ensures |Elements(s)| == |s|
  {
    if s != [] {
      var front, last := s[..|s| - 1], s[|s| - 1];
      DistinctCount(front);
      assert Elements(s) == Elements(front) + {last};
      assert last !in front;
    }
  }

  lemma {:induction false} SubsetCount<T>(a: set<T>, b: set<T>)
    requires a <= b
    ensures |a| <= |b|
  {
    assert b == a + (b - a);
  }

  // ----- Slices of slices -----

  lemma {:induction false} SplitLast<T>(s: seq<T>)
    requires s != []
    ensures s == s[..|s| - 1] + [s[|s| - 1]]
  {
  }

  lemma {:induction false} SliceOfTail<T>(s: seq<T>, k: nat, i: nat, j: nat)
    requires k <= |s| && i <= j <= |s| - k
    ensures s[k..][i..j] == s[k + i..k + j]
  {
  }

  lemma {:induction false} TailOfTail<T>(s: seq<T>, k: nat, i: nat)
    requires k <= |s| && i <= |s| - k
    ensures s[k..][i..] == s[k + i..]
  {
  }

  lemma {:induction false} PushToTail<T>(front: seq<T>, last: T, i: nat)
    requires i <= |front|
    ensures front[i..] + [last] == (front + [last])[i..]
  {
  }

  /** A tail of a tail, by lengths. */
  lemma {:induction false} TailByLength<T>(s: seq<T>, t: seq<T>, u: seq<T>)
    requires |u| <= |t| <= |s| && t == s[|s| - |t|..] && u == t[|t| - |u|..]
    ensures u == s[|s| - |u|..]
  {
  }

  lemma {:induction false} ConcatPush<T>(a: seq<T>, b: seq<T>, x: T)
    ensures a + (b + [x]) == (a + b) + [x]
  {
  }

  lemma {:induction false} DropFirst<T>(a: seq<T>, b: seq<T>)
    requires a != []
    ensures (a + b)[1..] == a[1..] + b && (a + b)[0] == a[0]
  {
  }

  lemma {:induction false} WholeTail<T>(s: seq<T>, i: nat)
    requires i <= |s|
    ensures s[i..|s|] == s[i..]
  {
  }
}
