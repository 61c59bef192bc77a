/** Machine-width integers, little-endian codecs and the error kinds shared by
    every component of the FAT16 engine. */
module Common {

  /** An unsigned 8-, 16- and 32-bit value, as in <stdint.h>. */
  type byte = x: int | 0 <= x < 0x100
  type u16 = x: int | 0 <= x < 0x1_0000
  type u32 = x: int | 0 <= x < 0x1_0000_0000

  /** Fixed-size character arrays of the packed records. */
  type Bytes3 = s: seq<byte> | |s| == 3 witness [0, 0, 0]
  type Bytes8 = s: seq<byte> | |s| == 8 witness [0, 0, 0, 0, 0, 0, 0, 0]
  type Bytes11 = s: seq<byte> | |s| == 11 witness [0, 0, 0, 0, 0, 0, 0, 0, 0, 0, 0]

  datatype Option<T> = None | Some(value: T)

  /** The failures an engine operation reports instead of printing. */
  datatype Error =
    | BootUnreadable     // the boot sector could not be read
    | FatUnreadable      // the FAT could not be read (or has no bytes)
    | RootUnreadable     // the root directory could not be read
    | NotFound           // no regular entry carries the name
    | AlreadyExists      // the target name is taken by a regular entry
    | DirectoryFull      // no free root-directory slot
    | NoFreeSpace        // fewer free clusters than the file needs
    | ClusterOutOfRange  // a chain link outside [2, fat entries)
    | BadCluster         // a chain link equal to the bad-cluster mark
    | ReadFailure        // a cluster read came back short
    | ChainTooLong       // more links followed than clusters exist, plus 8

  datatype Result<T> = Ok(value: T) | Err(error: Error)

  function Min(a: int, b: int): int { if a <= b then a else b }
  function Max(a: int, b: int): int { if a <= b then b else a }

  /** The 16-bit little-endian value stored at b[off], b[off + 1]. */
  function U16At(b: seq<byte>, off: nat): u16
    requires off + 2 <= |b|
  {
    b[off] as int + 0x100 * b[off + 1] as int
  }

  /** The 32-bit little-endian value stored at b[off .. off + 4]. */
  function U32At(b: seq<byte>, off: nat): u32
    requires off + 4 <= |b|
  {
    U16At(b, off) as int + 0x1_0000 * U16At(b, off + 2) as int
  }

  function LE16(v: u16): (r: seq<byte>)
    ensures |r| == 2 && U16At(r, 0) == v
  {
    [v % 0x100, v / 0x100]
  }

  function LE32(v: u32): (r: seq<byte>)
    ensures |r| == 4 && U32At(r, 0) == v
  {
    LE16(v % 0x1_0000) + LE16(v / 0x1_0000)
  }

  /** Reading a 16-bit value and writing it back gives the same two bytes. */
  lemma LE16OfU16At(b: seq<byte>, off: nat)
    requires off + 2 <= |b|
    ensures LE16(U16At(b, off)) == b[off..off + 2]
  {
    var v := U16At(b, off);
    assert v % 0x100 == b[off] && v / 0x100 == b[off + 1];
  }

  /** Reading a 32-bit value and writing it back gives the same four bytes. */
  lemma LE32OfU32At(b: seq<byte>, off: nat)
    requires off + 4 <= |b|
    ensures LE32(U32At(b, off)) == b[off..off + 4]
  {
    var lo, hi := U16At(b, off), U16At(b, off + 2);
    var v := U32At(b, off);
    assert v % 0x1_0000 == lo && v / 0x1_0000 == hi;
    LE16OfU16At(b, off);
    LE16OfU16At(b, off + 2);
    assert b[off..off + 4] == b[off..off + 2] + b[off + 2..off + 4];
  }

  function Zeros(n: nat): (r: seq<byte>)
    ensures |r| == n && forall i :: 0 <= i < n ==> r[i] == 0
  {
    seq(n, _ => 0)
  }

  /** The states a loop passes through: s before pass i, then the state
      after each pass up to pass n - 1. */
  function Iterate<S>(s: S, step: (S, nat) -> S, i: nat, n: nat): (r: seq<S>)
    ensures |r| == if i >= n then 1 else n - i + 1
    ensures r[0] == s
    decreases n - i
  {
    if i >= n then [s] else [s] + Iterate(step(s, i), step, i + 1, n)
  }

  /** Each state of an iteration is the step applied to the one before. */
  lemma {:induction false} IterateStep<S>(s: S, step: (S, nat) -> S, i: nat, n: nat, k: nat)
    requires i + k < n
    ensures Iterate(s, step, i, n)[k + 1] == step(Iterate(s, step, i, n)[k], i + k)
    decreases k
  {
    var rest := Iterate(step(s, i), step, i + 1, n);
    assert Iterate(s, step, i, n) == [s] + rest;
    if k > 0 {
      IterateStep(step(s, i), step, i + 1, n, k - 1);
    }
  }

  /** The last state of an iteration from pass i is the last state of the
      iteration from pass i + 1, started from what pass i gives. */
  lemma IterateShift<S>(s: S, step: (S, nat) -> S, i: nat, n: nat)
    requires i < n
    ensures Iterate(s, step, i, n)[n - i] == Iterate(step(s, i), step, i + 1, n)[n - i - 1]
  {
    assert Iterate(s, step, i, n) == [s] + Iterate(step(s, i), step, i + 1, n);
  }

  /** The state passes i to n - 1 lead to from s. */
  function Run<S>(s: S, step: (S, nat) -> S, i: nat, n: nat): S
    decreases n - i
  {
    if i >= n then s else Run(step(s, i), step, i + 1, n)
  }

  /** The last state of an iteration is the state its passes run to. */
  lemma {:induction false} IterateEndsInRun<S>(s: S, step: (S, nat) -> S, i: nat, n: nat)
    requires i <= n
    ensures Iterate(s, step, i, n)[n - i] == Run(s, step, i, n)
    decreases n - i
  {
    if i < n {
      IterateShift(s, step, i, n);
      IterateEndsInRun(step(s, i), step, i + 1, n);
    }
  }
}

/** Arrays of fixed-size records stored back to back, as fread and fwrite
    see an array of packed structures. */
module Records {
  import opened Common

  /** The records' encodings, one after another. */
  function Concat<T>(xs: seq<T>, enc: T -> seq<byte>): seq<byte>
  {
    if |xs| == 0 then [] else enc(xs[0]) + Concat(xs[1..], enc)
  }

  /** Consecutive w-byte pieces of b, each decoded; bytes that do not fill
      a last piece are not a record. */
  function Chunks<T>(b: seq<byte>, w: nat, dec: seq<byte> --> T): (r: seq<T>)
    requires w > 0
    requires forall s: seq<byte> :: |s| == w ==> dec.requires(s)
    decreases |b|
  {
    if |b| < w then [] else [dec(b[..w])] + Chunks(b[w..], w, dec)
  }

  /** Every record encodes to w bytes. */
  ghost predicate Fixed<T(!new)>(enc: T -> seq<byte>, w: nat)
  {
    forall x :: |enc(x)| == w
  }

  lemma {:induction false} ConcatLength<T(!new)>(xs: seq<T>, enc: T -> seq<byte>, w: nat)
    requires Fixed(enc, w)
    ensures |Concat(xs, enc)| == w * |xs|
  {
    if |xs| > 0 {
      ConcatLength(xs[1..], enc, w);
      assert w * |xs| == w + w * |xs[1..]|;
    }
  }

  /** The bytes after the last whole w-byte piece. */
  function Leftover(b: seq<byte>, w: nat): (r: seq<byte>)
    requires w > 0
    ensures |r| < w
    decreases |b|
  {
    if |b| < w then b else Leftover(b[w..], w)
  }

  lemma {:induction false} ChunksLength<T>(b: seq<byte>, w: nat, dec: seq<byte> --> T)
    requires w > 0
    requires forall s: seq<byte> :: |s| == w ==> dec.requires(s)
    ensures |Chunks(b, w, dec)| * w + |Leftover(b, w)| == |b|
    decreases |b|
  {
    if |b| >= w {
      ChunksLength(b[w..], w, dec);
      var k := |Chunks(b[w..], w, dec)|;
      assert (k + 1) * w == k * w + w;
    }
  }

  lemma JoinAssoc(a: seq<byte>, b: seq<byte>, c: seq<byte>)
    ensures (a + b) + c == a + (b + c)
  {
  }

  /** Writing records and reading them back gives the same records, whatever
      fewer-than-w bytes follow them. */
  lemma {:induction false} ChunksOfConcat<T(!new)>(xs: seq<T>, rest: seq<byte>, w: nat,
                                            enc: T -> seq<byte>, dec: seq<byte> --> T)
    requires w > 0 && |rest| < w && Fixed(enc, w)
    requires forall s: seq<byte> :: |s| == w ==> dec.requires(s)
    requires forall x :: dec(enc(x)) == x
    ensures Chunks(Concat(xs, enc) + rest, w, dec) == xs
    ensures Leftover(Concat(xs, enc) + rest, w) == rest
  {
    if |xs| > 0 {
      ChunksOfConcat(xs[1..], rest, w, enc, dec);
      var b := Concat(xs, enc) + rest;
      JoinAssoc(enc(xs[0]), Concat(xs[1..], enc), rest);
      assert b[..w] == enc(xs[0]) && b[w..] == Concat(xs[1..], enc) + rest;
    } else {
      assert Concat(xs, enc) + rest == rest;
    }
  }

  /** Reading records and writing them back, followed by the bytes that
      were not a record, gives the same bytes. */
  lemma {:induction false} ConcatOfChunks<T>(b: seq<byte>, w: nat, enc: T -> seq<byte>, dec: seq<byte> --> T)
    requires w > 0
    requires forall s: seq<byte> :: |s| == w ==> dec.requires(s)
    requires forall s: seq<byte> :: |s| == w ==> enc(dec(s)) == s
    ensures Concat(Chunks(b, w, dec), enc) + Leftover(b, w) == b
    decreases |b|
  {
    if |b| >= w {
      var head, rest := b[..w], b[w..];
      var tail, left := Concat(Chunks(rest, w, dec), enc), Leftover(rest, w);
      calc {
        Concat(Chunks(b, w, dec), enc) + Leftover(b, w);
      == { ChunksStep(b, w, enc, dec); }
        (head + tail) + left;
      == { JoinAssoc(head, tail, left); }
        head + (tail + left);
      == { ConcatOfChunks(rest, w, enc, dec); }
        head + rest;
      }
    }
  }

  /** One record off the front: reading and writing back b is its first w
      bytes, then what reading and writing back the rest gives. */
  lemma ChunksStep<T>(b: seq<byte>, w: nat, enc: T -> seq<byte>, dec: seq<byte> --> T)
    requires w > 0 && |b| >= w
    requires forall s: seq<byte> :: |s| == w ==> dec.requires(s)
    requires forall s: seq<byte> :: |s| == w ==> enc(dec(s)) == s
    ensures Concat(Chunks(b, w, dec), enc) == b[..w] + Concat(Chunks(b[w..], w, dec), enc)
    ensures Leftover(b, w) == Leftover(b[w..], w)
  {
    var xs := Chunks(b, w, dec);
    assert xs[0] == dec(b[..w]) && xs[1..] == Chunks(b[w..], w, dec);
  }

}
