/** The backing file, modelled as the sequence of its bytes. A seek
    followed by a write overwrites the bytes it covers and extends the file
    when it reaches past the end (a seek past the end leaves a hole that
    reads as zeros); a seek followed by a read returns the bytes that exist
    and the caller's zero-initialised buffer supplies the rest. */
module Files {
  import opened Layout

  function Min(a: nat, b: nat): nat { if a <= b then a else b }
  function Max(a: nat, b: nat): nat { if a <= b then b else a }

  /** Byte `k` of `file` as a read sees it: zero past the end. */
  function ByteAt(file: seq<byte>, k: nat): byte
  {
    if k < |file| then file[k] else 0
  }

  /** `n` zero bytes. */
  function Zeros(n: nat): (z: seq<byte>)
    ensures |z| == n && forall i :: 0 <= i < n ==> z[i] == 0
  {
    seq(n, _ => 0)
  }

  /** Seek to `offset`, then read up to `n` bytes into a zeroed buffer of
      `n` bytes. */
  function ReadAt(file: seq<byte>, offset: nat, n: nat): (buf: seq<byte>)
    ensures |buf| == n
    ensures forall i :: 0 <= i < n ==>
      buf[i] == if offset + i < |file| then file[offset + i] else 0
  {
    if offset >= |file| then Zeros(n)
    else
      var avail := file[offset..Min(offset + n, |file|)];
      avail + Zeros(n - |avail|)
  }

  /** Seek to `offset`, then write all of `data`. */
  function WriteAt(file: seq<byte>, offset: nat, data: seq<byte>): (file': seq<byte>)
    ensures |file'| == Max(|file|, offset + |data|)
    ensures forall k :: 0 <= k < |file'| ==>
      file'[k] == if offset <= k < offset + |data| then data[k - offset]
                  else if k < |file| then file[k] else 0
  {
    var front := if offset <= |file| then file[..offset] else file + Zeros(offset - |file|);
    var back := if offset + |data| < |file| then file[offset + |data|..] else [];
    front + data + back
  }

  /** `s` with the bytes from `at` on replaced by `t`; the length stays. */
  function Splice(s: seq<byte>, at: nat, t: seq<byte>): (r: seq<byte>)
    requires at + |t| <= |s|
    ensures |r| == |s|
    ensures forall k :: 0 <= k < |s| ==> r[k] == if at <= k < at + |t| then t[k - at] else s[k]
  {
    s[..at] + t + s[at + |t|..]
  }

  /** Two splices that meet end to begin are one splice of both. */
  lemma SpliceAdjacent(s: seq<byte>, at: nat, a: seq<byte>, b: seq<byte>)
    requires at + |a| + |b| <= |s|
    ensures Splice(Splice(s, at, a), at + |a|, b) == Splice(s, at, a + b)
  {
    var l, r := Splice(Splice(s, at, a), at + |a|, b), Splice(s, at, a + b);
    forall k | 0 <= k < |s|
      ensures l[k] == r[k]
    {
    }
  }

  /** A write byte by byte: the written range holds the data, every other
      byte reads as before. */
  lemma WriteAtBytes(file: seq<byte>, offset: nat, data: seq<byte>, k: nat)
    ensures ByteAt(WriteAt(file, offset, data), k) ==
      if offset <= k < offset + |data| then data[k - offset] else ByteAt(file, k)
  {
  }

  /** Reading back what was just written yields exactly the written bytes. */
  lemma ReadAfterWrite(file: seq<byte>, offset: nat, data: seq<byte>)
    ensures ReadAt(WriteAt(file, offset, data), offset, |data|) == data
  {
  }

  /** A write leaves every byte outside the written range as it was, and
      bytes past the old end (in a hole it opened) read as zeros. */
  lemma {:induction false} WriteFrame(file: seq<byte>, offset: nat, data: seq<byte>, k: nat)
    requires k < offset || offset + |data| <= k
    ensures ReadAt(WriteAt(file, offset, data), k, 1) == ReadAt(file, k, 1)
  {
  }
}
