/** The row codec: a row is packed into exactly ROW_SIZE bytes, the id as
    four little-endian bytes, then the username and the email, each
    truncated to its field and zero-padded to the field's width. Decoding
    takes each string up to the first NUL byte of its field. */
module RowCodec {
  import opened Layout
  import opened Files

  /** A row of the table. Go strings are byte strings, so are these. */
  datatype Row = Row(id: uint32, username: seq<byte>, email: seq<byte>)

  /** The rows the statement parser lets through and the round trip needs:
      each string fits its field and holds no NUL byte. */
  predicate WellFormed(r: Row)
  {
    |r.username| <= COLUMN_USERNAME_SIZE && 0 !in r.username &&
    |r.email| <= COLUMN_EMAIL_SIZE && 0 !in r.email
  }

  /** The value of four bytes read as a little-endian unsigned integer
      (the bytes occupy disjoint bit ranges, so the OR of the shifted
      bytes is their weighted sum). */
  function LittleEndian(b: seq<byte>): nat
    requires |b| == 4
  {
    b[0] as nat + b[1] as nat * 0x100 + b[2] as nat * 0x1_0000 + b[3] as nat * 0x100_0000
  }

  /** The four id bytes, least significant first. */
  function EncodeId(id: uint32): (b: seq<byte>)
    ensures |b| == ID_SIZE && LittleEndian(b) == id
  {
    var b0, r0 := id % 0x100, id / 0x100;
    var b1, r1 := r0 % 0x100, r0 / 0x100;
    var b2, r2 := r1 % 0x100, r1 / 0x100;
    var b3 := r2 % 0x100;
    assert r2 < 0x100;
    assert id == b0 + 0x100 * (b1 + 0x100 * (b2 + 0x100 * b3));
    [b0, b1, b2, b3]
  }

  /** `s` cut to `width` bytes and zero-padded to exactly `width` bytes. */
  function ZeroPad(s: seq<byte>, width: nat): (f: seq<byte>)
    ensures |f| == width
    ensures forall i :: 0 <= i < width ==> f[i] == if i < |s| then s[i] else 0
  {
    var n := Min(|s|, width);
    s[..n] + Zeros(width - n)
  }

  /** The ROW_SIZE bytes that represent `r`. */
  function EncodeRow(r: Row): (b: seq<byte>)
    ensures |b| == ROW_SIZE
    ensures LittleEndian(b[ID_OFFSET..ID_OFFSET + ID_SIZE]) == r.id
    ensures forall i :: 0 <= i < USERNAME_SIZE ==>
      b[USERNAME_OFFSET + i] == if i < |r.username| then r.username[i] else 0
    ensures forall i :: 0 <= i < EMAIL_SIZE ==>
      b[EMAIL_OFFSET + i] == if i < |r.email| then r.email[i] else 0
  {
    var b := EncodeId(r.id) + ZeroPad(r.username, USERNAME_SIZE) + ZeroPad(r.email, EMAIL_SIZE);
    assert b[ID_OFFSET..ID_OFFSET + ID_SIZE] == EncodeId(r.id);
    b
  }

  /** Go's bytes.IndexByte: the index of the first `c` in `s`, or -1. */
  function IndexByte(s: seq<byte>, c: byte): (r: int)
    ensures -1 <= r < |s|
    ensures r == -1 <==> c !in s
    ensures 0 <= r ==> s[r] == c && c !in s[..r]
  {
    if |s| == 0 then -1
    else if s[0] == c then 0
    else
      var k := IndexByte(s[1..], c);
      if k == -1 then -1
      else
        assert s[..k + 1] == [s[0]] + s[1..][..k];
        k + 1
  }

  /** `s` is what a field holding `field` decodes to: a NUL-free prefix of
      the field that ends at the field's first NUL byte, or is the whole
      field when there is none. */
  predicate Terminated(field: seq<byte>, s: seq<byte>)
  {
    |s| <= |field| && s == field[..|s|] && 0 !in s && (|s| < |field| ==> field[|s|] == 0)
  }

  /** At most one string is terminated in a field. */
  lemma {:induction false} TerminatedUnique(field: seq<byte>, s: seq<byte>, t: seq<byte>)
    requires Terminated(field, s) && Terminated(field, t)
    ensures s == t
  {
  }

  /** The string stored in a field: everything before its first NUL byte. */
  function FieldString(field: seq<byte>): (s: seq<byte>)
    ensures Terminated(field, s)
  {
    var k := IndexByte(field, 0);
    if k == -1 then field else field[..k]
  }

  /** The row stored in the first ROW_SIZE bytes of `b`. */
  function DecodeRow(b: seq<byte>): (r: Row)
    requires |b| >= ROW_SIZE
    ensures r.id == LittleEndian(b[ID_OFFSET..ID_OFFSET + ID_SIZE])
    ensures Terminated(b[USERNAME_OFFSET..USERNAME_OFFSET + USERNAME_SIZE], r.username)
    ensures Terminated(b[EMAIL_OFFSET..EMAIL_OFFSET + EMAIL_SIZE], r.email)
  {
    Row(LittleEndian(b[ID_OFFSET..ID_OFFSET + ID_SIZE]),
        FieldString(b[USERNAME_OFFSET..USERNAME_OFFSET + USERNAME_SIZE]),
        FieldString(b[EMAIL_OFFSET..EMAIL_OFFSET + EMAIL_SIZE]))
  }

  /** A zero-padded NUL-free string that fits its field is terminated in it. */
  lemma PaddedTerminated(s: seq<byte>, width: nat)
    requires |s| <= width && 0 !in s
    ensures Terminated(ZeroPad(s, width), s)
  {
    assert ZeroPad(s, width)[..|s|] == s;
  }

  /** Decoding an encoded row gives the row back exactly when the row is
      well formed (strings at the field limit included). */
  lemma {:induction false} RoundTrip(r: Row)
    ensures DecodeRow(EncodeRow(r)) == r <==> WellFormed(r)
  {
    var b := EncodeRow(r);
    var d := DecodeRow(b);
    var uf := b[USERNAME_OFFSET..USERNAME_OFFSET + USERNAME_SIZE];
    var ef := b[EMAIL_OFFSET..EMAIL_OFFSET + EMAIL_SIZE];
    if WellFormed(r) {
      assert uf == ZeroPad(r.username, USERNAME_SIZE);
      assert ef == ZeroPad(r.email, EMAIL_SIZE);
      PaddedTerminated(r.username, USERNAME_SIZE);
      PaddedTerminated(r.email, EMAIL_SIZE);
      TerminatedUnique(uf, d.username, r.username);
      TerminatedUnique(ef, d.email, r.email);
    }
  }

  /** Go's copy into a slice of `dst` starting at `at`. */
  method Copy(dst: array<byte>, at: nat, src: seq<byte>)
    requires at + |src| <= dst.Length
    modifies dst
    ensures forall k :: 0 <= k < dst.Length ==>
      dst[k] == if at <= k < at + |src| then src[k - at] else old(dst[k])
  {
    forall i | 0 <= i < |src| {
      dst[at + i] := src[i];
    }
  }

  /** One string field of serializeRow: copy at most `width` bytes of `s`
      to `at`, then zero-fill the rest of the field. */
  method WriteField(destination: array<byte>, at: nat, s: seq<byte>, width: nat)
    requires at + width <= destination.Length
    modifies destination
    ensures destination[..] == Splice(old(destination[..]), at, ZeroPad(s, width))
  {
    var bytesToCopy := Min(|s|, width);
    Copy(destination, at, s[..bytesToCopy]);
    for i := bytesToCopy to width
      invariant forall k :: 0 <= k < destination.Length ==>
        destination[k] == if at <= k < at + i then ZeroPad(s, width)[k - at] else old(destination[k])
    {
      destination[at + i] := 0;
    }
    assert destination[..] == Splice(old(destination[..]), at, ZeroPad(s, width));
  }

  /** The id bytes of serializeRow, least significant first. */
  method WriteId(destination: array<byte>, at: nat, id: uint32)
    requires at + ID_SIZE <= destination.Length
    modifies destination
    ensures destination[..] == Splice(old(destination[..]), at, EncodeId(id))
  {
    destination[at + 0] := id % 0x100;
    destination[at + 1] := (id / 0x100) % 0x100;
    destination[at + 2] := (id / 0x1_0000) % 0x100;
    destination[at + 3] := (id / 0x100_0000) % 0x100;
    assert destination[..] == Splice(old(destination[..]), at, EncodeId(id));
  }

  /** serializeRow, writing into the ROW_SIZE-byte slice of `destination`
      that starts at `at`: exactly those bytes become EncodeRow(source),
      and nothing else in `destination` changes. */
  method SerializeRow(source: Row, destination: array<byte>, at: nat)
    requires at + ROW_SIZE <= destination.Length
    modifies destination
    ensures destination[..] == Splice(old(destination[..]), at, EncodeRow(source))
  {
    ghost var d0 := destination[..];
    WriteId(destination, at, source.id);
    WriteField(destination, at + USERNAME_OFFSET, source.username, USERNAME_SIZE);
    WriteField(destination, at + EMAIL_OFFSET, source.email, EMAIL_SIZE);
    ghost var id, user, mail := EncodeId(source.id), ZeroPad(source.username, USERNAME_SIZE), ZeroPad(source.email, EMAIL_SIZE);
    SpliceAdjacent(d0, at, id, user);
    SpliceAdjacent(d0, at, id + user, mail);
    assert EncodeRow(source) == id + user + mail;
  }
}
