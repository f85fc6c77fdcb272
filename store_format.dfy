/**
 * Recognising a wrapped snapshot store and reading its identity.
 *
 * The container starts with a 4096-byte prefix block whose first 100 bytes
 * carry the store's logical name, NUL-padded; the SQLite database image
 * follows at offset 4096, where its 16-byte header string
 * "SQLite format 3\0" (section 1.3.1 of the SQLite database file format)
 * sits.
 */
module StoreFormat {
  import opened JsText

  newtype byte = b: int | 0 <= b < 0x100

  /** Offset of the embedded database image inside the container. */
  const ImageOffset: nat := 4096
  /** Length of the identity header at the start of the container. */
  const HeaderLength: nat := 100

  /** The SQLite header string, as the hex literal 53514C69746520666F726D6174203300. */
  const SqliteMagic: seq<byte> :=
    [0x53, 0x51, 0x4C, 0x69, 0x74, 0x65, 0x20, 0x66, 0x6F, 0x72, 0x6D, 0x61, 0x74, 0x20, 0x33, 0x00]

  /** `Buffer.subarray(start, end)`: both bounds are clamped to the buffer, so a
      short buffer yields a shorter (possibly empty) window, never an error. */
  function Subarray(buf: seq<byte>, start: nat, end: nat): (r: seq<byte>)
    ensures start <= end <= |buf| ==> r == buf[start..end]
    ensures |buf| < end ==> |r| < end - start || end <= start
    ensures |r| <= |buf|
  {
    var lo := if start <= |buf| then start else |buf|;
    var hi := if end <= |buf| then end else |buf|;
    if hi <= lo then [] else buf[lo..hi]
  }

  /** `isSQLiteFile`: true exactly when the buffer reaches past the SQLite header
      and bytes [4096, 4112) spell it. A shorter buffer is never a store. */
  function IsSQLiteFile(buf: seq<byte>): (r: bool)
    ensures r <==> |buf| >= ImageOffset + 16 && buf[ImageOffset..ImageOffset + 16] == SqliteMagic
  {
    Subarray(buf, ImageOffset, ImageOffset + 16) == SqliteMagic
  }

  /** Bytes read as characters, one per byte (exact for ASCII). */
  function Decode(bs: seq<byte>): (r: string)
    ensures |r| == |bs|
    ensures forall i :: 0 <= i < |bs| ==> r[i] as int == bs[i] as int
  {
    seq(|bs|, i requires 0 <= i < |bs| => bs[i] as int as char)
  }

  /** The magic constant is the text "SQLite format 3" followed by a NUL. */
  lemma MagicSpellsSqliteFormat3()
    ensures Decode(SqliteMagic) == "SQLite format 3\0"
  {
  }

  /** `getFileName`: decode the first 100 bytes, trim whitespace, drop one leading
      character, delete every NUL. The name never holds a NUL and, one character
      per byte, is at most 99 characters long. */
  function GetFileName(buf: seq<byte>): (name: string)
    ensures '\0' !in name
    ensures |name| <= HeaderLength - 1
  {
    var text := Trim(Decode(Subarray(buf, 0, HeaderLength)));
    RemoveNul(if text == [] then text else text[1..])
  }

  /** The name depends on the first 100 bytes only. */
  lemma FileNameReadsHeaderOnly(a: seq<byte>, b: seq<byte>)
    requires |a| >= HeaderLength && |b| >= HeaderLength && a[..HeaderLength] == b[..HeaderLength]
    ensures GetFileName(a) == GetFileName(b)
  {
  }

  /** `n` zero bytes: the NUL padding of the header. */
  function Zeros(n: nat): (z: seq<byte>)
    ensures |z| == n && forall i :: 0 <= i < n ==> z[i] == 0
  {
    seq(n, i => 0)
  }

  /** A header made of a non-whitespace marker byte, a NUL-free name and at least one
      byte of NUL padding yields exactly that name: NUL is not whitespace, so trimming
      keeps the marker and the padding, the slice drops the marker, and the NULs go. */
  lemma FileNameOfPaddedHeader(marker: byte, name: seq<byte>, pad: nat, rest: seq<byte>)
    requires !IsJsSpace(marker as int as char)
    requires forall i :: 0 <= i < |name| ==> name[i] != 0
    requires pad >= 1 && 1 + |name| + pad == HeaderLength
    ensures GetFileName([marker] + name + Zeros(pad) + rest) == Decode(name)
  {
    var header := [marker] + name + Zeros(pad);
    var buf := header + rest;
    assert Subarray(buf, 0, HeaderLength) == header;
    var text := Decode(header);
    assert text[|text| - 1] == '\0';
    TrimKeeps(text);
    assert text[1..] == Decode(name) + Decode(Zeros(pad));
    RemoveNulAppend(Decode(name), Decode(Zeros(pad)));
    RemoveNulKeeps(Decode(name));
    RemoveNulAllNul(Decode(Zeros(pad)));
  }

  /** The documented example: marker 0x01, "MyStore", NUL padding. */
  lemma MyStoreExample(rest: seq<byte>)
    ensures GetFileName([0x01] + [0x4D, 0x79, 0x53, 0x74, 0x6F, 0x72, 0x65] + Zeros(92) + rest) == "MyStore"
  {
    FileNameOfPaddedHeader(0x01, [0x4D, 0x79, 0x53, 0x74, 0x6F, 0x72, 0x65], 92, rest);
  }

  /** The slice drops one character AFTER trimming: when the marker byte is itself
      whitespace (a tab, line break or space, as a length prefix of 9 to 13 or 32
      would be), trimming removes it and the slice then drops the name's first
      character. */
  lemma WhitespaceMarkerDropsFirstLetter(marker: byte, name: seq<byte>, pad: nat, rest: seq<byte>)
    requires IsJsSpace(marker as int as char)
    requires name != [] && !IsJsSpace(name[0] as int as char)
    requires forall i :: 0 <= i < |name| ==> name[i] != 0
    requires pad >= 1 && 1 + |name| + pad == HeaderLength
    ensures GetFileName([marker] + name + Zeros(pad) + rest) == Decode(name[1..])
  {
    var c := marker as int as char;
    var header := [marker] + name + Zeros(pad);
    FileNameOfHeader(header, rest);
    DecodeAppend([marker] + name, Zeros(pad));
    DecodeAppend([marker], name);
    assert Decode([marker]) == [c];
    assert Decode(header) == [c] + Decode(name) + Decode(Zeros(pad));
    DecodeTail(name);
    TrimSpaceThenDrop(c, Decode(name), Decode(Zeros(pad)));
  }

  /** The name of a file is computed from its 100-byte header alone. */
  lemma FileNameOfHeader(header: seq<byte>, rest: seq<byte>)
    requires |header| == HeaderLength
    ensures GetFileName(header + rest)
         == RemoveNul(if Trim(Decode(header)) == [] then [] else Trim(Decode(header))[1..])
  {
    assert Subarray(header + rest, 0, HeaderLength) == header;
  }

  lemma DecodeAppend(a: seq<byte>, b: seq<byte>)
    ensures Decode(a + b) == Decode(a) + Decode(b)
  {
    assert forall i :: 0 <= i < |a| + |b| ==> Decode(a + b)[i] == (Decode(a) + Decode(b))[i];
  }

  lemma DecodeTail(bs: seq<byte>)
    requires bs != []
    ensures Decode(bs)[1..] == Decode(bs[1..])
  {
    assert forall i :: 0 <= i < |bs| - 1 ==> Decode(bs)[1..][i] == Decode(bs[1..])[i];
  }

  /** A header of NULs only gives the empty name (which is then an ordinary key). */
  lemma BlankHeaderGivesEmptyName(rest: seq<byte>)
    ensures GetFileName(Zeros(HeaderLength) + rest) == []
  {
    var buf := Zeros(HeaderLength) + rest;
    assert Subarray(buf, 0, HeaderLength) == Zeros(HeaderLength);
    var text := Decode(Zeros(HeaderLength));
    TrimKeeps(text);
    RemoveNulAllNul(text[1..]);
  }
}
