/**
 A device tree blob in memory and the walk over its tags (lib/libfdt/fdt.c).

 The ten header words are fields of the object; the other blocks are bytes of `buf`.
 */
module FdtBlob {
  import opened Words
  import opened Memory
  import opened FdtFormat

  const FDT_MAGIC: nat := 0xd00d_feed
  const FDT_SW_MAGIC: nat := 0x2ff2_0112

  /** struct fdt_header. */
  datatype Header = Header(
    magic: nat, totalsize: nat, offStruct: nat, offStrings: nat, offRsvmap: nat,
    version: nat, lastCompVersion: nat, sizeStrings: nat, sizeStruct: nat)

  class Blob {
    const buf: array<byte>
    var h: Header
    /** What the structure block holds. */
    ghost var tokens: seq<Token>

    constructor (buf: array<byte>, h: Header)
      ensures this.buf == buf && this.h == h
    {
      this.buf, this.h := buf, h;
    }
  }

  /** The structure block lies in a buffer of `size` bytes, which is a C int. */
  predicate StructFits(size: nat, h: Header) {
    size < TWO31 - 4 && h.version >= 17 && h.offStruct + h.sizeStruct <= size
  }

  predicate StringsFit(size: nat, h: Header) {
    h.offStrings + h.sizeStrings <= size
  }

  function Struct(m: seq<byte>, h: Header): (s: seq<byte>)
    requires StructFits(|m|, h)
    ensures |s| == h.sizeStruct
  {
    m[h.offStruct..h.offStruct + h.sizeStruct]
  }

  function Strings(m: seq<byte>, h: Header): (s: seq<byte>)
    requires StringsFit(|m|, h)
    ensures |s| == h.sizeStrings
  {
    m[h.offStrings..h.offStrings + h.sizeStrings]
  }

  /** The structure block of `m` holds `ts`. */
  ghost predicate Parsed(m: seq<byte>, h: Header, ts: seq<Token>) {
    StructFits(|m|, h) && AllOk(ts) && Struct(m, h) == EncodeAll(ts)
  }

  lemma WordSlice(m: seq<byte>, i: nat, j: nat, off: nat)
    requires i <= j <= |m| && i + off + 4 <= j
    ensures Word32(m[i..j], off) == Word32(m, i + off)
  {}

  method ReadWord(a: array<byte>, at: nat) returns (w: nat)
    requires at + 4 <= a.Length
    ensures w == Word32(a[..], at)
  {
    var b0: int, b1: int, b2: int, b3: int := a[at], a[at + 1], a[at + 2], a[at + 3];
    w := ((b0 * 256 + b1) * 256 + b2) * 256 + b3;
  }

  /** fdt_next_tag's loop over a node name: the offset after its zero byte, or -1. */
  method SkipNodeName(fdt: Blob, start: nat) returns (end: int)
    requires StructFits(fdt.buf.Length, fdt.h) && start <= fdt.h.sizeStruct
    ensures end == SkipName(Struct(fdt.buf[..], fdt.h), start)
  {
    hide OffsetPtrOk;
    ghost var s := Struct(fdt.buf[..], fdt.h);
    var offset := start;
    while true
      invariant start <= offset <= |s|
      invariant SkipName(s, start) == SkipName(s, offset)
      decreases |s| - offset
    {
      var p := OffsetPtrOk(fdt.h.sizeStruct, offset, 1);
      offset := offset + 1;
      if !p {
        return -1;
      }
      if fdt.buf[fdt.h.offStruct + offset - 1] == 0 {
        return offset;
      }
    }
  }

  /** fdt_next_tag's switch: where the token at `start` ends, or -1 if it is cut short or unknown. */
  method FdtTokenEnd(fdt: Blob, start: nat, tag: nat) returns (offset: int)
    requires StructFits(fdt.buf.Length, fdt.h) && start + 4 <= fdt.h.sizeStruct
    ensures offset == TokenEnd(Struct(fdt.buf[..], fdt.h), start, tag)
  {
    hide Word32, SkipName, OffsetPtrOk, ToInt32;
    offset := start + 4;
    if tag == FDT_BEGIN_NODE {
      offset := SkipNodeName(fdt, offset);
    } else if tag == FDT_PROP {
      if !OffsetPtrOk(fdt.h.sizeStruct, offset, 4) {
        return -1;
      }
      WordSlice(fdt.buf[..], fdt.h.offStruct, fdt.h.offStruct + fdt.h.sizeStruct, offset);
      var len := ReadWord(fdt.buf, fdt.h.offStruct + offset);
      offset := ToInt32(offset + 8 + len);
    } else if tag == FDT_END || tag == FDT_END_NODE || tag == FDT_NOP {
    } else {
      return -1;
    }
  }

  /** fdt_next_tag. */
  method FdtNextTag(fdt: Blob, start: int) returns (tag: nat, next: int)
    requires StructFits(fdt.buf.Length, fdt.h) && -TWO31 <= start < TWO31
    ensures (tag, next) == NextTag(Struct(fdt.buf[..], fdt.h), start)
  {
    hide Word32, SkipName, OffsetPtrOk, TokenEnd, TagAlign;
    if !OffsetPtrOk(fdt.h.sizeStruct, start, 4) {
      return FDT_END, -FDT_ERR_TRUNCATED;
    }
    WordSlice(fdt.buf[..], fdt.h.offStruct, fdt.h.offStruct + fdt.h.sizeStruct, start);
    tag := ReadWord(fdt.buf, fdt.h.offStruct + start);
    var offset := FdtTokenEnd(fdt, start, tag);
    if offset == -1 || !OffsetPtrOk(fdt.h.sizeStruct, start, (offset - start) % TWO32) {
      return FDT_END, -FDT_ERR_BADSTRUCTURE;
    }
    next := TagAlign(offset);
  }

  /** fdt_next_tag at the offset of token `i`. */
  method NextToken(fdt: Blob, offset: int, ghost i: nat) returns (tag: nat, next: int)
    requires Parsed(fdt.buf[..], fdt.h, fdt.tokens) && i < |fdt.tokens| && offset == Offset(fdt.tokens, i)
    ensures tag == Tag(fdt.tokens[i]) && next == Offset(fdt.tokens, i + 1)
  {
    hide NextTag, Offset, AllOk, EncodeAll, Tag;
    NextTagAt(fdt.tokens, i);
    tag, next := FdtNextTag(fdt, offset);
  }
}
