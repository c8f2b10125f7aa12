/**
 Editing a blob in place by moving what follows (lib/libfdt/fdt_rw.c).
 */
module FdtRwSpec {
  import opened Words
  import opened Wrappers
  import opened Memory
  import opened FdtFormat
  import opened FdtBlob
  import opened FdtSwSpec
  import opened FdtTokens
  import opened FdtRo

  /** The structure block, the strings block and the end of the blob follow each other, as the editor needs them. */
  predicate Ordered(h: Header) {
    h.offStrings >= h.offStruct + h.sizeStruct && h.totalsize >= h.offStrings + h.sizeStrings
  }

  /** The reserve map, of one entry at least, lies between header and structure block. */
  predicate RsvmapFirst(h: Header) {
    40 <= h.offRsvmap && h.offRsvmap + 16 <= h.offStruct
  }

  /** A finished blob that the editor accepts. */
  ghost predicate Editable(m: seq<byte>, h: Header, ts: seq<Token>) {
    Readable(m, h, ts) && Ordered(h) && h.version == 17 && h.lastCompVersion <= 17 && h.totalsize <= |m|
  }

  // ----- _fdt_rw_check_header -----

  /** A finished blob, or one with a structure block that is still being written, in a format that can be edited. */
  predicate Supported(h: Header) {
    h.version >= 17 && ((h.magic == FDT_MAGIC && h.lastCompVersion <= 17)
      || (h.magic == FDT_SW_MAGIC && h.sizeStruct != 0))
  }

  /** _fdt_blocks_misordered, whose sums are 32-bit words. */
  predicate Misordered(h: Header) {
    || h.offRsvmap < 40
    || h.offStruct < (h.offRsvmap + 16) % TWO32
    || h.offStrings < (h.offStruct + h.sizeStruct) % TWO32
    || h.totalsize < (h.offStrings + h.sizeStrings) % TWO32
  }

  /** The result of _fdt_rw_check_header. */
  function RwCheck(h: Header): (r: int)
    ensures r <= 0
  {
    if h.magic != FDT_MAGIC && h.magic != FDT_SW_MAGIC then -FDT_ERR_BADMAGIC
    else if h.magic == FDT_MAGIC && (h.version < 16 || h.lastCompVersion > 17) then -FDT_ERR_BADVERSION
    else if h.magic == FDT_SW_MAGIC && h.sizeStruct == 0 then -FDT_ERR_BADSTATE
    else if h.version < 17 then -FDT_ERR_BADVERSION
    else if Misordered(h) then -FDT_ERR_BADLAYOUT
    else 0
  }

  /**
   What the header check accepts, of blobs whose blocks lie in the buffer: a supported format with the blocks in
   order, and a reserve map that comes first or whose end wraps around at 32 bits.
   */
  lemma RwAccepts(size: nat, h: Header)
    requires StructFits(size, h) && StringsFit(size, h) && h.offRsvmap < TWO32
    ensures RwCheck(h) == 0 <==>
              Supported(h) && Ordered(h) && (RsvmapFirst(h) || 0 <= h.offRsvmap + 16 - TWO32 <= h.offStruct)
    ensures RwCheck(h) == -FDT_ERR_BADLAYOUT <==> Supported(h) && RwCheck(h) != 0
  {
    assert h.offRsvmap + 16 >= TWO32 ==> (h.offRsvmap + 16) % TWO32 == h.offRsvmap + 16 - TWO32;
  }

  /** A reserve map at the end of the 32-bit range is taken to come first. */
  lemma RsvmapWraps()
    ensures var h := Header(FDT_MAGIC, 200, 64, 100, 0xfffffff8, 17, 16, 10, 36);
            StructFits(200, h) && StringsFit(200, h) && RwCheck(h) == 0 && !RsvmapFirst(h)
  {}

  function DataEnd(h: Header): nat { h.offStrings + h.sizeStrings }

  // ----- _fdt_splice_struct -----

  function SpliceHdr(h: Header, oldlen: nat, newlen: nat): (h': Header)
    requires oldlen <= h.sizeStruct && oldlen <= h.offStrings
    ensures RsvmapFirst(h') <==> RsvmapFirst(h)
    ensures Ordered(h) && h.offStrings + h.sizeStrings - oldlen + newlen <= h.totalsize ==> Ordered(h')
  {
    h.(sizeStruct := h.sizeStruct - oldlen + newlen, offStrings := h.offStrings - oldlen + newlen)
  }

  /** There is room to replace `oldlen` bytes at `o` of the structure block by `newlen`. */
  predicate CanSplice(size: nat, h: Header, o: nat, oldlen: nat, newlen: nat) {
    && StructFits(size, h) && StringsFit(size, h) && Ordered(h) && o + oldlen <= h.sizeStruct
    && h.totalsize <= size && DataEnd(h) - oldlen + newlen <= h.totalsize
  }

  /**
   The room test of _fdt_splice, for a new length `n` that is cut to an int, decides whether there is room if and
   only if the length is not cut to one for which there is room; below 2^32, if and only if it is not cut.
   */
  lemma RoomExact(h: Header, oldlen: nat, n: nat)
    requires Ordered(h) && h.totalsize < TWO31 && oldlen <= DataEnd(h)
    ensures (DataEnd(h) - oldlen + ToInt32(n) > h.totalsize <==> DataEnd(h) - oldlen + n > h.totalsize) <==>
              ToInt32(n) == n || DataEnd(h) - oldlen + ToInt32(n) > h.totalsize
    ensures n < TWO32 ==>
        ((DataEnd(h) - oldlen + ToInt32(n) > h.totalsize <==> DataEnd(h) - oldlen + n > h.totalsize) <==> n < TWO31)
  {
    IntExact(n);
    hide ToInt32;
  }

  /** The length of an empty node as fdt_add_subnode_namelen computes it, for a name of `n` bytes. */
  function NodeLen(n: nat): int { ToInt32(4 + TagAlign(ToInt32(n + 1) % TWO64) + 4) }

  /** The lengths from which on fdt_setprop and fdt_add_subnode_namelen find room in every blob. */
  lemma LengthsCut()
    ensures ToInt32(TagAlign(TWO31 - 3)) == -TWO31 && TagAlign(TWO31 - 4) < TWO31
    ensures ToInt32(12 + TagAlign(TWO31 - 15)) == -TWO31 && 12 + TagAlign(TWO31 - 16) < TWO31
    ensures NodeLen(TWO31 - 12) == -TWO31 && NodeLen(TWO31 - 13) == TWO31 - 4
  {}

  lemma NodeLenExact(n: nat)
    requires n < TWO31
    ensures 8 + TagAlign(n + 1) < TWO31 ==> NodeLen(n) == 8 + TagAlign(n + 1)
    ensures 8 + TagAlign(n + 1) >= TWO31 ==> -TWO31 <= NodeLen(n) < 0
  {
    IntExact(n + 1);
    IntExact(8 + TagAlign(n + 1));
    if n + 1 == TWO31 {
      assert NodeLen(n) == 8 - TWO31;
    } else {
      hide ToInt32, TagAlign;
      assert ToInt32(n + 1) % TWO64 == n + 1;
    }
  }

  /** The blob with `oldlen` bytes at `o` of the structure block replaced by `data`. */
  function SpliceStruct(m: seq<byte>, h: Header, o: nat, oldlen: nat, data: seq<byte>): (r: seq<byte>)
    requires CanSplice(|m|, h, o, oldlen, |data|)
    ensures |r| == |m|
  {
    Spliced(m, h.offStruct + o, h.offStruct + o + oldlen, DataEnd(h), data)
  }

  lemma SplicedBlocks(m: seq<byte>, h: Header, o: nat, oldlen: nat, data: seq<byte>)
    requires CanSplice(|m|, h, o, oldlen, |data|)
    ensures var m' := SpliceStruct(m, h, o, oldlen, data);
            var h' := SpliceHdr(h, oldlen, |data|);
            && StructFits(|m'|, h') && StringsFit(|m'|, h') && Ordered(h')
            && Struct(m', h') == Struct(m, h)[..o] + data + Struct(m, h)[o + oldlen..]
            && Strings(m', h') == Strings(m, h)
  {
    hide Spliced;
    var a, b, base := h.offStruct + o, h.offStruct + o + oldlen, h.offStruct;
    SplicedAround(m, a, b, DataEnd(h), data, base, base + h.sizeStruct);
    SplicedBehind(m, a, b, DataEnd(h), data, h.offStrings, DataEnd(h));
    SliceSlice(m, base, base + h.sizeStruct, 0, o);
    SliceSlice(m, base, base + h.sizeStruct, o + oldlen, h.sizeStruct);
  }

  /** Replacing tokens by moving what follows. */
  lemma Edited(m: seq<byte>, h: Header, ts: seq<Token>, i: nat, j: nat, mid: seq<Token>)
    requires Editable(m, h, ts) && AllOk(mid) && i <= j <= |ts|
    requires EndsOnce(Replace(ts, i, j, mid)) && NamesOk(Replace(ts, i, j, mid), Strings(m, h))
    requires DataEnd(h) - (Offset(ts, j) - Offset(ts, i)) + |EncodeAll(mid)| <= h.totalsize
    ensures Offset(ts, i) <= Offset(ts, j)
    ensures CanSplice(|m|, h, Offset(ts, i), Offset(ts, j) - Offset(ts, i), |EncodeAll(mid)|)
    ensures var o, oldlen := Offset(ts, i), Offset(ts, j) - Offset(ts, i);
            var m' := SpliceStruct(m, h, o, oldlen, EncodeAll(mid));
            var h' := SpliceHdr(h, oldlen, |EncodeAll(mid)|);
            Editable(m', h', Replace(ts, i, j, mid)) && Strings(m', h') == Strings(m, h)
  {
    hide EncodeAll, AllOk, Offset, EndsOnce, NamesOk, Replace, SpliceStruct;
    OffsetMono(ts, i, j);
    SplicedBlocks(m, h, Offset(ts, i), Offset(ts, j) - Offset(ts, i), EncodeAll(mid));
    ReplaceBytes(ts, i, j, mid);
  }

  // ----- new strings -----

  lemma NamesMore(ts: seq<Token>, strings: seq<byte>, more: seq<byte>)
    requires NamesOk(ts, strings)
    ensures NamesOk(ts, strings + more)
  {
    hide IsCString, StringAt;
    forall i | 0 <= i < |ts| && ts[i].Prop?
      ensures IsCString(strings + more, ts[i].nameoff, StringAt(strings + more, ts[i].nameoff))
    {
      StringAtMore(strings, more, ts[i].nameoff);
    }
  }

  /** A string added behind the strings block. */
  lemma StringAdded(m: seq<byte>, h: Header, ts: seq<Token>, s: seq<byte>)
    requires Editable(m, h, ts) && DataEnd(h) + |s| <= h.totalsize
    ensures var m', h' := Put(m, DataEnd(h), s), h.(sizeStrings := h.sizeStrings + |s|);
            Editable(m', h', ts) && Strings(m', h') == Strings(m, h) + s
  {
    hide EncodeAll, AllOk, EndsOnce, NamesOk, Put;
    PutAt(m, DataEnd(h), s);
    PutApart(m, DataEnd(h), s, h.offStruct, h.offStruct + h.sizeStruct);
    PutApart(m, DataEnd(h), s, h.offStrings, DataEnd(h));
    Slices(Put(m, DataEnd(h), s), h.offStrings, DataEnd(h), DataEnd(h) + |s|);
    NamesMore(ts, Strings(m, h), s);
  }

  // ----- setting a property -----

  lemma PropHead(m: seq<byte>, h: Header, ts: seq<Token>, i: nat)
    requires Parsed(m, h, ts) && i < |ts| && ts[i].Prop?
    ensures Offset(ts, i) + 12 <= h.sizeStruct && ts[i].nameoff < TWO32
    ensures var a := h.offStruct + Offset(ts, i);
            m[a..a + 4] == Be32(FDT_PROP) && m[a + 8..a + 12] == Be32(ts[i].nameoff)
  {
    hide Be32, Encode, EncodeAll, Offset;
    var s, o, c, base := Struct(m, h), Offset(ts, i), Encode(ts[i]), h.offStruct;
    EncodeAt(ts, i);
    EncodeParts(ts[i]);
    Within(s, o, c, 0, 4);
    Within(s, o, c, 8, 12);
    SliceSlice(m, base, base + h.sizeStruct, o, o + 4);
    SliceSlice(m, base, base + h.sizeStruct, o + 8, o + 12);
  }

  /** A new length and value behind the tag and name offset of a property. */
  lemma ResizedBytes(m: seq<byte>, a: nat, nameoff: nat, value: seq<byte>) returns (t: Token)
    requires |value| < TWO31 && nameoff < TWO32 && a + 12 + TagAlign(|value|) <= |m|
    requires m[a..a + 4] == Be32(FDT_PROP) && m[a + 8..a + 12] == Be32(nameoff)
    ensures t.Prop? && t.nameoff == nameoff && t.value == value && TokenOk(t) && |Encode(t)| == 12 + TagAlign(|value|)
    ensures Put(Put(m, a + 4, Be32(|value|)), a + 12, value) == Put(m, a, Encode(t))
  {
    hide Put, Be32, TokenOk, Encode;
    var n, w := |value|, Be32(|value|);
    var m1 := Put(m, a + 4, w);
    var m2 := Put(m1, a + 12, value);
    PutAt(m, a + 4, w);
    PutApart(m, a + 4, w, a, a + 4);
    PutApart(m, a + 4, w, a + 8, a + 12);
    PutApart(m1, a + 12, value, a, a + 4);
    PutApart(m1, a + 12, value, a + 4, a + 8);
    PutApart(m1, a + 12, value, a + 8, a + 12);
    PutAt(m1, a + 12, value);
    PropBytes(m2, a, nameoff, value);
    t := Prop(nameoff, value, m2[a + 12 + n..a + 12 + TagAlign(n)]);
    PutPut(m, a + 4, w, a + 12, value, a, a + 12 + TagAlign(n));
  }

  /** What fdt_setprop does to the tokens and the strings. */
  ghost predicate PropSet(ts: seq<Token>, strings: seq<byte>, node: nat, name: seq<byte>, val: seq<byte>,
                          ts': seq<Token>, strings': seq<byte>)
    requires node < |ts|
  {
    var p := FindProp(ts, strings, node + 1, name);
    if p.At? then
      && strings' == strings && |ts'| == |ts| && ts'[p.i].Prop? && ts'[p.i].nameoff == ts[p.i].nameoff
      && ts'[p.i].value == val
      && ts' == ts[p.i := ts'[p.i]]
    else
      && strings <= strings' && |ts'| == |ts| + 1 && ts'[node + 1].Prop?
      && StringAt(strings', ts'[node + 1].nameoff) == name
      && ts'[node + 1].value == val && ts' == Replace(ts, node + 1, node + 1, [ts'[node + 1]])
  }

  /** Where a node of the old blob is in the new one. */
  ghost function NodeNow(ts: seq<Token>, strings: seq<byte>, node: nat, name: seq<byte>, k: nat): nat {
    if FindProp(ts, strings, node + 1, name).At? then k else Pushed(k, node, 1)
  }

  /** After fdt_setprop the property reads as set, and every other property of every node as before. */
  lemma PropSetReads(ts: seq<Token>, strings: seq<byte>, node: nat, name: seq<byte>, val: seq<byte>,
                     ts': seq<Token>, strings': seq<byte>, node': nat, name': seq<byte>)
    requires node < |ts| && ts[node].BeginNode? && node' < |ts| && ts[node'].BeginNode? && NamesOk(ts, strings)
    requires PropSet(ts, strings, node, name, val, ts', strings')
    ensures PropValue(ts', strings', NodeNow(ts, strings, node, name, node'), name') ==
              if node' == node && name' == name then Some(val) else PropValue(ts, strings, node', name')
  {
    hide FindProp, StringAt, NamesOk;
    var p := FindProp(ts, strings, node + 1, name);
    if p.At? {
      ValueReplaced(ts, strings, node, name, p.i, ts'[p.i], node', name');
    } else {
      var more := strings'[|strings|..];
      assert strings' == strings + more;
      FindPropMoreStrings(ts, strings, more, node' + 1, name');
      PropertyInserted(ts, ts', strings', node, ts'[node + 1], node', name');
    }
  }

  /** After fdt_setprop the node's first property of that name has the value. */
  lemma PropSetHas(ts: seq<Token>, strings: seq<byte>, node: nat, name: seq<byte>, val: seq<byte>, ts': seq<Token>,
                   strings': seq<byte>)
    requires node < |ts| && ts[node].BeginNode? && NamesOk(ts, strings)
    requires PropSet(ts, strings, node, name, val, ts', strings')
    ensures HasValue(ts', strings', node, name, val)
  {
    PropSetReads(ts, strings, node, name, val, ts', strings', node, name);
    hide StringAt, NamesOk, FindProp, PropValue, HasValue;
    PropValueExact(ts', strings', node, name, val);
  }
}
