/** The functions of lib/libfdt/fdt_rw.c and lib/libfdt/fdt_wip.c, in place on a blob. */
module FdtRw {
  import opened Words
  import opened Memory
  import opened FdtFormat
  import opened FdtBlob
  import opened FdtSwSpec
  import opened FdtSw
  import opened FdtTokens
  import opened FdtRo
  import opened FdtRwSpec
  import opened FdtTree
  import opened FdtNav
  import opened FdtPathSpec

  /** _fdt_rw_check_header: what it accepts is editable from then on, as version 17 (RwAccepts). */
  method RwCheckHeader(fdt: Blob) returns (r: int)
    modifies fdt`h
    ensures r == RwCheck(old(fdt.h))
    ensures fdt.h == if r == 0 then old(fdt.h).(version := 17) else old(fdt.h)
  {
    var h := fdt.h;
    if h.magic == FDT_MAGIC {
      if h.version < 16 || h.lastCompVersion > 17 {
        return -FDT_ERR_BADVERSION;
      }
    } else if h.magic == FDT_SW_MAGIC {
      if h.sizeStruct == 0 {
        return -FDT_ERR_BADSTATE;
      }
    } else {
      return -FDT_ERR_BADMAGIC;
    }
    if h.version < 17 {
      return -FDT_ERR_BADVERSION;
    }
    if Misordered(h) {
      return -FDT_ERR_BADLAYOUT;
    }
    if h.version > 17 {
      fdt.h := h.(version := 17);
    }
    return 0;
  }

  /** What WriteBlob leaves can be edited: its header passes _fdt_rw_check_header as it is. */
  lemma WrittenEditable(m: seq<byte>, h: Header, ts: seq<Token>, es: seq<Event>)
    requires Finished(m, h, ts, es) && KeepsFormat(Header(FDT_MAGIC, 0, SHORT, 0, 48, 17, 16, 0, 0), h)
    ensures RwCheck(h) == 0 && Editable(m, h, ts)
  {
    hide NamesOk, EndsOnce, AllOk, EncodeAll, ReadEvents, Shown;
  }

  lemma Checked(m: seq<byte>, h: Header, ts: seq<Token>)
    requires Readable(m, h, ts) && RwCheck(h) == 0 && h.totalsize <= |m|
    ensures Editable(m, h.(version := 17), ts) && Strings(m, h.(version := 17)) == Strings(m, h)
    ensures h.version <= 17 ==> h.(version := 17) == h
  {
    hide NamesOk, EndsOnce, EncodeAll, AllOk;
  }

  /**
   _fdt_splice_struct: makes room for `newlen` bytes in place of `oldlen` at `o` of the structure block. For a negative
   length the source finds room and moves the tail in front of its place, where this model ends, with `astray` set.
   */
  method SpliceStructBlock(fdt: Blob, o: nat, oldlen: nat, newlen: int) returns (r: int, astray: bool)
    requires StructFits(fdt.buf.Length, fdt.h) && StringsFit(fdt.buf.Length, fdt.h) && Ordered(fdt.h)
    requires fdt.h.totalsize <= fdt.buf.Length && o + oldlen <= fdt.h.sizeStruct
    modifies fdt`h, fdt.buf
    ensures astray <==> newlen < 0
    ensures astray ==> r == 0 && fdt.h == old(fdt.h) && fdt.buf[..] == old(fdt.buf[..])
    ensures !astray ==> var h := old(fdt.h);
            && r == (if CanSplice(fdt.buf.Length, h, o, oldlen, newlen) then 0 else -FDT_ERR_NOSPACE)
            && (r != 0 ==> fdt.h == h && fdt.buf[..] == old(fdt.buf[..]))
            && (r == 0 ==> fdt.h == SpliceHdr(h, oldlen, newlen)
                           && fdt.buf[..] == Put(old(fdt.buf[..]), h.offStruct + o + newlen,
                                old(fdt.buf[h.offStruct + o + oldlen..DataEnd(h)])))
  {
    hide Put;
    var p := fdt.h.offStruct + o;
    var end := DataEnd(fdt.h);
    if p + oldlen < p || p + oldlen > end {
      assert false;
    }
    if end - oldlen + newlen > fdt.h.totalsize {
      return -FDT_ERR_NOSPACE, false;
    }
    if newlen < 0 {
      return 0, true;
    }
    MemMove(fdt.buf, p + newlen, p + oldlen, end - p - oldlen);
    fdt.h := SpliceHdr(fdt.h, oldlen, newlen);
    return 0, false;
  }

  lemma PutNothing(m: seq<byte>, at: nat)
    requires at <= |m|
    ensures Put(m, at, []) == m
  {}

  /** Replacing tokens before the end by others that are not the end. */
  lemma ReplaceKeeps(ts: seq<Token>, i: nat, j: nat, mid: seq<Token>, strings: seq<byte>)
    requires EndsOnce(ts) && NamesOk(ts, strings) && i <= j < |ts|
    requires (forall k :: 0 <= k < |mid| ==> mid[k] != End) && NamesOk(mid, strings)
    ensures EndsOnce(Replace(ts, i, j, mid)) && NamesOk(Replace(ts, i, j, mid), strings)
  {
    hide StringAt, IsCString;
    var r := Replace(ts, i, j, mid);
    forall k | 0 <= k < |r|
      ensures k < |r| - 1 ==> r[k] != End
      ensures r[k].Prop? ==> IsCString(strings, r[k].nameoff, StringAt(strings, r[k].nameoff))
    {
      assert r[k] == if k < i then ts[k] else if k < i + |mid| then mid[k - i] else ts[k - i - |mid| + j];
    }
  }

  /** The splice with nothing in the gap. */
  lemma CutOut(m: seq<byte>, h: Header, ts: seq<Token>, i: nat, j: nat)
    requires Editable(m, h, ts) && i <= j < |ts|
    ensures var o, oldlen := Offset(ts, i), Offset(ts, j) - Offset(ts, i);
            && oldlen >= 0 && CanSplice(|m|, h, o, oldlen, 0)
            && var m' := Put(m, h.offStruct + o, m[h.offStruct + o + oldlen..DataEnd(h)]);
               && Editable(m', SpliceHdr(h, oldlen, 0), Replace(ts, i, j, []))
               && Strings(m', SpliceHdr(h, oldlen, 0)) == Strings(m, h)
  {
    hide Put, Offset, StringAt, IsCString, TokenOk, Encode;
    OffsetMono(ts, i, j);
    assert EncodeAll([]) == [];
    ReplaceKeeps(ts, i, j, [], Strings(m, h));
    Edited(m, h, ts, i, j, []);
    var o, oldlen := Offset(ts, i), Offset(ts, j) - Offset(ts, i);
    PutNothing(Put(m, h.offStruct + o, m[h.offStruct + o + oldlen..DataEnd(h)]), h.offStruct + o);
  }

  lemma NotLast(ts: seq<Token>, i: nat)
    requires EndsOnce(ts) && i < |ts| && ts[i] != End
    ensures i + 1 < |ts|
  {}

  /** fdt_delprop behind its header check. */
  method DelpropChecked(fdt: Blob, nodeoffset: int, name: seq<byte>, ghost node: nat) returns (r: int)
    requires Editable(fdt.buf[..], fdt.h, fdt.tokens)
    requires node < |fdt.tokens| && fdt.tokens[node].BeginNode? && nodeoffset == Offset(fdt.tokens, node)
    modifies fdt`h, fdt`tokens, fdt.buf
    ensures RsvmapFirst(fdt.h) <==> RsvmapFirst(old(fdt.h))
    ensures var p := FindProp(old(fdt.tokens), Strings(old(fdt.buf[..]), old(fdt.h)), node + 1, Sought(name));
            if p.Error? then
              r == p.code && fdt.h == old(fdt.h) && fdt.tokens == old(fdt.tokens) && fdt.buf[..] == old(fdt.buf[..])
            else
              && r == 0 && Editable(fdt.buf[..], fdt.h, fdt.tokens)
              && fdt.tokens == Replace(old(fdt.tokens), p.i, p.i + 1, [])
              && Strings(fdt.buf[..], fdt.h) == Strings(old(fdt.buf[..]), old(fdt.h))
  {
    hide Put, Offset, FindProp, EncodeAll, AllOk, NamesOk, EndsOnce, TagAlign, Replace, TokenOk, Strings, Struct;
    hide HasAt, Lacks, Sought;
    var prop := FdtGetProperty(fdt, nodeoffset, name, node);
    if prop < 0 {
      return prop;
    }
    ghost var p := FindProp(fdt.tokens, Strings(fdt.buf[..], fdt.h), node + 1, Sought(name)).i;
    NotLast(fdt.tokens, p);
    PropWords(fdt.buf[..], fdt.h, fdt.tokens, p);
    var len := ReadWord(fdt.buf, fdt.h.offStruct + (prop + 4));
    var proplen := 12 + TagAlign(len);
    CutOut(fdt.buf[..], fdt.h, fdt.tokens, p, p + 1);
    var astray;
    r, astray := SpliceStructBlock(fdt, prop, proplen, 0);
    fdt.tokens := Replace(fdt.tokens, p, p + 1, []);
  }

  /** fdt_delprop. */
  method FdtDelprop(fdt: Blob, nodeoffset: int, name: seq<byte>, ghost node: nat) returns (r: int)
    requires Readable(fdt.buf[..], fdt.h, fdt.tokens) && fdt.h.totalsize <= fdt.buf.Length
    requires node < |fdt.tokens| && fdt.tokens[node].BeginNode? && nodeoffset == Offset(fdt.tokens, node)
    modifies fdt`h, fdt`tokens, fdt.buf
    ensures RsvmapFirst(fdt.h) <==> RsvmapFirst(old(fdt.h))
    ensures var p := FindProp(old(fdt.tokens), Strings(old(fdt.buf[..]), old(fdt.h)), node + 1, Sought(name));
            && r == (if RwCheck(old(fdt.h)) != 0 then RwCheck(old(fdt.h)) else if p.Error? then p.code else 0)
            && (r != 0 ==> fdt.tokens == old(fdt.tokens) && fdt.buf[..] == old(fdt.buf[..]))
            && (r == 0 ==> Editable(fdt.buf[..], fdt.h, fdt.tokens)
                           && fdt.tokens == Replace(old(fdt.tokens), p.i, p.i + 1, [])
                           && Strings(fdt.buf[..], fdt.h) == Strings(old(fdt.buf[..]), old(fdt.h)))
    ensures RwCheck(old(fdt.h)) == 0 ==>
              var ts, strings := old(fdt.tokens), Strings(old(fdt.buf[..]), old(fdt.h));
              && (r == -FDT_ERR_NOTFOUND <==> Lacks(ts, strings, node, Sought(name)))
              && forall p: nat :: HasAt(ts, strings, node, Sought(name), p) ==>
                   r == 0 && fdt.tokens == Replace(ts, p, p + 1, [])
  {
    hide Offset, FindProp, EncodeAll, AllOk, NamesOk, EndsOnce, Replace, RwCheck, Strings, Struct, HasAt, Lacks, Sought;
    FindPropExact(fdt.tokens, Strings(fdt.buf[..], fdt.h), node, Sought(name));
    r := RwCheckHeader(fdt);
    if r != 0 {
      return;
    }
    Checked(fdt.buf[..], old(fdt.h), fdt.tokens);
    r := DelpropChecked(fdt, nodeoffset, name, node);
  }

  // ----- fdt_setprop -----

  lemma OneOk(t: Token)
    requires TokenOk(t)
    ensures AllOk([t])
  {}

  /** Giving property `p` a new value is a splice. */
  lemma ResizeIsEdit(m: seq<byte>, h: Header, ts: seq<Token>, p: nat, t: Token)
    requires Editable(m, h, ts) && p < |ts| && ts[p].Prop? && t.Prop? && TokenOk(t) && t.nameoff == ts[p].nameoff
    requires |Encode(t)| == 12 + TagAlign(|t.value|)
    requires DataEnd(h) - TagAlign(|ts[p].value|) + TagAlign(|t.value|) <= h.totalsize
    ensures var o, old', new' := Offset(ts, p), TagAlign(|ts[p].value|), TagAlign(|t.value|);
            && CanSplice(|m|, h, o + 12, old', new')
            && var m1 := Put(m, h.offStruct + (o + 12) + new', m[h.offStruct + (o + 12) + old'..DataEnd(h)]);
               var h1 := SpliceHdr(h, old', new');
               Editable(Put(m1, h.offStruct + o, Encode(t)), h1, ts[p := t])
               && Strings(Put(m1, h.offStruct + o, Encode(t)), h1) == Strings(m, h)
  {
    hide Put, Offset, StringAt, IsCString, TokenOk, Encode, TagAlign, AllOk, EncodeAll;
    NotLast(ts, p);
    PropWords(m, h, ts, p);
    assert AllOk([t]) by { OneOk(t); }
    EncodeOne(t);
    assert NamesOk([t], Strings(m, h));
    ReplaceKeeps(ts, p, p + 1, [t], Strings(m, h));
    Edited(m, h, ts, p, p + 1, [t]);
    assert Replace(ts, p, p + 1, [t]) == ts[p := t];
  }

  lemma HeadKept(m: seq<byte>, m1: seq<byte>, a: nat, at: nat, data: seq<byte>)
    requires a + 12 <= at && at + |data| <= |m| && m1 == Put(m, at, data)
    ensures m1[a..a + 4] == m[a..a + 4] && m1[a + 8..a + 12] == m[a + 8..a + 12]
  {
    PutApart(m, at, data, a, a + 4);
    PutApart(m, at, data, a + 8, a + 12);
  }

  lemma TagAlignFits(n: nat)
    ensures n <= TagAlign(n) < n + 4
  {}

  /**
   _fdt_resize_property and the copy of the value, for a property that exists. From 2^31 - 3 bytes on the aligned
   length is negative as an int, and the model ends with `astray` set.
   */
  method ResizeProperty(fdt: Blob, prop: nat, val: seq<byte>, ghost p: nat) returns (r: int, astray: bool)
    requires Editable(fdt.buf[..], fdt.h, fdt.tokens) && |val| < TWO31
    requires p < |fdt.tokens| && fdt.tokens[p].Prop? && prop == Offset(fdt.tokens, p)
    modifies fdt`h, fdt`tokens, fdt.buf
    ensures RsvmapFirst(fdt.h) <==> RsvmapFirst(old(fdt.h))
    ensures astray <==> TagAlign(|val|) >= TWO31
    ensures !astray ==>
        var room :=
          DataEnd(old(fdt.h)) - TagAlign(|old(fdt.tokens)[p].value|) + TagAlign(|val|) <= old(fdt.h).totalsize;
        r == if room then 0 else -FDT_ERR_NOSPACE
    ensures r != 0 ==> fdt.h == old(fdt.h) && fdt.tokens == old(fdt.tokens) && fdt.buf[..] == old(fdt.buf[..])
    ensures !astray && r == 0 ==>
        && |fdt.tokens| == |old(fdt.tokens)| && fdt.tokens[p].Prop? && fdt.tokens[p].value == val
        && fdt.tokens[p].nameoff == old(fdt.tokens)[p].nameoff && fdt.tokens == old(fdt.tokens)[p := fdt.tokens[p]]
        && Editable(fdt.buf[..], fdt.h, fdt.tokens)
        && Strings(fdt.buf[..], fdt.h) == Strings(old(fdt.buf[..]), old(fdt.h))
  {
    hide Put, Be32, Word32, Offset, EncodeAll, Encode, AllOk, NamesOk, EndsOnce, TagAlign, TokenOk, Strings, Struct;
    hide ToInt32;
    ghost var m, h, ts := fdt.buf[..], fdt.h, fdt.tokens;
    var base := fdt.h.offStruct;
    PropWords(m, h, ts, p);
    PropHead(m, h, ts, p);
    var oldlen := ReadWord(fdt.buf, base + (prop + 4));
    IntExact(TagAlign(|val|));
    TagAlignFits(|val|);
    r, astray := SpliceStructBlock(fdt, prop + 12, TagAlign(oldlen), ToInt32(TagAlign(|val|)));
    if r != 0 || astray {
      return;
    }
    ghost var m1 := fdt.buf[..];
    HeadKept(m, m1, base + prop, base + (prop + 12) + TagAlign(|val|),
      m[base + (prop + 12) + TagAlign(oldlen)..DataEnd(h)]);
    MemCpy(fdt.buf, base + prop + 4, Be32(|val|));
    MemCpy(fdt.buf, base + prop + 12, val);
    ghost var t := ResizedBytes(m1, base + prop, ts[p].nameoff, val);
    ResizeIsEdit(m, h, ts, p, t);
    fdt.tokens := ts[p := t];
  }

  lemma StringAtEnd(strings: seq<byte>, s: seq<byte>)
    requires 0 !in s
    ensures IsCString(strings + (s + [0]), |strings|, s)
  {}

  /**
   _fdt_find_add_string: the offset of `s` in the strings block, behind which it is added if it is not there. If its
   length is cut, the model ends with the search, with `astray` set.
   */
  method FindAddStringBehind(fdt: Blob, s: seq<byte>) returns (r: int, astray: bool)
    requires Editable(fdt.buf[..], fdt.h, fdt.tokens) && 0 !in s
    modifies fdt`h, fdt.buf
    ensures Editable(fdt.buf[..], fdt.h, fdt.tokens)
    ensures Strings(old(fdt.buf[..]), old(fdt.h)) <= Strings(fdt.buf[..], fdt.h)
    ensures astray <==> |s| + 1 >= TWO31
    ensures r < 0 ==> r == -FDT_ERR_NOSPACE
    ensures r < 0 || astray ==> fdt.h == old(fdt.h) && fdt.buf[..] == old(fdt.buf[..])
    ensures !astray && r >= 0 ==> IsCString(Strings(fdt.buf[..], fdt.h), r, s)
    ensures !astray ==> var room := NameRoom(Strings(old(fdt.buf[..]), old(fdt.h)), s);
            && (r < 0 <==> old(fdt.h).totalsize < DataEnd(old(fdt.h)) + room)
            && (r >= 0 ==> fdt.h == old(fdt.h).(sizeStrings := old(fdt.h).sizeStrings + room))
  {
    hide Put, EncodeAll, AllOk, NamesOk, EndsOnce, Struct, IsCString;
    var strtab := fdt.h.offStrings;
    var len := |s| + 1;
    var p;
    p, astray := FindString(fdt.buf, strtab, fdt.h.sizeStrings, s);
    if astray {
      return 0, true;
    }
    if p != -1 {
      NameThere(Strings(fdt.buf[..], fdt.h), p - strtab, s);
      return p - strtab, false;
    }
    var new' := strtab + fdt.h.sizeStrings;
    if new' + len > fdt.h.totalsize {
      return -FDT_ERR_NOSPACE, false;
    }
    ghost var strings := Strings(fdt.buf[..], fdt.h);
    StringAdded(fdt.buf[..], fdt.h, fdt.tokens, s + [0]);
    fdt.h := fdt.h.(sizeStrings := fdt.h.sizeStrings + len);
    MemCpy(fdt.buf, new', s + [0]);
    StringAtEnd(strings, s);
    r := new' - strtab;
  }

  /** Inserting a property behind a node's token is a splice. */
  lemma InsertIsEdit(m: seq<byte>, h: Header, ts: seq<Token>, node: nat, t: Token, name: seq<byte>)
    requires Editable(m, h, ts) && node < |ts| && ts[node].BeginNode?
    requires t.Prop? && TokenOk(t) && IsCString(Strings(m, h), t.nameoff, name)
    requires DataEnd(h) + |Encode(t)| <= h.totalsize
    ensures node + 1 < |ts|
    ensures var o, n := Offset(ts, node + 1), |Encode(t)|;
            && CanSplice(|m|, h, o, 0, n)
            && var m1 := Put(m, h.offStruct + o + n, m[h.offStruct + o..DataEnd(h)]);
               var m2, h1 := Put(m1, h.offStruct + o, Encode(t)), SpliceHdr(h, 0, n);
               Editable(m2, h1, Replace(ts, node + 1, node + 1, [t])) && Strings(m2, h1) == Strings(m, h)
  {
    hide Put, Offset, StringAt, IsCString, TokenOk, Encode, TagAlign, AllOk, EncodeAll;
    NotLast(ts, node);
    OneOk(t);
    EncodeOne(t);
    StringAtIs(Strings(m, h), t.nameoff, name);
    ReplaceKeeps(ts, node + 1, node + 1, [t], Strings(m, h));
    Edited(m, h, ts, node + 1, node + 1, [t]);
  }

  lemma NodeRoom(m: seq<byte>, h: Header, ts: seq<Token>, node: nat)
    requires Parsed(m, h, ts) && node < |ts|
    ensures Offset(ts, node + 1) <= h.sizeStruct
  {
    hide Offset, EncodeAll, AllOk;
    OffsetStep(ts, node);
  }

  /**
   _fdt_add_property and the copy of the value, once the name is in the strings block. From 2^31 - 15 bytes on the
   length of the property is negative as an int, and the model ends with `astray` set.
   */
  method InsertProperty(fdt: Blob, nextoffset: nat, nameoff: nat, name: seq<byte>, val: seq<byte>, ghost node: nat)
    returns (r: int, astray: bool)
    requires Editable(fdt.buf[..], fdt.h, fdt.tokens) && |val| < TWO31 && nameoff < TWO32
    requires node < |fdt.tokens| && fdt.tokens[node].BeginNode? && nextoffset == Offset(fdt.tokens, node + 1)
    requires IsCString(Strings(fdt.buf[..], fdt.h), nameoff, name)
    modifies fdt`h, fdt`tokens, fdt.buf
    ensures RsvmapFirst(fdt.h) <==> RsvmapFirst(old(fdt.h))
    ensures astray <==> 12 + TagAlign(|val|) >= TWO31
    ensures !astray ==>
        r == if DataEnd(old(fdt.h)) + 12 + TagAlign(|val|) <= old(fdt.h).totalsize then 0 else -FDT_ERR_NOSPACE
    ensures r != 0 ==> fdt.h == old(fdt.h) && fdt.tokens == old(fdt.tokens) && fdt.buf[..] == old(fdt.buf[..])
    ensures !astray && r == 0 ==>
        && |fdt.tokens| == |old(fdt.tokens)| + 1 && fdt.tokens[node + 1].Prop? && fdt.tokens[node + 1].value == val
        && fdt.tokens[node + 1].nameoff == nameoff
        && fdt.tokens == Replace(old(fdt.tokens), node + 1, node + 1, [fdt.tokens[node + 1]])
        && Editable(fdt.buf[..], fdt.h, fdt.tokens)
        && Strings(fdt.buf[..], fdt.h) == Strings(old(fdt.buf[..]), old(fdt.h))
  {
    hide Put, Offset, EncodeAll, Encode, AllOk, NamesOk, EndsOnce, TagAlign, TokenOk, Strings, Struct, IsCString;
    hide ToInt32;
    ghost var m, h, ts := fdt.buf[..], fdt.h, fdt.tokens;
    NodeRoom(m, h, ts, node);
    IntExact(12 + TagAlign(|val|));
    TagAlignFits(|val|);
    r, astray := SpliceStructBlock(fdt, nextoffset, 0, ToInt32(12 + TagAlign(|val|)));
    if r != 0 || astray {
      return;
    }
    ghost var t := PutProperty(fdt.buf, fdt.h.offStruct + nextoffset, nameoff, val);
    InsertIsEdit(m, h, ts, node, t, name);
    fdt.tokens := Replace(ts, node + 1, node + 1, [t]);
  }

  /** What fdt_setprop returns: it fails for want of room only. */
  ghost function SetpropResult(h: Header, ts: seq<Token>, strings: seq<byte>, node: nat, name: seq<byte>,
                               val: seq<byte>): int {
    var p := FindProp(ts, strings, node + 1, Sought(name));
    if p.At? && ts[p.i].Prop? then
      if DataEnd(h) - TagAlign(|ts[p.i].value|) + TagAlign(|val|) <= h.totalsize then 0 else -FDT_ERR_NOSPACE
    else if p.Error? && p.code != -FDT_ERR_NOTFOUND then p.code
    else if DataEnd(h) + NameRoom(strings, name) + 12 + TagAlign(|val|) <= h.totalsize then 0 else -FDT_ERR_NOSPACE
  }

  /** A length is cut on the way: that of the name that is to be added, or that of the property. */
  ghost predicate SetpropCut(h: Header, ts: seq<Token>, strings: seq<byte>, node: nat, name: seq<byte>,
                             val: seq<byte>) {
    var p := FindProp(ts, strings, node + 1, Sought(name));
    if p.At? then TagAlign(|val|) >= TWO31
    else
      && p.code == -FDT_ERR_NOTFOUND
      && (|name| + 1 >= TWO31
          || (DataEnd(h) + NameRoom(strings, name) <= h.totalsize && 12 + TagAlign(|val|) >= TWO31))
  }

  /** Names below 2^31 - 1 bytes and values of at most 2^31 - 16 are never cut. */
  lemma NeverCut(h: Header, ts: seq<Token>, strings: seq<byte>, node: nat, name: seq<byte>, val: seq<byte>)
    requires |name| + 1 < TWO31 && |val| <= TWO31 - 16
    ensures !SetpropCut(h, ts, strings, node, name, val) && Sought(name) == name
  {
    IntExact(|name|);
    hide FindProp, NameRoom, ToInt32;
  }

  /** fdt_setprop by the tokens: a property that is there is resized, one that the node lacks is added. */
  lemma SetpropMeans(h: Header, ts: seq<Token>, strings: seq<byte>, node: nat, name: seq<byte>, val: seq<byte>)
    requires node < |ts|
    ensures Lacks(ts, strings, node, Sought(name)) ==>
              SetpropResult(h, ts, strings, node, name, val) ==
                if DataEnd(h) + NameRoom(strings, name) + 12 + TagAlign(|val|) <= h.totalsize then 0
                else -FDT_ERR_NOSPACE
    ensures forall p: nat :: HasAt(ts, strings, node, Sought(name), p) ==>
              SetpropResult(h, ts, strings, node, name, val) ==
                if DataEnd(h) - TagAlign(|ts[p].value|) + TagAlign(|val|) <= h.totalsize then 0 else -FDT_ERR_NOSPACE
  {
    FindPropExact(ts, strings, node, Sought(name));
    hide FindProp, StringAt, TagAlign, Sought, NameRoom;
  }

  lemma SetpropAnyVersion(m: seq<byte>, h: Header, h': Header, ts: seq<Token>, node: nat, name: seq<byte>,
                          val: seq<byte>)
    requires StringsFit(|m|, h) && h' == h.(version := h'.version)
    ensures StringsFit(|m|, h') && Strings(m, h') == Strings(m, h)
    ensures SetpropResult(h', ts, Strings(m, h'), node, name, val) ==
              SetpropResult(h, ts, Strings(m, h), node, name, val)
    ensures SetpropCut(h', ts, Strings(m, h'), node, name, val) == SetpropCut(h, ts, Strings(m, h), node, name, val)
  {
    hide FindProp, NameRoom, TagAlign, Sought;
  }

  lemma NameOffFits(strings: seq<byte>, off: nat, name: seq<byte>)
    requires IsCString(strings, off, name) && |strings| < TWO31
    ensures off < TWO32 && StringAt(strings, off) == name
  {
    StringAtIs(strings, off, name);
  }

  /** fdt_setprop behind its header check. */
  method SetpropChecked(fdt: Blob, nodeoffset: int, name: seq<byte>, val: seq<byte>, ghost node: nat)
    returns (r: int, astray: bool)
    requires Editable(fdt.buf[..], fdt.h, fdt.tokens) && 0 !in name && |val| < TWO31
    requires node < |fdt.tokens| && fdt.tokens[node].BeginNode? && nodeoffset == Offset(fdt.tokens, node)
    modifies fdt`h, fdt`tokens, fdt.buf
    ensures RsvmapFirst(fdt.h) <==> RsvmapFirst(old(fdt.h))
    ensures !astray ==> Editable(fdt.buf[..], fdt.h, fdt.tokens)
    ensures astray <==>
              SetpropCut(old(fdt.h), old(fdt.tokens), Strings(old(fdt.buf[..]), old(fdt.h)), node, name, val)
    ensures !astray ==>
        r == SetpropResult(old(fdt.h), old(fdt.tokens), Strings(old(fdt.buf[..]), old(fdt.h)), node, name, val)
    ensures !astray && r != 0 ==>
        fdt.tokens == old(fdt.tokens) && Strings(old(fdt.buf[..]), old(fdt.h)) <= Strings(fdt.buf[..], fdt.h)
    ensures !astray && r == 0 ==>
        PropSet(old(fdt.tokens), Strings(old(fdt.buf[..]), old(fdt.h)), node, Sought(name), val, fdt.tokens,
          Strings(fdt.buf[..], fdt.h))
  {
    hide Offset, FindProp, EncodeAll, Encode, AllOk, NamesOk, EndsOnce, TagAlign, TokenOk, Strings, Struct, IsCString;
    hide StringAt, Replace, NameRoom, Sought, HasAt, Lacks;
    astray := false;
    var prop := FdtGetProperty(fdt, nodeoffset, name, node);
    if prop >= 0 {
      ghost var p := FindProp(fdt.tokens, Strings(fdt.buf[..], fdt.h), node + 1, Sought(name)).i;
      r, astray := ResizeProperty(fdt, prop, val, p);
      return;
    }
    if prop != -FDT_ERR_NOTFOUND {
      return prop, false;
    }
    var nextoffset := CheckNodeOffset(fdt, nodeoffset, node);
    var namestroff;
    namestroff, astray := FindAddStringBehind(fdt, name);
    if astray {
      return 0, true;
    }
    if namestroff < 0 {
      return namestroff, false;
    }
    SoughtExact(name);
    NameOffFits(Strings(fdt.buf[..], fdt.h), namestroff, name);
    r, astray := InsertProperty(fdt, nextoffset, namestroff, name, val, node);
  }

  /**
   fdt_setprop: on success the property reads as `val` and every other one as before (PropSetReads). If a length is
   cut on the way, the model ends with `astray` set.
   */
  method FdtSetprop(fdt: Blob, nodeoffset: int, name: seq<byte>, val: seq<byte>, ghost node: nat)
    returns (r: int, astray: bool)
    requires Readable(fdt.buf[..], fdt.h, fdt.tokens) && fdt.h.totalsize <= fdt.buf.Length && 0 !in name
    requires |val| < TWO31
    requires node < |fdt.tokens| && fdt.tokens[node].BeginNode? && nodeoffset == Offset(fdt.tokens, node)
    modifies fdt`h, fdt`tokens, fdt.buf
    ensures RsvmapFirst(fdt.h) <==> RsvmapFirst(old(fdt.h))
    ensures RwCheck(old(fdt.h)) != 0 ==>
        !astray && r == RwCheck(old(fdt.h)) && fdt.h == old(fdt.h) && fdt.buf[..] == old(fdt.buf[..])
    ensures RwCheck(old(fdt.h)) == 0 ==>
        (astray <==> SetpropCut(old(fdt.h), old(fdt.tokens), Strings(old(fdt.buf[..]), old(fdt.h)), node, name, val))
    ensures RwCheck(old(fdt.h)) == 0 && !astray ==> Editable(fdt.buf[..], fdt.h, fdt.tokens)
    ensures RwCheck(old(fdt.h)) == 0 && !astray ==>
              r == SetpropResult(old(fdt.h), old(fdt.tokens), Strings(old(fdt.buf[..]), old(fdt.h)), node, name, val)
    ensures |name| + 1 < TWO31 && |val| <= TWO31 - 16 ==> !astray
    ensures RwCheck(old(fdt.h)) == 0 && !astray ==>
              var h, ts, strings := old(fdt.h), old(fdt.tokens), Strings(old(fdt.buf[..]), old(fdt.h));
              && (Lacks(ts, strings, node, Sought(name)) ==>
                    r == if DataEnd(h) + NameRoom(strings, name) + 12 + TagAlign(|val|) <= h.totalsize then 0
                         else -FDT_ERR_NOSPACE)
              && forall p: nat :: HasAt(ts, strings, node, Sought(name), p) ==>
                   r == if DataEnd(h) - TagAlign(|ts[p].value|) + TagAlign(|val|) <= h.totalsize then 0
                        else -FDT_ERR_NOSPACE
    ensures !astray && r == 0 ==> HasValue(fdt.tokens, Strings(fdt.buf[..], fdt.h), node, Sought(name), val)
    ensures !astray && r != 0 ==> fdt.tokens == old(fdt.tokens)
    ensures !astray && r == 0 ==>
        && Editable(fdt.buf[..], fdt.h, fdt.tokens)
        && PropSet(old(fdt.tokens), Strings(old(fdt.buf[..]), old(fdt.h)), node, Sought(name), val, fdt.tokens,
             Strings(fdt.buf[..], fdt.h))
  {
    hide Offset, FindProp, EncodeAll, AllOk, NamesOk, EndsOnce, RwCheck, Strings, Struct, PropSet, SetpropResult;
    hide SetpropCut, Sought, HasAt, Lacks, HasValue, TagAlign, NameRoom;
    ghost var ts, strings := fdt.tokens, Strings(fdt.buf[..], fdt.h);
    SetpropMeans(fdt.h, ts, strings, node, name, val);
    if |name| + 1 < TWO31 && |val| <= TWO31 - 16 {
      NeverCut(fdt.h, ts, strings, node, name, val);
    }
    astray := false;
    r := RwCheckHeader(fdt);
    if r != 0 {
      return;
    }
    Checked(fdt.buf[..], old(fdt.h), fdt.tokens);
    SetpropAnyVersion(fdt.buf[..], old(fdt.h), fdt.h, fdt.tokens, node, name, val);
    r, astray := SetpropChecked(fdt, nodeoffset, name, val, node);
    if !astray && r == 0 {
      PropSetHas(ts, strings, node, Sought(name), val, fdt.tokens, Strings(fdt.buf[..], fdt.h));
    }
  }

  // ----- nodes -----

  lemma {:induction false} NodeEndBeforeLast(ts: seq<Token>, k: nat, depth: int)
    requires EndsOnce(ts) && NodeEnd(ts, k, depth).At?
    ensures NodeEnd(ts, k, depth).i < |ts|
    decreases |ts| - k
  {
    if ts[k].BeginNode? {
      NodeEndBeforeLast(ts, k + 1, depth + 1);
    } else if ts[k].EndNode? {
      if depth > 0 {
        NodeEndBeforeLast(ts, k + 1, depth - 1);
      }
    } else {
      NodeEndBeforeLast(ts, k + 1, depth);
    }
  }

  /** fdt_del_node behind its header check. */
  method DelNodeChecked(fdt: Blob, nodeoffset: int, ghost i: nat) returns (r: int)
    requires Editable(fdt.buf[..], fdt.h, fdt.tokens)
    requires i < |fdt.tokens| && fdt.tokens[i].BeginNode? && nodeoffset == Offset(fdt.tokens, i)
    modifies fdt`h, fdt`tokens, fdt.buf
    ensures RsvmapFirst(fdt.h) <==> RsvmapFirst(old(fdt.h))
    ensures var e := NodeEnd(old(fdt.tokens), i + 1, 0);
            if e.Error? then
              r == e.code && fdt.h == old(fdt.h) && fdt.tokens == old(fdt.tokens) && fdt.buf[..] == old(fdt.buf[..])
            else
              && r == 0 && Editable(fdt.buf[..], fdt.h, fdt.tokens)
              && fdt.tokens == Replace(old(fdt.tokens), i, e.i, [])
              && Strings(fdt.buf[..], fdt.h) == Strings(old(fdt.buf[..]), old(fdt.h))
  {
    hide Put, Offset, EncodeAll, AllOk, NamesOk, EndsOnce, Replace, Strings, Struct, NodeEnd;
    var endoffset := NodeEndOffset(fdt, nodeoffset, i);
    if endoffset < 0 {
      return endoffset;
    }
    ghost var e := NodeEnd(fdt.tokens, i + 1, 0).i;
    NodeEndBeforeLast(fdt.tokens, i + 1, 0);
    CutOut(fdt.buf[..], fdt.h, fdt.tokens, i, e);
    var astray;
    r, astray := SpliceStructBlock(fdt, nodeoffset, endoffset - nodeoffset, 0);
    fdt.tokens := Replace(fdt.tokens, i, e, []);
  }

  /** fdt_del_node. */
  method FdtDelNode(fdt: Blob, nodeoffset: int, ghost i: nat) returns (r: int)
    requires Readable(fdt.buf[..], fdt.h, fdt.tokens) && fdt.h.totalsize <= fdt.buf.Length
    requires i < |fdt.tokens| && fdt.tokens[i].BeginNode? && nodeoffset == Offset(fdt.tokens, i)
    modifies fdt`h, fdt`tokens, fdt.buf
    ensures RsvmapFirst(fdt.h) <==> RsvmapFirst(old(fdt.h))
    ensures var e := NodeEnd(old(fdt.tokens), i + 1, 0);
            && r == (if RwCheck(old(fdt.h)) != 0 then RwCheck(old(fdt.h)) else if e.Error? then e.code else 0)
            && (r != 0 ==> fdt.tokens == old(fdt.tokens) && fdt.buf[..] == old(fdt.buf[..]))
            && (r == 0 ==> Editable(fdt.buf[..], fdt.h, fdt.tokens)
                           && fdt.tokens == Replace(old(fdt.tokens), i, e.i, [])
                           && Strings(fdt.buf[..], fdt.h) == Strings(old(fdt.buf[..]), old(fdt.h)))
  {
    hide Offset, EncodeAll, AllOk, NamesOk, EndsOnce, Replace, RwCheck, Strings, Struct, NodeEnd;
    r := RwCheckHeader(fdt);
    if r != 0 {
      return;
    }
    Checked(fdt.buf[..], old(fdt.h), fdt.tokens);
    r := DelNodeChecked(fdt, nodeoffset, i);
  }

  // ----- overwriting with NOPs -----

  function NopWords(n: nat): (s: seq<byte>)
    ensures |s| == 4 * n
  {
    if n == 0 then [] else Be32(FDT_NOP) + NopWords(n - 1)
  }

  lemma {:induction false} NopBytes(n: nat)
    ensures EncodeAll(Nops(n)) == NopWords(n)
  {
    if n > 0 {
      NopBytes(n - 1);
      assert Nops(n)[1..] == Nops(n - 1);
    }
  }

  lemma {:induction false} NopWordsEnd(n: nat)
    ensures NopWords(n + 1) == NopWords(n) + Be32(FDT_NOP)
  {
    hide Be32;
    if n > 0 {
      NopWordsEnd(n - 1);
    }
  }

  lemma PutBehind(m: seq<byte>, at: nat, a: seq<byte>, b: seq<byte>)
    requires at + |a| + |b| <= |m|
    ensures Put(Put(m, at, a), at + |a|, b) == Put(m, at, a + b)
  {}

  lemma NoWords(m: seq<byte>, at: nat)
    requires at <= |m|
    ensures NopWords(0) == [] && Put(m, at, []) == m
  {}

  /** _fdt_nop_region: whole words, up to and including the one that holds the last byte. */
  method NopRegion(a: array<byte>, start: nat, len: nat)
    requires start + TagAlign(len) <= a.Length
    modifies a
    ensures a[..] == Put(old(a[..]), start, NopWords(TagAlign(len) / 4))
  {
    hide Put, Be32, NopWords;
    ghost var m := a[..];
    ghost var n := 0;
    assert NopWords(0) == [] && Put(m, start, []) == m by { NoWords(m, start); }
    var p := start;
    while p < start + len
      invariant p == start + 4 * n && 4 * n <= TagAlign(len)
      invariant a[..] == Put(m, start, NopWords(n))
      decreases start + len - p
    {
      MemCpy(a, p, Be32(FDT_NOP));
      NopWordsEnd(n);
      PutBehind(m, start, NopWords(n), Be32(FDT_NOP));
      p, n := p + 4, n + 1;
    }
  }

  /** The strings block is clear of the structure block. */
  predicate Apart(h: Header) {
    h.offStruct + h.sizeStruct <= h.offStrings || h.offStrings + h.sizeStrings <= h.offStruct
  }

  lemma PutIsAround(s: seq<byte>, o: nat, data: seq<byte>)
    requires o + |data| <= |s|
    ensures Put(s, o, data) == s[..o] + data + s[o + |data|..]
  {}

  /** Overwriting tokens with as many bytes of NOPs. */
  lemma Overwritten(m: seq<byte>, h: Header, ts: seq<Token>, i: nat, j: nat, n: nat)
    requires Readable(m, h, ts) && Apart(h) && i <= j < |ts| && Offset(ts, j) - Offset(ts, i) == 4 * n
    ensures h.offStruct + Offset(ts, i) + 4 * n <= |m|
    ensures var m' := Put(m, h.offStruct + Offset(ts, i), NopWords(n));
            Readable(m', h, Replace(ts, i, j, Nops(n))) && Strings(m', h) == Strings(m, h)
  {
    hide Put, Offset, TokenOk, EncodeAll, AllOk, NopWords, IsCString, StringAt;
    var base, o := h.offStruct, Offset(ts, i);
    OffsetMono(ts, i, j);
    NopBytes(n);
    ReplaceBytes(ts, i, j, Nops(n));
    ReplaceKeeps(ts, i, j, Nops(n), Strings(m, h));
    PutSlice(m, base, base + h.sizeStruct, o, NopWords(n));
    PutIsAround(Struct(m, h), o, NopWords(n));
    PutApart(m, base + o, NopWords(n), h.offStrings, h.offStrings + h.sizeStrings);
  }

  /** Tokens [i, j) overwritten by NOPs. */
  function NoppedOut(ts: seq<Token>, i: nat, j: nat): seq<Token>
    requires AllOk(ts) && i <= j <= |ts|
  {
    OffsetMono(ts, i, j);
    Replace(ts, i, j, Nops((Offset(ts, j) - Offset(ts, i)) / 4))
  }

  /** The words of a property, its padding included. */
  lemma PropWordCount(len: nat)
    ensures TagAlign(len + 12) == 12 + TagAlign(len)
  {
    TagAlignAdd(12, len);
  }

  /** fdt_nop_property. */
  method FdtNopProperty(fdt: Blob, nodeoffset: int, name: seq<byte>, ghost node: nat) returns (r: int)
    requires Readable(fdt.buf[..], fdt.h, fdt.tokens) && Apart(fdt.h)
    requires node < |fdt.tokens| && fdt.tokens[node].BeginNode? && nodeoffset == Offset(fdt.tokens, node)
    modifies fdt`tokens, fdt.buf
    ensures var p := FindProp(old(fdt.tokens), Strings(old(fdt.buf[..]), fdt.h), node + 1, Sought(name));
            if p.Error? then r == p.code && fdt.tokens == old(fdt.tokens) && fdt.buf[..] == old(fdt.buf[..])
            else
              && r == 0 && Readable(fdt.buf[..], fdt.h, fdt.tokens)
              && Strings(fdt.buf[..], fdt.h) == Strings(old(fdt.buf[..]), fdt.h)
              && fdt.tokens == NoppedOut(old(fdt.tokens), p.i, p.i + 1)
    ensures var ts, strings := old(fdt.tokens), Strings(old(fdt.buf[..]), fdt.h);
            && (r == -FDT_ERR_NOTFOUND <==> Lacks(ts, strings, node, Sought(name)))
            && forall p: nat :: HasAt(ts, strings, node, Sought(name), p) ==>
                 r == 0 && fdt.tokens == NoppedOut(ts, p, p + 1)
  {
    hide Put, Offset, FindProp, EncodeAll, AllOk, NamesOk, EndsOnce, TagAlign, Replace, TokenOk, Strings, Struct;
    hide NopWords, Nops, HasAt, Lacks, Sought;
    FindPropExact(fdt.tokens, Strings(fdt.buf[..], fdt.h), node, Sought(name));
    var prop := FdtGetProperty(fdt, nodeoffset, name, node);
    if prop < 0 {
      return prop;
    }
    ghost var p := FindProp(fdt.tokens, Strings(fdt.buf[..], fdt.h), node + 1, Sought(name)).i;
    ghost var n := (Offset(fdt.tokens, p + 1) - Offset(fdt.tokens, p)) / 4;
    NotLast(fdt.tokens, p);
    PropWords(fdt.buf[..], fdt.h, fdt.tokens, p);
    var len := ReadWord(fdt.buf, fdt.h.offStruct + (prop + 4));
    PropWordCount(len);
    Overwritten(fdt.buf[..], fdt.h, fdt.tokens, p, p + 1, n);
    NopRegion(fdt.buf, fdt.h.offStruct + prop, len + 12);
    fdt.tokens := Replace(fdt.tokens, p, p + 1, Nops(n));
    return 0;
  }

  /** fdt_nop_node. */
  method FdtNopNode(fdt: Blob, nodeoffset: int, ghost i: nat) returns (r: int)
    requires Readable(fdt.buf[..], fdt.h, fdt.tokens) && Apart(fdt.h)
    requires i < |fdt.tokens| && fdt.tokens[i].BeginNode? && nodeoffset == Offset(fdt.tokens, i)
    modifies fdt`tokens, fdt.buf
    ensures var e := NodeEnd(old(fdt.tokens), i + 1, 0);
            if e.Error? then r == e.code && fdt.tokens == old(fdt.tokens) && fdt.buf[..] == old(fdt.buf[..])
            else
              && r == 0 && Readable(fdt.buf[..], fdt.h, fdt.tokens)
              && Strings(fdt.buf[..], fdt.h) == Strings(old(fdt.buf[..]), fdt.h)
              && fdt.tokens == NoppedOut(old(fdt.tokens), i, e.i)
  {
    hide Put, Offset, EncodeAll, AllOk, NamesOk, EndsOnce, TagAlign, Replace, TokenOk, Strings, Struct, NopWords, Nops;
    hide NodeEnd;
    var endoffset := NodeEndOffset(fdt, nodeoffset, i);
    if endoffset < 0 {
      return endoffset;
    }
    ghost var e := NodeEnd(fdt.tokens, i + 1, 0).i;
    NodeEndBeforeLast(fdt.tokens, i + 1, 0);
    OffsetMono(fdt.tokens, i, e);
    ghost var n := (Offset(fdt.tokens, e) - Offset(fdt.tokens, i)) / 4;
    Overwritten(fdt.buf[..], fdt.h, fdt.tokens, i, e, n);
    NopRegion(fdt.buf, fdt.h.offStruct + nodeoffset, endoffset - nodeoffset);
    fdt.tokens := Replace(fdt.tokens, i, e, Nops(n));
    return 0;
  }

  /** Deleting by NOPs and deleting by moving leave the same NOP-free stream, and NOPs move no other token. */
  lemma DeletionsAgree(ts: seq<Token>, i: nat, j: nat, k: nat)
    requires AllOk(ts) && i <= j <= |ts| && k <= |ts|
    ensures Strip(NoppedOut(ts, i, j)) == Strip(Replace(ts, i, j, []))
    ensures AllOk(NoppedOut(ts, i, j))
    ensures k <= i ==> k <= |NoppedOut(ts, i, j)| && Offset(NoppedOut(ts, i, j), k) == Offset(ts, k)
    ensures k >= j ==>
        && |ts| - k <= |NoppedOut(ts, i, j)|
        && Offset(NoppedOut(ts, i, j), |NoppedOut(ts, i, j)| - (|ts| - k)) == Offset(ts, k)
  {
    hide Offset, TokenOk, EncodeAll, Strip, AllOk;
    OffsetMono(ts, i, j);
    var n := (Offset(ts, j) - Offset(ts, i)) / 4;
    NopOutIsCutOut(ts, i, j, n);
    StripNops(n);
    ReplaceBytes(ts, i, j, Nops(n));
    if k <= i {
      ReplaceOffsetBefore(ts, i, j, Nops(n), k);
    }
    if k >= j {
      ReplaceOffsetBehind(ts, i, j, Nops(n), k);
    }
  }

  // ----- fdt_add_subnode -----

  function Zeros(n: nat): (z: seq<byte>)
    ensures |z| == n
  {
    seq(n, _ => 0)
  }

  /** The tokens of a new node without properties. */
  function EmptyNode(name: seq<byte>): seq<Token> {
    [BeginNode(name, Zeros(TagAlign(|name| + 1) - (|name| + 1))), EndNode]
  }

  lemma EmptyNodeBytes(name: seq<byte>)
    requires 0 !in name
    ensures AllOk(EmptyNode(name))
    ensures EncodeAll(EmptyNode(name)) ==
              Be32(FDT_BEGIN_NODE) + (name + Zeros(TagAlign(|name| + 1) - |name|)) + Be32(FDT_END_NODE)
    ensures |EncodeAll(EmptyNode(name))| == 8 + TagAlign(|name| + 1)
  {
    hide Be32;
    var t := BeginNode(name, Zeros(TagAlign(|name| + 1) - (|name| + 1)));
    var n := TagAlign(|name| + 1) - |name|;
    assert TokenOk(t) && TokenOk(EndNode);
    assert EmptyNode(name)[1..] == [EndNode];
    EncodeOne(EndNode);
    assert Encode(t) == Be32(FDT_BEGIN_NODE) + name + [0] + Zeros(n - 1);
    assert [0] + Zeros(n - 1) == Zeros(n);
    assert Encode(t) == Be32(FDT_BEGIN_NODE) + (name + Zeros(n));
  }

  lemma PutOver(m: seq<byte>, at: nat, z: seq<byte>, s: seq<byte>)
    requires at + |z| <= |m| && |s| <= |z|
    ensures Put(Put(m, at, z), at, s) == Put(m, at, s + z[|s|..])
  {}

  /** Writes an empty node. */
  method PutEmptyNode(a: array<byte>, nh: nat, name: seq<byte>)
    requires 0 !in name && nh + 8 + TagAlign(|name| + 1) <= a.Length
    modifies a
    ensures AllOk(EmptyNode(name)) && |EncodeAll(EmptyNode(name))| == 8 + TagAlign(|name| + 1)
    ensures a[..] == Put(old(a[..]), nh, EncodeAll(EmptyNode(name)))
  {
    hide Put, Be32, TagAlign, EncodeAll, Encode, AllOk, EmptyNode;
    EmptyNodeBytes(name);
    ghost var m, w, e, n := a[..], Be32(FDT_BEGIN_NODE), Be32(FDT_END_NODE), TagAlign(|name| + 1);
    MemCpy(a, nh, Be32(FDT_BEGIN_NODE));
    MemSet(a, nh + 4, 0, TagAlign(|name| + 1));
    MemCpy(a, nh + 4, name);
    MemCpy(a, nh + 4 + TagAlign(|name| + 1), Be32(FDT_END_NODE));
    var z := Zeros(n);
    PutOver(Put(m, nh, w), nh + 4, z, name);
    assert z[|name|..] == Zeros(n - |name|);
    PutBehind(m, nh, w, name + Zeros(n - |name|));
    PutBehind(m, nh, w + (name + Zeros(n - |name|)), e);
  }

  /** The first token at or after `k` that is neither a property nor a NOP. */
  function PropsEnd(ts: seq<Token>, k: nat): (r: nat)
    ensures k <= |ts| ==> k <= r <= |ts|
    ensures k <= |ts| ==>
        (r < |ts| ==> !ts[r].Prop? && !ts[r].Nop?) && forall j :: k <= j < r ==> ts[j].Prop? || ts[j].Nop?
    decreases |ts| - k
  {
    if k < |ts| && (ts[k].Prop? || ts[k].Nop?) then PropsEnd(ts, k + 1) else k
  }

  /** Inserting an empty node is a splice. */
  lemma NodeInsertIsEdit(m: seq<byte>, h: Header, ts: seq<Token>, k: nat, name: seq<byte>)
    requires Editable(m, h, ts) && k < |ts| && 0 !in name
    requires DataEnd(h) + 8 + TagAlign(|name| + 1) <= h.totalsize
    ensures AllOk(EmptyNode(name)) && |EncodeAll(EmptyNode(name))| == 8 + TagAlign(|name| + 1)
    ensures var o, data := Offset(ts, k), EncodeAll(EmptyNode(name));
            && CanSplice(|m|, h, o, 0, |data|)
            && var m1 := Put(m, h.offStruct + o + |data|, m[h.offStruct + o..DataEnd(h)]);
               var m2, h1 := Put(m1, h.offStruct + o, data), SpliceHdr(h, 0, |data|);
               Editable(m2, h1, Replace(ts, k, k, EmptyNode(name))) && Strings(m2, h1) == Strings(m, h)
  {
    hide Put, Offset, StringAt, IsCString, TokenOk, Encode, TagAlign, AllOk, EncodeAll;
    EmptyNodeBytes(name);
    ReplaceKeeps(ts, k, k, EmptyNode(name), Strings(m, h));
    Edited(m, h, ts, k, k, EmptyNode(name));
  }

  /** fdt_add_subnode's search for the place behind the parent's properties. */
  method PlaceForSubnode(fdt: Blob, parentoffset: int, ghost i: nat) returns (offset: int)
    requires Parsed(fdt.buf[..], fdt.h, fdt.tokens) && EndsOnce(fdt.tokens)
    requires i < |fdt.tokens| && fdt.tokens[i].BeginNode? && parentoffset == Offset(fdt.tokens, i)
    ensures PropsEnd(fdt.tokens, i + 1) < |fdt.tokens| && offset == Offset(fdt.tokens, PropsEnd(fdt.tokens, i + 1))
  {
    hide Offset, EncodeAll, AllOk, Struct, Tag;
    var tag;
    var nextoffset;
    tag, nextoffset := NextToken(fdt, parentoffset, i);
    ghost var k := i + 1;
    while true
      invariant i < k < |fdt.tokens| && nextoffset == Offset(fdt.tokens, k)
      invariant PropsEnd(fdt.tokens, i + 1) == PropsEnd(fdt.tokens, k)
      decreases |fdt.tokens| - k
    {
      offset := nextoffset;
      tag, nextoffset := NextToken(fdt, offset, k);
      TagOf(fdt.tokens[k]);
      if tag != FDT_PROP && tag != FDT_NOP {
        return;
      }
      k := k + 1;
    }
  }

  /** A child of node `i` goes by that name, or by that name without its unit address. */
  ghost predicate HasChild(ts: seq<Token>, i: nat, name: seq<byte>) {
    exists j: nat :: Child(ts, i, j) && NameMatches(ts[j].name, name)
  }

  /** The search before a node is added, by the tree. */
  lemma ChildSought(ts: seq<Token>, i: nat, name: seq<byte>)
    requires IsTree(ts) && i < |ts| && ts[i].BeginNode?
    ensures SubnodeNamed(ts, i + 1, 0, name).At? <==> HasChild(ts, i, name)
    ensures SubnodeNamed(ts, i + 1, 0, name) == Error(-FDT_ERR_NOTFOUND) <==> !HasChild(ts, i, name)
  {
    hide SubnodeNamed, IsTree, Child, NameMatches;
    NamedChild(ts, i, name);
  }

  /** No child matches, and the length of the node is cut. */
  ghost predicate SubnodeCut(ts: seq<Token>, i: nat, name: seq<byte>) {
    SubnodeNamed(ts, i + 1, 0, name) == Error(-FDT_ERR_NOTFOUND) && 8 + TagAlign(|name| + 1) >= TWO31
  }

  /** fdt_add_subnode_namelen behind its header check. */
  method AddSubnodeChecked(fdt: Blob, parentoffset: int, name: seq<byte>, ghost i: nat) returns (r: int, astray: bool)
    requires Editable(fdt.buf[..], fdt.h, fdt.tokens) && 0 !in name && |name| < TWO31
    requires i < |fdt.tokens| && fdt.tokens[i].BeginNode? && parentoffset == Offset(fdt.tokens, i)
    modifies fdt`h, fdt`tokens, fdt.buf
    ensures RsvmapFirst(fdt.h) <==> RsvmapFirst(old(fdt.h))
    ensures astray <==> SubnodeCut(old(fdt.tokens), i, name)
    ensures !astray ==> var c := SubnodeNamed(old(fdt.tokens), i + 1, 0, name);
            && (c.At? ==> r == -FDT_ERR_EXISTS)
            && (c.Error? && c.code != -FDT_ERR_NOTFOUND ==> r == c.code)
            && (c.Error? && c.code == -FDT_ERR_NOTFOUND && r < 0 ==> r == -FDT_ERR_NOSPACE)
            && (c == Error(-FDT_ERR_NOTFOUND) ==>
                  (r >= 0 <==> DataEnd(old(fdt.h)) + 4 + TagAlign(|name| + 1) + 4 <= old(fdt.h).totalsize))
    ensures r < 0 ==> fdt.h == old(fdt.h) && fdt.tokens == old(fdt.tokens) && fdt.buf[..] == old(fdt.buf[..])
    ensures !astray && r >= 0 ==>
        CanSplice(fdt.buf.Length, old(fdt.h), r, 0, 8 + TagAlign(|name| + 1))
        && fdt.h == SpliceHdr(old(fdt.h), 0, 8 + TagAlign(|name| + 1))
    ensures !astray && r >= 0 ==> var k := PropsEnd(old(fdt.tokens), i + 1);
              && k <= |old(fdt.tokens)| && r == Offset(old(fdt.tokens), k)
              && fdt.tokens == Replace(old(fdt.tokens), k, k, EmptyNode(name))
              && Editable(fdt.buf[..], fdt.h, fdt.tokens)
              && Strings(fdt.buf[..], fdt.h) == Strings(old(fdt.buf[..]), old(fdt.h))
  {
    hide Put, Offset, EncodeAll, AllOk, NamesOk, EndsOnce, TagAlign, Replace, TokenOk, Strings, Struct, SubnodeNamed;
    hide PropsEnd, EmptyNode, NodeLen;
    ghost var m, h, ts := fdt.buf[..], fdt.h, fdt.tokens;
    astray := false;
    var offset := FdtSubnodeOffset(fdt, parentoffset, name, i);
    if offset >= 0 {
      return -FDT_ERR_EXISTS, false;
    } else if offset != -FDT_ERR_NOTFOUND {
      return offset, false;
    }
    offset := PlaceForSubnode(fdt, parentoffset, i);
    ghost var k := PropsEnd(ts, i + 1);
    NodeRoom(m, h, ts, k);
    OffsetMono(ts, k, k + 1);
    var nodelen := NodeLen(|name|);
    NodeLenExact(|name|);
    r, astray := SpliceStructBlock(fdt, offset, 0, nodelen);
    if r != 0 || astray {
      return;
    }
    NodeInsertIsEdit(m, h, ts, k, name);
    PutEmptyNode(fdt.buf, fdt.h.offStruct + offset, name);
    fdt.tokens := Replace(ts, k, k, EmptyNode(name));
    r := offset;
  }

  /** A header that was accepted is accepted after a splice for which there was room. */
  lemma StillAccepted(size: nat, h: Header, o: nat, newlen: nat)
    requires RwCheck(h) == 0 && CanSplice(size, h.(version := 17), o, 0, newlen)
    ensures RwCheck(SpliceHdr(h.(version := 17), 0, newlen)) == 0
  {}

  /** fdt_add_subnode_namelen. If the length of the node is cut, the model ends with `astray` set. */
  method FdtAddSubnode(fdt: Blob, parentoffset: int, name: seq<byte>, ghost i: nat) returns (r: int, astray: bool)
    requires Readable(fdt.buf[..], fdt.h, fdt.tokens) && fdt.h.totalsize <= fdt.buf.Length && 0 !in name
    requires |name| < TWO31
    requires i < |fdt.tokens| && fdt.tokens[i].BeginNode? && parentoffset == Offset(fdt.tokens, i)
    modifies fdt`h, fdt`tokens, fdt.buf
    ensures RsvmapFirst(fdt.h) <==> RsvmapFirst(old(fdt.h))
    ensures RwCheck(old(fdt.h)) != 0 ==> !astray && r == RwCheck(old(fdt.h))
    ensures RwCheck(old(fdt.h)) == 0 ==> (astray <==> SubnodeCut(old(fdt.tokens), i, name))
    ensures RwCheck(old(fdt.h)) == 0 && !astray ==> var c := SubnodeNamed(old(fdt.tokens), i + 1, 0, name);
              && (c.At? ==> r == -FDT_ERR_EXISTS)
              && (c.Error? && c.code != -FDT_ERR_NOTFOUND ==> r == c.code)
              && (c == Error(-FDT_ERR_NOTFOUND) && r < 0 ==> r == -FDT_ERR_NOSPACE)
              && (c == Error(-FDT_ERR_NOTFOUND) ==>
                    (r >= 0 <==> DataEnd(old(fdt.h)) + 4 + TagAlign(|name| + 1) + 4 <= old(fdt.h).totalsize))
    ensures RwCheck(old(fdt.h)) == 0 && !astray && IsTree(old(fdt.tokens)) ==>
              if HasChild(old(fdt.tokens), i, name) then r == -FDT_ERR_EXISTS
              else if DataEnd(old(fdt.h)) + 8 + TagAlign(|name| + 1) <= old(fdt.h).totalsize then r >= 0
              else r == -FDT_ERR_NOSPACE
    ensures r < 0 ==> fdt.tokens == old(fdt.tokens) && fdt.buf[..] == old(fdt.buf[..])
                      && (fdt.h == old(fdt.h) || fdt.h == old(fdt.h).(version := 17))
    ensures !astray && r >= 0 ==> RwCheck(old(fdt.h)) == 0 && RwCheck(fdt.h) == 0
    ensures !astray && r >= 0 ==> var k := PropsEnd(old(fdt.tokens), i + 1);
              && k <= |old(fdt.tokens)| && r == Offset(old(fdt.tokens), k)
              && fdt.tokens == Replace(old(fdt.tokens), k, k, EmptyNode(name))
              && Editable(fdt.buf[..], fdt.h, fdt.tokens)
              && Strings(fdt.buf[..], fdt.h) == Strings(old(fdt.buf[..]), old(fdt.h))
  {
    hide Offset, EncodeAll, AllOk, NamesOk, EndsOnce, Replace, Strings, Struct, SubnodeNamed, PropsEnd, EmptyNode;
    hide HasChild, IsTree;
    if IsTree(fdt.tokens) {
      ChildSought(fdt.tokens, i, name);
    }
    astray := false;
    r := RwCheckHeader(fdt);
    if r != 0 {
      return;
    }
    Checked(fdt.buf[..], old(fdt.h), fdt.tokens);
    r, astray := AddSubnodeChecked(fdt, parentoffset, name, i);
    if r >= 0 && !astray {
      StillAccepted(fdt.buf.Length, old(fdt.h), r, 8 + TagAlign(|name| + 1));
    }
  }

  /** The end of the node just inserted, and the list without it. */
  lemma InsertedThenCut(ts: seq<Token>, k: nat, name: seq<byte>)
    requires k <= |ts|
    ensures var ts' := Replace(ts, k, k, EmptyNode(name));
            && k < |ts'| && ts'[k].BeginNode? && NodeEnd(ts', k + 1, 0) == At(k + 2) && Replace(ts', k, k + 2, []) == ts
  {
    hide Zeros, TagAlign;
    var ts' := Replace(ts, k, k, EmptyNode(name));
    assert ts'[k + 1] == EndNode;
    assert Replace(ts', k, k + 2, []) == ts[..k] + [] + ts[k..];
  }

  lemma InsertedAt(ts: seq<Token>, k: nat, name: seq<byte>)
    requires AllOk(ts) && k <= |ts| && AllOk(Replace(ts, k, k, EmptyNode(name)))
    ensures Offset(Replace(ts, k, k, EmptyNode(name)), k) == Offset(ts, k)
  {
    hide EmptyNode, EncodeAll, TokenOk;
    assert Replace(ts, k, k, EmptyNode(name))[..k] == ts[..k];
  }

  lemma ReadableAs17(m: seq<byte>, h: Header, ts: seq<Token>)
    requires Readable(m, h, ts)
    ensures var h' := h.(version := 17);
            Readable(m, h', ts) && Struct(m, h') == Struct(m, h) && Strings(m, h') == Strings(m, h)
  {
    hide NamesOk, EndsOnce, EncodeAll, AllOk;
  }

  /**
   fdt_del_node on the offset that fdt_add_subnode_namelen returned succeeds and restores both blocks byte for byte.
   */
  method AddThenDelete(fdt: Blob, parentoffset: int, name: seq<byte>, ghost i: nat)
    returns (r: int, astray: bool, d: int)
    requires Readable(fdt.buf[..], fdt.h, fdt.tokens) && fdt.h.totalsize <= fdt.buf.Length && 0 !in name
    requires |name| < TWO31
    requires i < |fdt.tokens| && fdt.tokens[i].BeginNode? && parentoffset == Offset(fdt.tokens, i)
    modifies fdt`h, fdt`tokens, fdt.buf
    ensures !astray ==> d == 0 && Readable(fdt.buf[..], fdt.h, fdt.tokens)
    ensures !astray ==> Struct(fdt.buf[..], fdt.h) == Struct(old(fdt.buf[..]), old(fdt.h))
    ensures !astray ==> Strings(fdt.buf[..], fdt.h) == Strings(old(fdt.buf[..]), old(fdt.h))
  {
    hide Put, Offset, EncodeAll, AllOk, NamesOk, EndsOnce, Replace, Strings, Struct, SubnodeNamed, PropsEnd, EmptyNode;
    hide NodeEnd, RwCheck;
    ghost var ts := fdt.tokens;
    ReadableAs17(fdt.buf[..], fdt.h, ts);
    d := 0;
    r, astray := FdtAddSubnode(fdt, parentoffset, name, i);
    if r >= 0 && !astray {
      ghost var k := PropsEnd(ts, i + 1);
      InsertedThenCut(ts, k, name);
      InsertedAt(ts, k, name);
      d := FdtDelNode(fdt, r, k);
    }
  }
}
