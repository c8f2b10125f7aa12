/** The functions of lib/libfdt/fdt_sw.c, in place on a blob. */
module FdtSw {
  import opened Words
  import opened Wrappers
  import opened Memory
  import opened FdtFormat
  import opened FdtBlob
  import opened FdtSwSpec
  import opened FdtTokens
  import opened FdtRo

  /** The space of the buffer is divided between structure block and string table. */
  predicate HasRoom(size: nat, h: Header) {
    && StructFits(size, h) && h.magic == FDT_SW_MAGIC && h.totalsize <= size
    && h.offStruct + h.sizeStruct + h.sizeStrings <= h.totalsize
  }

  /** The string table of an unfinished blob: the last bytes of the buffer. */
  function Table(m: seq<byte>, h: Header): (s: seq<byte>)
    requires h.sizeStrings <= h.totalsize <= |m|
    ensures |s| == h.sizeStrings
  {
    m[h.totalsize - h.sizeStrings..h.totalsize]
  }

  /** An unfinished blob that holds the calls `es` as tokens `ts`. */
  ghost predicate Writing(m: seq<byte>, h: Header, ts: seq<Token>, es: seq<Event>) {
    HasRoom(|m|, h) && Parsed(m, h, ts) && Recorded(es, ts, Table(m, h))
  }

  function Used(h: Header): nat { h.offStruct + h.sizeStruct + h.sizeStrings }

  /** The header after `len` more bytes of structure block were taken. */
  function Grown(h: Header, len: nat): Header { h.(sizeStruct := h.sizeStruct + len) }

  /** What the writer never changes in a header behind the reserve map. */
  predicate KeepsFormat(h: Header, h': Header) {
    && h'.version == h.version && h'.lastCompVersion == h.lastCompVersion && h'.offRsvmap == h.offRsvmap
    && h'.offStruct == h.offStruct
  }

  // ----- starting -----

  /** fdt_create. */
  method FdtCreate(fdt: Blob, bufsize: nat) returns (r: int)
    requires bufsize <= fdt.buf.Length < TWO31 - 4
    modifies fdt, fdt.buf
    ensures r == if bufsize < 40 then -FDT_ERR_NOSPACE else 0
    ensures r == 0 ==> fdt.tokens == [] && fdt.h == Header(FDT_SW_MAGIC, bufsize, 48, bufsize, 48, 17, 16, 0, 0)
                       && forall i :: 0 <= i < bufsize ==> fdt.buf[i] == 0
  {
    if bufsize < 40 {
      return -FDT_ERR_NOSPACE;
    }
    MemSet(fdt.buf, 0, 0, bufsize);
    fdt.h := Header(FDT_SW_MAGIC, bufsize, 48, bufsize, 48, 17, 16, 0, 0);
    fdt.tokens := [];
    return 0;
  }

  function Be64(n: nat): seq<byte>
    requires n < TWO32 * TWO32
  {
    Be32(n / TWO32) + Be32(n % TWO32)
  }

  /** fdt_add_reservemap_entry; with zeros, fdt_finish_reservemap. */
  method FdtAddReservemapEntry(fdt: Blob, address: nat, size: nat) returns (r: int)
    requires fdt.buf.Length < TWO31 - 4 && fdt.h.version >= 17
    requires fdt.h.totalsize <= fdt.buf.Length && fdt.h.sizeStrings == 0 && fdt.tokens == []
    requires address < TWO32 * TWO32 && size < TWO32 * TWO32
    modifies fdt`h, fdt.buf
    ensures r == if old(fdt.h).magic != FDT_SW_MAGIC then -FDT_ERR_BADMAGIC
                 else if old(fdt.h).sizeStruct != 0 then -FDT_ERR_BADSTATE
                 else if old(fdt.h).offStruct + 16 > old(fdt.h).totalsize then -FDT_ERR_NOSPACE else 0
    ensures r != 0 ==> fdt.h == old(fdt.h) && fdt.buf[..] == old(fdt.buf[..])
    ensures r == 0 ==> fdt.h == old(fdt.h).(offStruct := old(fdt.h).offStruct + 16)
                       && fdt.buf[..] == Put(old(fdt.buf[..]), old(fdt.h).offStruct, Be64(address) + Be64(size))
                       && Writing(fdt.buf[..], fdt.h, [], [])
  {
    hide Put;
    if fdt.h.magic != FDT_SW_MAGIC {
      return -FDT_ERR_BADMAGIC;
    }
    if fdt.h.sizeStruct != 0 {
      return -FDT_ERR_BADSTATE;
    }
    var offset := fdt.h.offStruct;
    if offset + 16 > fdt.h.totalsize {
      return -FDT_ERR_NOSPACE;
    }
    MemCpy(fdt.buf, offset, Be64(address) + Be64(size));
    fdt.h := fdt.h.(offStruct := offset + 16);
    return 0;
  }

  // ----- nodes -----

  /** _fdt_grab_space: the position of `len` more bytes of structure block, or -1. */
  method GrabSpace(fdt: Blob, len: nat) returns (p: int)
    requires HasRoom(fdt.buf.Length, fdt.h) && len < TWO64
    modifies fdt`h
    ensures if Used(old(fdt.h)) + len <= old(fdt.h).totalsize
            then p == old(fdt.h).offStruct + old(fdt.h).sizeStruct && fdt.h == Grown(old(fdt.h), len)
            else p == -1 && fdt.h == old(fdt.h)
  {
    var offset := fdt.h.sizeStruct;
    var spaceleft := fdt.h.totalsize - fdt.h.offStruct - fdt.h.sizeStrings;
    if (offset + len) % TWO64 < offset || (offset + len) % TWO64 > spaceleft {
      return -1;
    }
    fdt.h := Grown(fdt.h, len);
    return fdt.h.offStruct + offset;
  }

  /** Writing a token behind the structure block records a call. */
  lemma Append(m: seq<byte>, h: Header, ts: seq<Token>, es: seq<Event>, e: Event, t: Token)
    requires Writing(m, h, ts, es) && TokenOk(t) && Records(e, t, Table(m, h)) && Used(h) + |Encode(t)| <= h.totalsize
    ensures Writing(Put(m, h.offStruct + h.sizeStruct, Encode(t)), Grown(h, |Encode(t)|), ts + [t], es + [e])
  {
    hide TokenOk, Encode, EncodeAll, Put, Records, Recorded, AllOk;
    AppendRecord(m, Put(m, h.offStruct + h.sizeStruct, Encode(t)), h.offStruct, h.totalsize - h.sizeStrings,
      h.totalsize, es, ts, e, t);
  }

  lemma BeginNodeBytes(m: seq<byte>, nh: nat, name: seq<byte>) returns (t: Token)
    requires 0 !in name && nh + 4 + TagAlign(|name| + 1) <= |m|
    ensures t.BeginNode? && t.name == name && TokenOk(t) && |Encode(t)| == 4 + TagAlign(|name| + 1)
    ensures Put(Put(m, nh, Be32(FDT_BEGIN_NODE)), nh + 4, name + [0]) == Put(m, nh, Encode(t))
  {
    hide Put, Be32, TokenOk, Encode;
    var n, w := |name| + 1, Be32(FDT_BEGIN_NODE);
    var m1 := Put(m, nh, w);
    var m2 := Put(m1, nh + 4, name + [0]);
    PutAt(m, nh, w);
    PutApart(m1, nh + 4, name + [0], nh, nh + 4);
    PutAt(m1, nh + 4, name + [0]);
    BeginBytes(m2, nh, name);
    t := BeginNode(name, m2[nh + 4 + n..nh + 4 + TagAlign(n)]);
    PutPut(m, nh, w, nh + 4, name + [0], nh, nh + 4 + TagAlign(n));
  }

  /** Writes the tag and the name of a node; the bytes up to the alignment stay as they are. */
  method PutBeginNode(a: array<byte>, nh: nat, name: seq<byte>) returns (ghost t: Token)
    requires 0 !in name && nh + 4 + TagAlign(|name| + 1) <= a.Length
    modifies a
    ensures t.BeginNode? && t.name == name && TokenOk(t) && |Encode(t)| == 4 + TagAlign(|name| + 1)
    ensures a[..] == Put(old(a[..]), nh, Encode(t))
  {
    hide Put, Be32, TokenOk, Encode;
    MemCpy(a, nh, Be32(FDT_BEGIN_NODE));
    MemCpy(a, nh + 4, name + [0]);
    t := BeginNodeBytes(old(a[..]), nh, name);
  }

  /** Writes a token that is nothing but its tag. */
  method PutTag(a: array<byte>, at: nat, t: Token)
    requires !t.BeginNode? && !t.Prop? && at + 4 <= a.Length
    modifies a
    ensures TokenOk(t) && |Encode(t)| == 4 && a[..] == Put(old(a[..]), at, Encode(t))
  {
    TagBytes(t);
    MemCpy(a, at, Be32(Tag(t)));
  }

  /** The space that fdt_begin_node asks for, for a name of `n` bytes with its zero byte: `n` is cut to an int. */
  function NodeSpace(n: nat): (r: nat)
    ensures r < TWO64
  {
    (4 + TagAlign(ToInt32(n) % TWO64)) % TWO64
  }

  /** The name is cut, and there is space for what is left of it. */
  predicate NameCut(h: Header, n: nat) {
    ToInt32(n) != n && Used(h) + NodeSpace(n) <= h.totalsize
  }

  lemma NodeSpaceUncut(n: nat)
    requires n < TWO31
    ensures NodeSpace(n) == 4 + TagAlign(n)
  {
    IntExact(n);
    hide ToInt32, TagAlign;
    assert n % TWO64 == n;
  }

  /** The test decides whether a node with its name fits if and only if the name is not cut to one that fits. */
  lemma NodeSpaceExact(h: Header, n: nat)
    requires h.totalsize < TWO31 - 4
    ensures (Used(h) + NodeSpace(n) <= h.totalsize <==> Used(h) + 4 + TagAlign(n) <= h.totalsize) <==> !NameCut(h, n)
    ensures n < TWO31 ==> !NameCut(h, n) && NodeSpace(n) == 4 + TagAlign(n)
  {
    IntExact(n);
    hide ToInt32, NodeSpace, TagAlign;
    if n < TWO31 {
      NodeSpaceUncut(n);
    }
  }

  /** A node name of 2^32 + 2 bytes in a blob with 128 bytes left takes the space of a name of two bytes. */
  lemma NodeNameCut()
    ensures var h := Header(FDT_SW_MAGIC, 200, 64, 200, 48, 17, 16, 0, 8);
            HasRoom(200, h) && NodeSpace(TWO32 + 3) == 8 && NameCut(h, TWO32 + 3)
  {}

  /**
   fdt_begin_node. If the length of the name is cut and there is space for what is left of it, the source
   copies part of the name, where this model ends, with `astray` set.
   */
  method FdtBeginNode(fdt: Blob, name: seq<byte>, ghost es: seq<Event>) returns (r: int, astray: bool)
    requires Writing(fdt.buf[..], fdt.h, fdt.tokens, es) && 0 !in name
    modifies fdt`h, fdt`tokens, fdt.buf
    ensures KeepsFormat(old(fdt.h), fdt.h)
    ensures astray <==> NameCut(old(fdt.h), |name| + 1)
    ensures !astray ==>
        r == if Used(old(fdt.h)) + 4 + TagAlign(|name| + 1) <= old(fdt.h).totalsize then 0 else -FDT_ERR_NOSPACE
    ensures !astray && r == 0 ==> Writing(fdt.buf[..], fdt.h, fdt.tokens, es + [Begin(name)])
    ensures r != 0 ==> fdt.h == old(fdt.h) && fdt.tokens == old(fdt.tokens) && fdt.buf[..] == old(fdt.buf[..])
  {
    hide Put, TagAlign, TokenOk, Encode, Recorded, Parsed, ToInt32, NodeSpace;
    NodeSpaceExact(fdt.h, |name| + 1);
    IntExact(|name| + 1);
    var namelen := ToInt32(|name| + 1);
    astray := false;
    var nh := GrabSpace(fdt, NodeSpace(|name| + 1));
    if nh == -1 {
      return -FDT_ERR_NOSPACE, false;
    }
    if namelen != |name| + 1 {
      return 0, true;
    }
    ghost var t := PutBeginNode(fdt.buf, nh, name);
    Append(old(fdt.buf[..]), old(fdt.h), fdt.tokens, es, Begin(name), t);
    fdt.tokens := fdt.tokens + [t];
    r := 0;
  }

  /** fdt_end_node. */
  method FdtEndNode(fdt: Blob, ghost es: seq<Event>) returns (r: int)
    requires Writing(fdt.buf[..], fdt.h, fdt.tokens, es)
    modifies fdt`h, fdt`tokens, fdt.buf
    ensures KeepsFormat(old(fdt.h), fdt.h)
    ensures r == if Used(old(fdt.h)) + 4 <= old(fdt.h).totalsize then 0 else -FDT_ERR_NOSPACE
    ensures r == 0 ==> Writing(fdt.buf[..], fdt.h, fdt.tokens, es + [Close])
    ensures r != 0 ==> fdt.h == old(fdt.h) && fdt.tokens == old(fdt.tokens) && fdt.buf[..] == old(fdt.buf[..])
  {
    hide Put, TokenOk, Encode, Recorded, Parsed;
    var en := GrabSpace(fdt, 4);
    if en == -1 {
      return -FDT_ERR_NOSPACE;
    }
    PutTag(fdt.buf, en, EndNode);
    Append(old(fdt.buf[..]), old(fdt.h), fdt.tokens, es, Close, EndNode);
    fdt.tokens := fdt.tokens + [EndNode];
    return 0;
  }

  // ----- properties -----

  /**
   _fdt_find_string: the first place of `s`, with its zero byte, in a table of `size` bytes. If the length is cut,
   the source compares another number of bytes, where this model ends, with `astray` set.
   */
  method FindString(a: array<byte>, strtab: nat, size: nat, s: seq<byte>) returns (p: int, astray: bool)
    requires strtab + size <= a.Length && 0 !in s
    ensures astray <==> |s| + 1 >= TWO31
    ensures p == -1 || strtab <= p < strtab + size
    ensures !astray && p != -1 ==>
        IsCString(a[strtab..strtab + size], p - strtab, s) && NoCString(a[strtab..strtab + size], p - strtab, s)
    ensures !astray && p == -1 ==> NoCString(a[strtab..strtab + size], size, s)
  {
    ghost var table := a[strtab..strtab + size];
    IntExact(|s| + 1);
    var len := ToInt32(|s| + 1);
    if len != |s| + 1 {
      return -1, true;
    }
    astray := false;
    p := strtab;
    while p + len <= strtab + size
      invariant strtab <= p <= strtab + size + 1
      invariant NoCString(table, p - strtab, s)
    {
      var diff := MemCmp(a, p, s + [0]);
      assert a[p..p + len] == table[p - strtab..p - strtab + len];
      if diff == 0 {
        return;
      }
      p := p + 1;
    }
    p := -1;
  }

  lemma WithString(m: seq<byte>, h: Header, ts: seq<Token>, es: seq<Event>, name: seq<byte>)
    requires Writing(m, h, ts, es) && 0 !in name && Used(h) + |name| + 1 <= h.totalsize
    ensures var m' := Put(m, h.totalsize - h.sizeStrings - |name| - 1, name + [0]);
            var h' := h.(sizeStrings := h.sizeStrings + |name| + 1);
            Writing(m', h', ts, es) && IsCString(Table(m', h'), 0, name)
  {
    hide Put, EncodeAll, AllOk, Recorded, Records, IsCString;
    AddString(m, Put(m, h.totalsize - h.sizeStrings - |name| - 1, name + [0]),
              h.offStruct, h.offStruct + h.sizeStruct, h.totalsize - h.sizeStrings, h.totalsize, name, es, ts);
  }

  /** The test of _fdt_find_add_string whether `len` more bytes of string table fit, in 32-bit unsigned arithmetic. */
  predicate TableFull(h: Header, len: nat) {
    (h.totalsize - h.sizeStrings - len) % TWO32 < h.offStruct + h.sizeStruct
  }

  /**
   The test decides whether there is room if and only if table and string together are not larger than the
   buffer; beyond that the difference wraps around and the test always finds room.
   */
  lemma TableFullExact(h: Header, len: nat)
    requires h.totalsize < TWO31 && Used(h) <= h.totalsize && len < TWO31
    ensures (TableFull(h, len) <==> Used(h) + len > h.totalsize) <==> h.sizeStrings + len <= h.totalsize
    ensures h.sizeStrings + len > h.totalsize ==> !TableFull(h, len)
  {
    var d := h.totalsize - h.sizeStrings - len;
    assert d < 0 ==> d % TWO32 == d + TWO32;
  }

  /** An empty table in a buffer of 200 bytes of which 128 are left, and a name of 300 bytes. */
  lemma LongNameAccepted()
    ensures var h := Header(FDT_SW_MAGIC, 200, 64, 200, 48, 17, 16, 0, 8);
            HasRoom(200, h) && Used(h) + 301 > h.totalsize && !TableFull(h, 301)
  {
    TableFullExact(Header(FDT_SW_MAGIC, 200, 64, 200, 48, 17, 16, 0, 8), 301);
  }

  /** A new name that is longer than what the structure block and the space left take together, or than an int. */
  ghost predicate TooLong(m: seq<byte>, h: Header, name: seq<byte>)
    requires h.sizeStrings <= h.totalsize <= |m|
  {
    h.sizeStrings + NameRoom(Table(m, h), name) > h.totalsize
  }

  /**
   _fdt_find_add_string: the negative distance of `s` from the end of the buffer, or 0 if it is a new string and
   there is no room for it. If the string is too long, the source copies it to an address below the buffer, or goes
   on with another length, where this model ends, with `astray` set.
   */
  method FindAddString(fdt: Blob, s: seq<byte>, ghost es: seq<Event>) returns (offset: int, astray: bool)
    requires Writing(fdt.buf[..], fdt.h, fdt.tokens, es) && 0 !in s
    modifies fdt`h, fdt.buf
    ensures Writing(fdt.buf[..], fdt.h, fdt.tokens, es)
    ensures astray <==> TooLong(old(fdt.buf[..]), old(fdt.h), s)
    ensures astray || offset == 0 ==> fdt.buf[..] == old(fdt.buf[..]) && fdt.h == old(fdt.h)
    ensures !astray && offset != 0 ==> offset < 0 && IsCString(Table(fdt.buf[..], fdt.h), fdt.h.sizeStrings + offset, s)
    ensures !astray ==> var room := NameRoom(Table(old(fdt.buf[..]), old(fdt.h)), s);
            && (offset == 0 <==> old(fdt.h).totalsize < Used(old(fdt.h)) + room)
            && (offset != 0 ==> fdt.h == old(fdt.h).(sizeStrings := old(fdt.h).sizeStrings + room))
  {
    hide Put, Parsed, Recorded, IsCString, TableFull;
    var strtab := fdt.h.totalsize;
    var strtabsize := fdt.h.sizeStrings;
    var len := |s| + 1;
    var p;
    p, astray := FindString(fdt.buf, strtab - strtabsize, strtabsize, s);
    if astray {
      NameRoomBig(Table(fdt.buf[..], fdt.h), s);
      return 0, true;
    }
    if p != -1 {
      NameThere(Table(fdt.buf[..], fdt.h), p - (strtab - strtabsize), s);
      return p - strtab, false;
    }
    offset := 0 - strtabsize - len;
    TableFullExact(fdt.h, len);
    if TableFull(fdt.h, len) {
      return 0, false;
    }
    if strtab + offset < 0 {
      return offset, true;
    }
    WithString(fdt.buf[..], fdt.h, fdt.tokens, es, s);
    MemCpy(fdt.buf, strtab + offset, s + [0]);
    fdt.h := fdt.h.(sizeStrings := strtabsize + len);
  }

  lemma PropertyBytes(m: seq<byte>, p: nat, nameoff: nat, value: seq<byte>) returns (t: Token)
    requires |value| < TWO31 && nameoff < TWO32 && p + 12 + TagAlign(|value|) <= |m|
    ensures t.Prop? && t.nameoff == nameoff && t.value == value && TokenOk(t) && |Encode(t)| == 12 + TagAlign(|value|)
    ensures Put(Put(m, p, Be32(FDT_PROP) + Be32(|value|) + Be32(nameoff)), p + 12, value) == Put(m, p, Encode(t))
  {
    hide Put, Be32, TokenOk, Encode;
    var n := |value|;
    var head := Be32(FDT_PROP) + Be32(n) + Be32(nameoff);
    var m1 := Put(m, p, head);
    var m2 := Put(m1, p + 12, value);
    PutAt(m, p, head);
    PutApart(m1, p + 12, value, p, p + 12);
    PutAt(m1, p + 12, value);
    Within(m2, p, head, 0, 4);
    Within(m2, p, head, 4, 8);
    Within(m2, p, head, 8, 12);
    PropBytes(m2, p, nameoff, value);
    t := Prop(nameoff, value, m2[p + 12 + n..p + 12 + TagAlign(n)]);
    PutPut(m, p, head, p + 12, value, p, p + 12 + TagAlign(n));
  }

  /** Writes the tag, length, name offset and value of a property. */
  method PutProperty(a: array<byte>, p: nat, nameoff: nat, value: seq<byte>) returns (ghost t: Token)
    requires |value| < TWO31 && nameoff < TWO32 && p + 12 + TagAlign(|value|) <= a.Length
    modifies a
    ensures t.Prop? && t.nameoff == nameoff && t.value == value && TokenOk(t) && |Encode(t)| == 12 + TagAlign(|value|)
    ensures a[..] == Put(old(a[..]), p, Encode(t))
  {
    hide Put, Be32, TokenOk, Encode;
    MemCpy(a, p, Be32(FDT_PROP) + Be32(|value|) + Be32(nameoff));
    MemCpy(a, p + 12, value);
    t := PropertyBytes(old(a[..]), p, nameoff, value);
  }

  /** The part of fdt_property after its name is in the table. */
  method AppendProperty(fdt: Blob, nameoff: nat, name: seq<byte>, val: seq<byte>, ghost es: seq<Event>) returns (r: int)
    requires Writing(fdt.buf[..], fdt.h, fdt.tokens, es) && |val| < TWO31 && nameoff < TWO32
    requires IsCString(Table(fdt.buf[..], fdt.h), fdt.h.sizeStrings - (TWO32 - nameoff), name)
    modifies fdt`h, fdt`tokens, fdt.buf
    ensures KeepsFormat(old(fdt.h), fdt.h)
    ensures r == if Used(old(fdt.h)) + 12 + TagAlign(|val|) <= old(fdt.h).totalsize then 0 else -FDT_ERR_NOSPACE
    ensures r == 0 ==> Writing(fdt.buf[..], fdt.h, fdt.tokens, es + [Property(name, val)])
    ensures r != 0 ==> fdt.h == old(fdt.h) && fdt.tokens == old(fdt.tokens) && fdt.buf[..] == old(fdt.buf[..])
  {
    hide Put, TagAlign, TokenOk, Encode, Recorded, Parsed, IsCString;
    var prop := GrabSpace(fdt, 12 + TagAlign(|val|));
    if prop == -1 {
      return -FDT_ERR_NOSPACE;
    }
    ghost var t := PutProperty(fdt.buf, prop, nameoff, val);
    Append(old(fdt.buf[..]), old(fdt.h), fdt.tokens, es, Property(name, val), t);
    fdt.tokens := fdt.tokens + [t];
    return 0;
  }

  lemma StringInTable(s: seq<byte>, nameoff: int, name: seq<byte>)
    requires IsCString(s, |s| + nameoff, name) && |s| < TWO31 && nameoff < 0
    ensures nameoff % TWO32 == nameoff + TWO32
  {}

  /**
   fdt_property. A failure may leave the name in the string table, but records nothing. If the name is too long,
   the source writes below the buffer, where this model ends, with `astray` set.
   */
  method FdtProperty(fdt: Blob, name: seq<byte>, val: seq<byte>, ghost es: seq<Event>) returns (r: int, astray: bool)
    requires Writing(fdt.buf[..], fdt.h, fdt.tokens, es) && 0 !in name && |val| < TWO31
    modifies fdt`h, fdt`tokens, fdt.buf
    ensures KeepsFormat(old(fdt.h), fdt.h)
    ensures astray <==> TooLong(old(fdt.buf[..]), old(fdt.h), name)
    ensures !astray ==> var room := NameRoom(Table(old(fdt.buf[..]), old(fdt.h)), name) + 12 + TagAlign(|val|);
            r == if Used(old(fdt.h)) + room <= old(fdt.h).totalsize then 0 else -FDT_ERR_NOSPACE
    ensures !astray && r == 0 ==> Writing(fdt.buf[..], fdt.h, fdt.tokens, es + [Property(name, val)])
    ensures !astray && r != 0 ==> Writing(fdt.buf[..], fdt.h, fdt.tokens, es) && fdt.tokens == old(fdt.tokens)
  {
    hide TagAlign, Recorded, IsCString, Parsed, NameRoom;
    var nameoff;
    r := 0;
    nameoff, astray := FindAddString(fdt, name, es);
    if astray {
      return;
    }
    if nameoff == 0 {
      return -FDT_ERR_NOSPACE, false;
    }
    StringInTable(Table(fdt.buf[..], fdt.h), nameoff, name);
    r := AppendProperty(fdt, nameoff % TWO32, name, val, es);
  }

  // ----- finishing -----

  /**
   A finished blob for the reading functions, whose tokens show the calls `es`, and whose structure block, read by
   iterating fdt_next_tag, gives them.
   */
  ghost predicate Finished(m: seq<byte>, h: Header, ts: seq<Token>, es: seq<Event>) {
    && Readable(m, h, ts) && |ts| == |es| + 1 && Shown(es, ts[..|es|], Strings(m, h))
    && h.offStrings == h.offStruct + h.sizeStruct && h.totalsize == h.offStrings + h.sizeStrings
    && ReadEvents(Struct(m, h), Strings(m, h), 0) == Some(es)
  }

  /** fdt_finish has corrected the first `i` tokens of `ts`. */
  ghost predicate Correcting(m: seq<byte>, h: Header, ts': seq<Token>, ts: seq<Token>, i: nat, strings: seq<byte>) {
    && Parsed(m, h, ts') && StringsFit(|m|, h) && h.offStrings == h.offStruct + h.sizeStruct && Strings(m, h) == strings
    && CorrectedTo(ts, ts', i, |strings|)
  }

  lemma NameOffAt(ts: seq<Token>, i: nat)
    requires AllOk(ts) && i < |ts| && ts[i].Prop?
    ensures Offset(ts, i) + 12 <= |EncodeAll(ts)| && Word32(EncodeAll(ts), Offset(ts, i) + 8) == ts[i].nameoff
  {
    hide Be32, Word32, Encode, EncodeAll, Offset;
    EncodeAt(ts, i);
    EncodeParts(ts[i]);
    Within(EncodeAll(ts), Offset(ts, i), Encode(ts[i]), 8, 12);
    WordOfBe32(ts[i].nameoff, EncodeAll(ts), Offset(ts, i) + 8);
  }

  lemma CorrectingPlace(m: seq<byte>, h: Header, ts': seq<Token>, ts: seq<Token>, i: nat, strings: seq<byte>)
    requires Correcting(m, h, ts', ts, i, strings) && i < |ts| && ts[i].Prop?
    ensures i < |ts'| && ts'[i] == ts[i] && TokenOk(ts[i])
    ensures Offset(ts', i) + 12 <= h.sizeStruct
    ensures Word32(m, h.offStruct + (Offset(ts', i) + 8)) == ts[i].nameoff
  {
    CorrectedAt(ts, ts', i, |strings|);
    hide Word32, TokenOk, EncodeAll, Offset, CorrectedTo;
    NameOffAt(ts', i);
    WordSlice(m, h.offStruct, h.offStruct + h.sizeStruct, Offset(ts', i) + 8);
  }

  /** Overwriting one name offset is a step of the correction. */
  lemma CorrectingStep(m: seq<byte>, h: Header, ts': seq<Token>, ts: seq<Token>, i: nat, strings: seq<byte>, w: nat)
    requires Correcting(m, h, ts', ts, i, strings) && i < |ts| == |ts'| && ts[i].Prop? && ts'[i] == ts[i]
    requires TokenOk(ts[i])
    requires Offset(ts', i) + 12 <= h.sizeStruct && w == (ts[i].nameoff + h.sizeStrings) % TWO32
    ensures Correcting(Put(m, h.offStruct + (Offset(ts', i) + 8), Be32(w)), h,
                       ts'[i := Corrected(ts[i], h.sizeStrings)], ts, i + 1, strings)
  {
    hide Put, Be32, TokenOk, EncodeAll, Offset, Corrected, CorrectedTo, AllOk;
    var o, n, base := Offset(ts', i) + 8, h.sizeStrings, h.offStruct;
    CorrectAt(ts', i, n);
    PutSlice(m, base, base + h.sizeStruct, o, Be32(w));
    PutApart(m, base + o, Be32(w), h.offStrings, h.offStrings + h.sizeStrings);
    CorrectedStep(ts, ts', ts'[i := Corrected(ts[i], n)], i, n);
  }

  lemma CorrectingSkip(m: seq<byte>, h: Header, ts': seq<Token>, ts: seq<Token>, i: nat, strings: seq<byte>)
    requires Correcting(m, h, ts', ts, i, strings) && i < |ts| && !ts[i].Prop?
    ensures Correcting(m, h, ts', ts, i + 1, strings)
  {
    hide TokenOk, Encode, EncodeAll, Offset, Corrected;
    CorrectedStep(ts, ts', ts', i, |strings|);
  }

  /** The loop of fdt_finish over the structure block. */
  method CorrectNames(fdt: Blob, ghost ts: seq<Token>, ghost strings: seq<byte>) returns (r: int)
    requires Correcting(fdt.buf[..], fdt.h, fdt.tokens, ts, 0, strings) && fdt.tokens == ts
    requires EndsOnce(ts)
    modifies fdt`tokens, fdt.buf
    ensures r >= 0 && Correcting(fdt.buf[..], fdt.h, fdt.tokens, ts, |ts| - 1, strings)
  {
    hide Put, Be32, Word32, TokenOk, Encode, EncodeAll, Offset, Corrected, CorrectedTo, Tag;
    ghost var i := 0;
    var offset := 0;
    OffsetEnds(ts);
    var tag, nextoffset := NextToken(fdt, offset, 0);
    while tag != FDT_END
      invariant 0 <= i < |ts| == |fdt.tokens| && Correcting(fdt.buf[..], fdt.h, fdt.tokens, ts, i, strings)
      invariant tag == Tag(ts[i]) && offset == Offset(fdt.tokens, i) && nextoffset == Offset(fdt.tokens, i + 1)
      decreases |ts| - i
    {
      TagOf(ts[i]);
      ghost var before := fdt.tokens;
      if tag == FDT_PROP {
        CorrectingPlace(fdt.buf[..], fdt.h, fdt.tokens, ts, i, strings);
        var nameoff := ReadWord(fdt.buf, fdt.h.offStruct + (offset + 8));
        nameoff := (nameoff + fdt.h.sizeStrings) % TWO32;
        CorrectingStep(fdt.buf[..], fdt.h, fdt.tokens, ts, i, strings, nameoff);
        MemCpy(fdt.buf, fdt.h.offStruct + (offset + 8), Be32(nameoff));
        fdt.tokens := before[i := Corrected(ts[i], fdt.h.sizeStrings)];
      } else {
        CorrectingSkip(fdt.buf[..], fdt.h, fdt.tokens, ts, i, strings);
      }
      CorrectedSame(ts, before, i, fdt.tokens, i + 1, |strings|);
      i, offset := i + 1, nextoffset;
      tag, nextoffset := NextToken(fdt, offset, i);
    }
    TagOf(ts[i]);
    r := nextoffset;
  }

  /** The terminator behind the structure block. */
  lemma Terminated(m: seq<byte>, h: Header, ts: seq<Token>, es: seq<Event>)
    requires Writing(m, h, ts, es) && Used(h) + 4 <= h.totalsize
    ensures TokenOk(End) && |Encode(End)| == 4
    ensures var m1 := Put(m, h.offStruct + h.sizeStruct, Encode(End));
            Parsed(m1, Grown(h, 4), ts + [End]) && Table(m1, h) == Table(m, h)
  {
    hide Put, TokenOk, Encode, EncodeAll, Recorded, AllOk, Be32;
    TagBytes(End);
    var end := h.offStruct + h.sizeStruct;
    AppendToken(m, Put(m, end, Encode(End)), h.offStruct, ts, End);
    PutApart(m, end, Encode(End), h.totalsize - h.sizeStrings, h.totalsize);
  }

  /** The string table moved behind the structure block. */
  lemma Moved(m: seq<byte>, h: Header, ts: seq<Token>)
    requires HasRoom(|m|, h) && Parsed(m, h, ts)
    ensures var h1 := h.(offStrings := h.offStruct + h.sizeStruct);
            Correcting(Put(m, h1.offStrings, Table(m, h)), h1, ts, ts, 0, Table(m, h))
  {
    hide Put, EncodeAll, AllOk, CorrectedTo;
    var end := h.offStruct + h.sizeStruct;
    PutApart(m, end, Table(m, h), h.offStruct, end);
    PutAt(m, end, Table(m, h));
    CorrectedNone(ts, h.sizeStrings);
  }

  lemma WritingOk(m: seq<byte>, h: Header, ts: seq<Token>, es: seq<Event>)
    requires Writing(m, h, ts, es)
    ensures AllOk(ts) && Recorded(es, ts, Table(m, h))
  {}

  lemma ShownReadable(es: seq<Event>, ts: seq<Token>, strings: seq<byte>)
    requires |ts| == |es| + 1 && ts[|es|] == End && Shown(es, ts[..|es|], strings)
    ensures EndsOnce(ts) && NamesOk(ts, strings)
  {
    hide IsCString, StringAt;
    forall i | 0 <= i < |es|
      ensures Shows(es[i], ts[i], strings)
      ensures ts[i].Prop? ==> IsCString(strings, ts[i].nameoff, StringAt(strings, ts[i].nameoff))
    {
      assert ts[i] == ts[..|es|][i];
      if ts[i].Prop? {
        StringAtIs(strings, ts[i].nameoff, es[i].name);
      }
    }
  }

  /** A property that was written behind the begin of a node, the first of its name, is what a lookup finds there. */
  lemma WrittenHas(m: seq<byte>, h: Header, ts: seq<Token>, es: seq<Event>, node: nat, p: nat)
    requires Finished(m, h, ts, es) && node < p < |es| && es[node].Begin? && es[p].Property?
    requires forall j :: node < j < p ==> es[j].Property? && es[j].name != es[p].name
    ensures ts[node].BeginNode? && HasAt(ts, Strings(m, h), node, es[p].name, p) && ts[p].value == es[p].value
  {
    var strings := Strings(m, h);
    hide IsCString, StringAt, Readable, ReadEvents;
    forall j | node <= j <= p
      ensures Shows(es[j], ts[j], strings)
      ensures ts[j].Prop? ==> StringAt(strings, ts[j].nameoff) == es[j].name
    {
      assert ts[j] == ts[..|es|][j];
      if ts[j].Prop? {
        StringAtIs(strings, ts[j].nameoff, es[j].name);
      }
    }
  }

  lemma FinishedIs(m: seq<byte>, h: Header, ts': seq<Token>, ts: seq<Token>, es: seq<Event>, strings: seq<byte>)
    requires AllOk(ts) && Recorded(es, ts, strings) && Correcting(m, h, ts', ts + [End], |ts|, strings)
    ensures Finished(m, h.(totalsize := h.offStrings + h.sizeStrings, magic := FDT_MAGIC), ts', es)
  {
    hide TokenOk, EncodeAll, Recorded, CorrectedTo, ReadEvents, EndsOnce, NamesOk;
    FinishReadsBack(es, ts, ts', Struct(m, h), strings);
    ShownReadable(es, ts', strings);
  }

  /** fdt_finish up to its loop: adds the terminator and relocates the string table. */
  method TerminateAndMove(fdt: Blob, ghost es: seq<Event>) returns (ok: bool)
    requires Writing(fdt.buf[..], fdt.h, fdt.tokens, es)
    modifies fdt`h, fdt`tokens, fdt.buf
    ensures KeepsFormat(old(fdt.h), fdt.h)
    ensures ok <==> Used(old(fdt.h)) + 4 <= old(fdt.h).totalsize
    ensures ok ==> fdt.tokens == old(fdt.tokens) + [End]
                   && Correcting(fdt.buf[..], fdt.h, fdt.tokens, fdt.tokens, 0, Table(old(fdt.buf[..]), old(fdt.h)))
    ensures !ok ==> fdt.h == old(fdt.h) && fdt.tokens == old(fdt.tokens) && fdt.buf[..] == old(fdt.buf[..])
  {
    hide Put, TokenOk, Encode, Parsed, Recorded, Correcting;
    ghost var m, h, ts := fdt.buf[..], fdt.h, fdt.tokens;
    var end := GrabSpace(fdt, 4);
    if end == -1 {
      return false;
    }
    Terminated(m, h, ts, es);
    PutTag(fdt.buf, end, End);
    var oldstroffset := fdt.h.totalsize - fdt.h.sizeStrings;
    var newstroffset := fdt.h.offStruct + fdt.h.sizeStruct;
    Moved(fdt.buf[..], fdt.h, ts + [End]);
    MemMove(fdt.buf, newstroffset, oldstroffset, fdt.h.sizeStrings);
    fdt.h := fdt.h.(offStrings := newstroffset);
    fdt.tokens := ts + [End];
    return true;
  }

  /** fdt_finish: it succeeds if and only if the terminator fits, and the finished blob reads back
      as exactly the calls that succeeded. */
  method FdtFinish(fdt: Blob, ghost es: seq<Event>) returns (r: int)
    requires Writing(fdt.buf[..], fdt.h, fdt.tokens, es)
    modifies fdt`h, fdt`tokens, fdt.buf
    ensures KeepsFormat(old(fdt.h), fdt.h)
    ensures r == if Used(old(fdt.h)) + 4 <= old(fdt.h).totalsize then 0 else -FDT_ERR_NOSPACE
    ensures r == 0 ==> Finished(fdt.buf[..], fdt.h, fdt.tokens, es)
    ensures r != 0 ==> fdt.h == old(fdt.h) && fdt.tokens == old(fdt.tokens) && fdt.buf[..] == old(fdt.buf[..])
  {
    hide AllOk, Recorded, Parsed, Correcting, Finished, EndsOnce, Table;
    ghost var ts, strings := fdt.tokens, Table(fdt.buf[..], fdt.h);
    WritingOk(fdt.buf[..], fdt.h, ts, es);
    RecordedEndsOnce(es, ts, strings);
    var ok := TerminateAndMove(fdt, es);
    if !ok {
      return -FDT_ERR_NOSPACE;
    }
    var nextoffset := CorrectNames(fdt, ts + [End], strings);
    FinishedIs(fdt.buf[..], fdt.h, fdt.tokens, ts, es, strings);
    fdt.h := fdt.h.(totalsize := fdt.h.offStrings + fdt.h.sizeStrings, magic := FDT_MAGIC);
    return 0;
  }

  // ----- whole runs -----

  /** What C can pass: names without a zero byte, and values whose length is an int. */
  predicate Passable(e: Event) {
    match e
    case Begin(name) => 0 !in name
    case Property(name, value) => 0 !in name && |value| < TWO31
    case Close => true
  }

  /** Reserve map entry and structure block leave this much in front of the string table at least. */
  const SHORT: nat := 64

  /** Property names of less than 64 bytes, and node names of less than 2^31 with their zero byte. */
  predicate ShortName(e: Event) {
    (e.Property? ==> |e.name| < SHORT) && (e.Begin? ==> |e.name| + 1 < TWO31)
  }

  /** A name that is no longer than what stands in front of the table is never too long. */
  lemma ShortFits(m: seq<byte>, h: Header, name: seq<byte>)
    requires h.totalsize <= |m| && Used(h) <= h.totalsize && |name| < h.offStruct
    ensures !TooLong(m, h, name)
  {}

  method WriteEvent(fdt: Blob, e: Event, ghost es: seq<Event>) returns (r: int, astray: bool)
    requires Writing(fdt.buf[..], fdt.h, fdt.tokens, es) && Passable(e)
    modifies fdt`h, fdt`tokens, fdt.buf
    ensures KeepsFormat(old(fdt.h), fdt.h)
    ensures astray <==> (e.Property? && TooLong(old(fdt.buf[..]), old(fdt.h), e.name))
                        || (e.Begin? && NameCut(old(fdt.h), |e.name| + 1))
    ensures !astray && r == 0 ==> Writing(fdt.buf[..], fdt.h, fdt.tokens, es + [e])
  {
    hide Parsed, Recorded, NameRoom, NameCut;
    astray := false;
    match e
    case Begin(name) => r, astray := FdtBeginNode(fdt, name, es);
    case Property(name, value) => r, astray := FdtProperty(fdt, name, value, es);
    case Close => r := FdtEndNode(fdt, es);
  }

  lemma FinishedMagic(m: seq<byte>, h: Header, ts: seq<Token>, es: seq<Event>)
    requires Finished(m, h, ts, es)
    ensures h.magic == FDT_MAGIC
  {}

  /**
   Any sequence of calls on a new blob: if all of them succeed, and no name is too long at its call, reading the
   finished blob yields exactly that sequence, and its header passes fdt_check_header. Names that are short in the
   sense of ShortName never are too long.
   */
  method WriteBlob(fdt: Blob, bufsize: nat, es: seq<Event>) returns (r: int, astray: bool)
    requires bufsize <= fdt.buf.Length < TWO31 - 4 && forall i :: 0 <= i < |es| ==> Passable(es[i])
    modifies fdt, fdt.buf
    ensures !astray && r == 0 ==> Finished(fdt.buf[..], fdt.h, fdt.tokens, es) && CheckHeader(fdt.h) == 0
    ensures !astray && r == 0 ==> KeepsFormat(Header(FDT_MAGIC, 0, SHORT, 0, 48, 17, 16, 0, 0), fdt.h)
    ensures (forall i :: 0 <= i < |es| ==> ShortName(es[i])) ==> !astray
  {
    hide Parsed, Recorded, Finished, Passable, TooLong, NameCut, NodeSpace, TagAlign;
    astray := false;
    r := FdtCreate(fdt, bufsize);
    if r != 0 {
      return;
    }
    r := FdtAddReservemapEntry(fdt, 0, 0);
    if r != 0 {
      return;
    }
    assert es[..0] == [];
    var i := 0;
    while i < |es|
      invariant i <= |es| && Writing(fdt.buf[..], fdt.h, fdt.tokens, es[..i]) && !astray
      invariant KeepsFormat(Header(FDT_MAGIC, 0, SHORT, 0, 48, 17, 16, 0, 0), fdt.h)
    {
      ghost var m, h := fdt.buf[..], fdt.h;
      if es[i].Property? && ShortName(es[i]) {
        ShortFits(m, h, es[i].name);
      } else if es[i].Begin? {
        NodeSpaceExact(h, |es[i].name| + 1);
      }
      r, astray := WriteEvent(fdt, es[i], es[..i]);
      if astray || r != 0 {
        return;
      }
      assert es[..i + 1] == es[..i] + [es[i]];
      i := i + 1;
    }
    assert es[..i] == es;
    r := FdtFinish(fdt, es);
    if r == 0 {
      FinishedMagic(fdt.buf[..], fdt.h, fdt.tokens, es);
    }
  }
}
