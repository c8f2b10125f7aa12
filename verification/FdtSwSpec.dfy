/**
 The sequential writer of lib/libfdt/fdt_sw.c, and what a reader finds in a finished blob.

 Nodes and properties are appended to the structure block, which grows upwards;
 property names go to a string table that grows downwards from the end of the
 buffer, so that a name is first known by its negative distance from that end.
 fdt_finish moves the table behind the structure block and corrects the offsets.
 */
module FdtSwSpec {
  import opened Words
  import opened Wrappers
  import opened Memory
  import opened FdtFormat

  /** A call of fdt_begin_node, fdt_property or fdt_end_node. */
  datatype Event =
    | Begin(name: seq<byte>)
    | Property(name: seq<byte>, value: seq<byte>)
    | Close

  /** The string `name`, with its zero byte, is at `pos` of `s`. */
  predicate IsCString(s: seq<byte>, pos: int, name: seq<byte>) {
    && 0 !in name && 0 <= pos && pos + |name| < |s|
    && s[pos..pos + |name| + 1] == name + [0]
  }

  /** `name` does not occur in `s` before `end`. */
  ghost predicate NoCString(s: seq<byte>, end: int, name: seq<byte>) {
    forall pos :: pos < end ==> !IsCString(s, pos, name)
  }

  /** The bytes that a name takes in a string table: none if it is already there. */
  ghost function NameRoom(table: seq<byte>, name: seq<byte>): nat {
    if NoCString(table, |table|, name) then |name| + 1 else 0
  }

  lemma NameThere(table: seq<byte>, pos: int, name: seq<byte>)
    requires IsCString(table, pos, name)
    ensures NameRoom(table, name) == 0
  {
    assert pos < |table|;
  }

  lemma NameRoomBig(table: seq<byte>, name: seq<byte>)
    requires |name| + 1 > |table|
    ensures NameRoom(table, name) == |name| + 1
  {}

  lemma CStringAfter(front: seq<byte>, s: seq<byte>, pos: int, name: seq<byte>)
    requires IsCString(s, pos, name)
    ensures IsCString(front + s, |front| + pos, name)
  {
    var n := |name| + 1;
    assert (front + s)[|front| + pos..|front| + pos + n] == s[pos..pos + n];
  }

  // ----- what the writer has recorded -----

  /** Token `t` stands for call `e`; a property name is at distance 2^32 - nameoff before the
      end of the string table `strings`. */
  predicate Records(e: Event, t: Token, strings: seq<byte>) {
    match e
    case Begin(name) => t.BeginNode? && t.name == name
    case Property(name, value) =>
      t.Prop? && t.value == value && IsCString(strings, |strings| - (TWO32 - t.nameoff), name)
    case Close => t.EndNode?
  }

  predicate Recorded(es: seq<Event>, ts: seq<Token>, strings: seq<byte>) {
    |es| == |ts| && forall i :: 0 <= i < |es| ==> Records(es[i], ts[i], strings)
  }

  /** Adding strings in front disturbs nothing. */
  lemma RecordedMoreStrings(es: seq<Event>, ts: seq<Token>, front: seq<byte>, strings: seq<byte>)
    requires Recorded(es, ts, strings)
    ensures Recorded(es, ts, front + strings)
  {
    forall i | 0 <= i < |es|
      ensures Records(es[i], ts[i], front + strings)
    {
      if es[i].Property? {
        CStringAfter(front, strings, |strings| - (TWO32 - ts[i].nameoff), es[i].name);
      }
    }
  }

  lemma RecordedAppend(es: seq<Event>, ts: seq<Token>, strings: seq<byte>, e: Event, t: Token)
    requires Recorded(es, ts, strings) && Records(e, t, strings)
    ensures Recorded(es + [e], ts + [t], strings)
  {
    hide Records;
  }

  /** Token `t` of a finished blob stands for call `e`. */
  predicate Shows(e: Event, t: Token, strings: seq<byte>) {
    match e
    case Begin(name) => t.BeginNode? && t.name == name
    case Property(name, value) => t.Prop? && t.value == value && IsCString(strings, t.nameoff, name)
    case Close => t.EndNode?
  }

  predicate Shown(es: seq<Event>, ts: seq<Token>, strings: seq<byte>) {
    |es| == |ts| && forall i :: 0 <= i < |es| ==> Shows(es[i], ts[i], strings)
  }

  /** fdt_finish's correction of one token: 32-bit addition. */
  function Corrected(t: Token, size: nat): (r: Token)
    requires TokenOk(t)
    ensures TokenOk(r) && Tag(r) == Tag(t) && |Encode(r)| == |Encode(t)|
  {
    if t.Prop? then t.(nameoff := (t.nameoff + size) % TWO32) else t
  }

  lemma NothingToCorrect(t: Token, size: nat)
    requires TokenOk(t) && !t.Prop?
    ensures Corrected(t, size) == t
  {}

  lemma WrapsTo(off: nat, size: nat)
    requires off < TWO32 && size < TWO32
    ensures off + size >= TWO32 ==> (off + size) % TWO32 == size - (TWO32 - off)
  {}

  lemma CorrectedShows(e: Event, t: Token, strings: seq<byte>)
    requires TokenOk(t) && Records(e, t, strings) && |strings| < TWO31
    ensures Shows(e, Corrected(t, |strings|), strings)
  {
    assert t.Prop? ==> t.nameoff < TWO32 <= t.nameoff + |strings|;
    hide IsCString, Encode, TokenOk;
    if t.Prop? {
      WrapsTo(t.nameoff, |strings|);
    }
  }

  // ----- the bytes of a token -----

  lemma TagBytes(t: Token)
    requires !t.BeginNode? && !t.Prop?
    ensures TokenOk(t) && Encode(t) == Be32(Tag(t)) && |Encode(t)| == 4
  {}

  lemma BeginBytes(m: seq<byte>, p: nat, name: seq<byte>)
    requires 0 !in name
    requires p + 4 + TagAlign(|name| + 1) <= |m|
    requires m[p..p + 4] == Be32(FDT_BEGIN_NODE) && m[p + 4..p + 4 + |name| + 1] == name + [0]
    ensures var n := |name| + 1;
            var t := BeginNode(name, m[p + 4 + n..p + 4 + TagAlign(n)]);
            TokenOk(t) && |Encode(t)| == 4 + TagAlign(n) && m[p..p + 4 + TagAlign(n)] == Encode(t)
  {
    hide Be32;
    var n := |name| + 1;
    Slices(m, p, p + 4, p + 4 + n);
    Slices(m, p, p + 4 + n, p + 4 + TagAlign(n));
  }

  lemma PropBytes(m: seq<byte>, p: nat, nameoff: nat, value: seq<byte>)
    requires |value| < TWO31 && nameoff < TWO32
    requires p + 12 + TagAlign(|value|) <= |m|
    requires m[p..p + 4] == Be32(FDT_PROP) && m[p + 4..p + 8] == Be32(|value|) && m[p + 8..p + 12] == Be32(nameoff)
    requires m[p + 12..p + 12 + |value|] == value
    ensures var n := |value|;
            var t := Prop(nameoff, value, m[p + 12 + n..p + 12 + TagAlign(n)]);
            TokenOk(t) && |Encode(t)| == 12 + TagAlign(n) && m[p..p + 12 + TagAlign(n)] == Encode(t)
  {
    hide Be32;
    var n := |value|;
    Slices(m, p, p + 4, p + 8);
    Slices(m, p, p + 8, p + 12);
    Slices(m, p, p + 12, p + 12 + n);
    Slices(m, p, p + 12 + n, p + 12 + TagAlign(n));
  }

  /** Writing a token behind a block extends the block. */
  lemma AppendToken(m: seq<byte>, r: seq<byte>, base: nat, ts: seq<Token>, t: Token)
    requires AllOk(ts) && TokenOk(t)
    requires base + |EncodeAll(ts)| + |Encode(t)| <= |m| && m[base..base + |EncodeAll(ts)|] == EncodeAll(ts)
    requires r == Put(m, base + |EncodeAll(ts)|, Encode(t))
    ensures AllOk(ts + [t])
    ensures |EncodeAll(ts + [t])| == |EncodeAll(ts)| + |Encode(t)|
    ensures r[base..base + |EncodeAll(ts)| + |Encode(t)|] == EncodeAll(ts + [t])
  {
    hide TokenOk, Encode, EncodeAll, Put;
    var p := base + |EncodeAll(ts)|;
    EncodeConcat(ts, [t]);
    EncodeOne(t);
    PutAt(m, p, Encode(t));
    PutApart(m, p, Encode(t), base, p);
    Slices(r, base, p, p + |Encode(t)|);
  }

  /** A call recorded: its token behind the block, the string table untouched. */
  lemma AppendRecord(m: seq<byte>, r: seq<byte>, base: nat, low: nat, top: nat, es: seq<Event>, ts: seq<Token>,
                     e: Event, t: Token)
    requires AllOk(ts) && TokenOk(t)
    requires base + |EncodeAll(ts)| + |Encode(t)| <= low <= top <= |m|
    requires m[base..base + |EncodeAll(ts)|] == EncodeAll(ts) && r == Put(m, base + |EncodeAll(ts)|, Encode(t))
    requires Recorded(es, ts, m[low..top]) && Records(e, t, m[low..top])
    ensures AllOk(ts + [t]) && |EncodeAll(ts + [t])| == |EncodeAll(ts)| + |Encode(t)|
    ensures r[base..base + |EncodeAll(ts)| + |Encode(t)|] == EncodeAll(ts + [t])
    ensures Recorded(es + [e], ts + [t], r[low..top])
  {
    hide TokenOk, Encode, EncodeAll, Put, Records, Recorded;
    AppendToken(m, r, base, ts, t);
    PutApart(m, base + |EncodeAll(ts)|, Encode(t), low, top);
    RecordedAppend(es, ts, m[low..top], e, t);
  }

  /** A string added below the table: the structure block and all recorded names stay. */
  lemma AddString(m: seq<byte>, r: seq<byte>, base: nat, p: nat, low: nat, top: nat, name: seq<byte>, es: seq<Event>,
                  ts: seq<Token>)
    requires 0 !in name && base <= p && p + |name| + 1 <= low <= top <= |m|
    requires r == Put(m, low - |name| - 1, name + [0]) && Recorded(es, ts, m[low..top])
    ensures r[base..p] == m[base..p]
    ensures Recorded(es, ts, r[low - |name| - 1..top]) && IsCString(r[low - |name| - 1..top], 0, name)
  {
    hide Put, Records, Recorded;
    var at, data := low - |name| - 1, name + [0];
    PutAt(m, at, data);
    PutApart(m, at, data, base, p);
    PutApart(m, at, data, low, top);
    Slices(r, at, low, top);
    RecordedMoreStrings(es, ts, data, m[low..top]);
    assert (data + m[low..top])[0..|name| + 1] == data;
  }

  // ----- correcting the name offsets -----

  /** Writing inside a stretch is writing inside its copy. */
  lemma PutSlice(m: seq<byte>, i: nat, j: nat, off: nat, data: seq<byte>)
    requires i <= j <= |m| && i + off + |data| <= j
    ensures Put(m, i + off, data)[i..j] == Put(m[i..j], off, data)
  {}

  /** Only the name offset of a property's bytes changes. */
  lemma CorrectedBytes(t: Token, size: nat)
    requires t.Prop? && TokenOk(t)
    ensures Encode(Corrected(t, size)) == Put(Encode(t), 8, Be32((t.nameoff + size) % TWO32))
  {
    hide Be32;
    var w := Be32((t.nameoff + size) % TWO32);
    var head := Be32(FDT_PROP) + Be32(|t.value|);
    assert Encode(t) == head + Be32(t.nameoff) + (t.value + t.pad);
    assert Encode(Corrected(t, size)) == head + w + (t.value + t.pad);
  }

  lemma PutMiddle(a: seq<byte>, b: seq<byte>, c: seq<byte>, off: nat, data: seq<byte>)
    requires off + |data| <= |b|
    ensures Put(a + b + c, |a| + off, data) == a + Put(b, off, data) + c
  {}

  /** Overwriting the name offset of token `i` corrects that token and no other. */
  lemma CorrectAt(ts: seq<Token>, i: nat, size: nat)
    requires AllOk(ts) && i < |ts| && ts[i].Prop?
    ensures AllOk(ts[i := Corrected(ts[i], size)])
    ensures Offset(ts, i) + 12 <= |EncodeAll(ts)|
    ensures EncodeAll(ts[i := Corrected(ts[i], size)])
            == Put(EncodeAll(ts), Offset(ts, i) + 8, Be32((ts[i].nameoff + size) % TWO32))
  {
    hide TokenOk, Encode, EncodeAll, Put, Be32, Corrected;
    EncodeParts(ts[i]);
    EncodeAround(ts, i);
    EncodeReplace(ts, i, Corrected(ts[i], size));
    CorrectedBytes(ts[i], size);
    PutMiddle(EncodeAll(ts[..i]), Encode(ts[i]), EncodeAll(ts[i + 1..]), 8, Be32((ts[i].nameoff + size) % TWO32));
  }

  /** The first `i` tokens of `ts` corrected. */
  ghost predicate CorrectedTo(ts: seq<Token>, ts': seq<Token>, i: nat, size: nat) {
    && |ts'| == |ts| && AllOk(ts)
    && forall k :: 0 <= k < |ts| ==> ts'[k] == if k < i then Corrected(ts[k], size) else ts[k]
  }

  lemma {:induction false} CorrectedOffset(ts: seq<Token>, ts': seq<Token>, i: nat, size: nat, k: nat)
    requires CorrectedTo(ts, ts', i, size) && AllOk(ts') && k <= |ts|
    ensures Offset(ts', k) == Offset(ts, k)
    decreases k
  {
    hide TokenOk, Encode, EncodeAll, Corrected;
    if k > 0 {
      OffsetStep(ts, k - 1);
      OffsetStep(ts', k - 1);
      CorrectedOffset(ts, ts', i, size, k - 1);
    }
  }

  /** One step of the correction. */
  lemma CorrectedStep(ts: seq<Token>, before: seq<Token>, after: seq<Token>, i: nat, size: nat)
    requires CorrectedTo(ts, before, i, size) && AllOk(before) && AllOk(after) && i < |ts|
    requires after == if ts[i].Prop? then before[i := Corrected(ts[i], size)] else before
    ensures CorrectedTo(ts, after, i + 1, size) && Offset(after, i + 1) == Offset(before, i + 1)
  {
    if !ts[i].Prop? {
      NothingToCorrect(ts[i], size);
    }
    hide TokenOk, Encode, EncodeAll, Corrected, Offset;
    CorrectedOffset(ts, before, i, size, i + 1);
    CorrectedOffset(ts, after, i + 1, size, i + 1);
  }

  lemma CorrectedSame(ts: seq<Token>, before: seq<Token>, i: nat, after: seq<Token>, k: nat, size: nat)
    requires CorrectedTo(ts, before, i, size) && CorrectedTo(ts, after, k, size) && AllOk(before) && AllOk(after)
    requires k < |ts|
    ensures |after| == |ts| && after[k] == ts[k] && Offset(after, k) == Offset(before, k)
  {
    hide TokenOk, Encode, EncodeAll, Corrected, Offset;
    CorrectedOffset(ts, before, i, size, k);
    CorrectedOffset(ts, after, k, size, k);
  }

  lemma CorrectedNone(ts: seq<Token>, size: nat)
    requires AllOk(ts)
    ensures CorrectedTo(ts, ts, 0, size)
  {}

  lemma CorrectedAt(ts: seq<Token>, ts': seq<Token>, i: nat, size: nat)
    requires CorrectedTo(ts, ts', i, size) && i < |ts|
    ensures |ts'| == |ts| && ts'[i] == ts[i]
  {}

  lemma CorrectedAllShown(es: seq<Event>, ts: seq<Token>, ts': seq<Token>, strings: seq<byte>)
    requires Recorded(es, ts, strings) && |strings| < TWO31 && |ts'| == |ts| + 1
    requires AllOk(ts) && forall k :: 0 <= k < |ts| ==> ts'[k] == Corrected(ts[k], |strings|)
    ensures Shown(es, ts'[..|es|], strings)
  {
    hide TokenOk, Records, Shows, Corrected;
    forall k | 0 <= k < |es|
      ensures Shows(es[k], ts'[..|es|][k], strings)
    {
      CorrectedShows(es[k], ts[k], strings);
    }
  }

  // ----- reading a finished blob -----

  /** The bytes from `pos` up to a zero byte or the end of `s`. */
  function StringAt(s: seq<byte>, pos: nat): seq<byte>
    decreases |s| - pos
  {
    if pos >= |s| || s[pos] == 0 then [] else [s[pos]] + StringAt(s, pos + 1)
  }

  lemma StringAtIs(s: seq<byte>, pos: nat, name: seq<byte>)
    requires IsCString(s, pos, name)
    ensures StringAt(s, pos) == name
    decreases |name|
  {
    assert s[pos] == s[pos..pos + |name| + 1][0] == (name + [0])[0];
    if name != [] {
      assert name[0] in name;
      assert s[pos + 1..pos + 1 + |name[1..]| + 1] == s[pos..pos + |name| + 1][1..] == name[1..] + [0];
      StringAtIs(s, pos + 1, name[1..]);
      assert name == [name[0]] + name[1..];
    }
  }

  /** The call that the token with tag `tag` at offset `off` stands for. */
  function ReadEvent(s: seq<byte>, strings: seq<byte>, off: nat, tag: nat): Option<Event>
    requires off <= |s|
  {
    if tag == FDT_BEGIN_NODE then Some(Begin(StringAt(s, off + 4)))
    else if tag == FDT_END_NODE then Some(Close)
    else if tag == FDT_PROP && off + 12 <= |s| && off + 12 + Word32(s, off + 4) <= |s| then
      Some(Property(StringAt(strings, Word32(s, off + 8)), s[off + 12..off + 12 + Word32(s, off + 4)]))
    else None
  }

  /** All that is found by iterating fdt_next_tag from `off` to FDT_END. */
  function ReadEvents(s: seq<byte>, strings: seq<byte>, off: nat): Option<seq<Event>>
    requires |s| < TWO31 - 4 && off <= |s|
    decreases |s| - off
  {
    var (tag, next) := NextTag(s, off);
    if tag == FDT_END then (if next >= 0 then Some([]) else None)
    else
      var e := ReadEvent(s, strings, off, tag);
      if e.None? || next <= off || next > |s| then None
      else
        var rest := ReadEvents(s, strings, next);
        if rest.None? then None else Some([e.value] + rest.value)
  }

  lemma ReadEventAt(s: seq<byte>, strings: seq<byte>, o: nat, t: Token, e: Event)
    requires TokenOk(t) && Shows(e, t, strings)
    requires o + |Encode(t)| <= |s| && s[o..o + |Encode(t)|] == Encode(t)
    ensures Tag(t) != FDT_END && ReadEvent(s, strings, o, Tag(t)) == Some(e)
  {
    hide Be32, Word32, Encode, StringAt;
    var c := Encode(t);
    EncodeParts(t);
    match e
    case Begin(name) =>
      Within(s, o, c, 4, 4 + |name| + 1);
      StringAtIs(s, o + 4, name);
    case Property(name, value) =>
      Within(s, o, c, 4, 8);
      WordOfBe32(|value|, s, o + 4);
      Within(s, o, c, 8, 12);
      WordOfBe32(t.nameoff, s, o + 8);
      Within(s, o, c, 12, 12 + |value|);
      StringAtIs(strings, t.nameoff, name);
    case Close =>
  }

  lemma EncodeAt(ts: seq<Token>, i: nat)
    requires AllOk(ts) && i < |ts|
    ensures var o := Offset(ts, i);
            o + |Encode(ts[i])| <= |EncodeAll(ts)| && EncodeAll(ts)[o..o + |Encode(ts[i])|] == Encode(ts[i])
  {
    hide TokenOk, Encode;
    EncodeAround(ts, i);
  }

  /** Iterating fdt_next_tag over a finished blob gives back the calls, and then the end. */
  lemma {:induction false} ReadsBackFrom(es: seq<Event>, ts: seq<Token>, s: seq<byte>, strings: seq<byte>, i: nat)
    requires AllOk(ts) && |ts| == |es| + 1 && ts[|es|] == End && Shown(es, ts[..|es|], strings)
    requires s == EncodeAll(ts) && |s| < TWO31 - 4 && i <= |es|
    ensures Offset(ts, i) <= |s| && ReadEvents(s, strings, Offset(ts, i)) == Some(es[i..])
    decreases |es| - i
  {
    hide TokenOk, Encode, EncodeAll, NextTag, ReadEvent, Offset, Shows;
    NextTagAt(ts, i);
    OffsetStep(ts, i);
    if i < |es| {
      assert Shows(es[i], ts[..|es|][i], strings);
      EncodeAt(ts, i);
      ReadEventAt(s, strings, Offset(ts, i), ts[i], es[i]);
      ReadsBackFrom(es, ts, s, strings, i + 1);
      assert es[i..] == [es[i]] + es[i + 1..];
    } else {
      assert es[i..] == [];
    }
  }

  /** What fdt_finish leaves reads back as the calls that were recorded. */
  lemma FinishReadsBack(es: seq<Event>, ts: seq<Token>, ts': seq<Token>, s: seq<byte>, strings: seq<byte>)
    requires AllOk(ts) && Recorded(es, ts, strings) && |strings| < TWO31
    requires CorrectedTo(ts + [End], ts', |ts|, |strings|) && AllOk(ts') && s == EncodeAll(ts') && |s| < TWO31 - 4
    ensures ReadEvents(s, strings, 0) == Some(es)
    ensures |ts'| == |es| + 1 && ts'[|es|] == End && Shown(es, ts'[..|es|], strings)
  {
    hide TokenOk, Encode, EncodeAll, Records, Shows, Corrected, ReadEvents;
    var all := ts + [End];
    forall k | 0 <= k < |ts|
      ensures ts'[k] == Corrected(ts[k], |strings|)
    {
      assert all[k] == ts[k];
    }
    assert all[|ts|] == End;
    CorrectedAllShown(es, ts, ts', strings);
    OffsetEnds(ts');
    ReadsBackFrom(es, ts', s, strings, 0);
    assert es[0..] == es;
  }

  /** The last token, and no other, is the end. */
  predicate EndsOnce(ts: seq<Token>) {
    |ts| > 0 && ts[|ts| - 1] == End && forall i :: 0 <= i < |ts| - 1 ==> ts[i] != End
  }

  lemma RecordedEndsOnce(es: seq<Event>, ts: seq<Token>, strings: seq<byte>)
    requires Recorded(es, ts, strings)
    ensures EndsOnce(ts + [End])
  {
    forall i | 0 <= i < |ts|
      ensures ts[i] != End
    {
      assert Records(es[i], ts[i], strings);
    }
  }
}
