/**
 Byte buffers and the string functions that fill them in place (lib/string.c).
 */
module Memory {

  type byte = b: int | 0 <= b < 256

  /** The bytes `m` after `data` was written at `at`. */
  function Put(m: seq<byte>, at: nat, data: seq<byte>): (r: seq<byte>)
    requires at + |data| <= |m|
    ensures |r| == |m|
  {
    m[..at] + data + m[at + |data|..]
  }

  lemma PutAt(m: seq<byte>, at: nat, data: seq<byte>)
    requires at + |data| <= |m|
    ensures Put(m, at, data)[at..at + |data|] == data
  {}

  lemma PutApart(m: seq<byte>, at: nat, data: seq<byte>, i: nat, j: nat)
    requires at + |data| <= |m| && i <= j <= |m| && (j <= at || at + |data| <= i)
    ensures Put(m, at, data)[i..j] == m[i..j]
  {}

  /** Two writes inside a stretch are one write of the stretch. */
  lemma PutPut(m: seq<byte>, at: nat, data: seq<byte>, at2: nat, data2: seq<byte>, from: nat, to: nat)
    requires from <= at && at + |data| <= to && from <= at2 && at2 + |data2| <= to <= |m|
    ensures var r := Put(Put(m, at, data), at2, data2); r == Put(m, from, r[from..to])
  {}

  lemma SliceSlice(m: seq<byte>, i: nat, j: nat, a: nat, b: nat)
    requires i <= j <= |m| && a <= b <= j - i
    ensures m[i..j][a..b] == m[i + a..i + b]
  {
    forall k | 0 <= k < b - a
      ensures m[i..j][a..b][k] == m[i + a..i + b][k]
    {
    }
  }

  lemma Slices(m: seq<byte>, i: nat, j: nat, k: nat)
    requires i <= j <= k <= |m|
    ensures m[i..k] == m[i..j] + m[j..k]
  {}

  /** The bytes after [b, end) was moved to follow `data`, which was written at `a`. */
  function Spliced(m: seq<byte>, a: nat, b: nat, end: nat, data: seq<byte>): (r: seq<byte>)
    requires a <= b <= end <= |m| && end - b + a + |data| <= |m|
    ensures |r| == |m|
  {
    Put(Put(m, a + |data|, m[b..end]), a, data)
  }

  lemma SplicedParts(m: seq<byte>, a: nat, b: nat, end: nat, data: seq<byte>)
    requires a <= b <= end <= |m| && end - b + a + |data| <= |m|
    ensures var r := Spliced(m, a, b, end, data);
            r[..a] == m[..a] && r[a..a + |data|] == data && r[a + |data|..a + |data| + (end - b)] == m[b..end]
  {
    var m1 := Put(m, a + |data|, m[b..end]);
    hide Put;
    PutAt(m, a + |data|, m[b..end]);
    PutApart(m, a + |data|, m[b..end], 0, a);
    PutAt(m1, a, data);
    PutApart(m1, a, data, 0, a);
    PutApart(m1, a, data, a + |data|, a + |data| + (end - b));
  }

  /** A stretch around the splice. */
  lemma SplicedAround(m: seq<byte>, a: nat, b: nat, end: nat, data: seq<byte>, i: nat, j: nat)
    requires i <= a <= b <= j <= end <= |m| && end - b + a + |data| <= |m|
    ensures Spliced(m, a, b, end, data)[i..j - b + a + |data|] == m[i..a] + data + m[b..j]
  {
    hide Spliced;
    var r, n := Spliced(m, a, b, end, data), |data|;
    SplicedParts(m, a, b, end, data);
    SliceSlice(r, 0, a, i, a);
    SliceSlice(m, 0, a, i, a);
    SliceSlice(r, a + n, a + n + (end - b), 0, j - b);
    SliceSlice(m, b, end, 0, j - b);
    Slices(r, i, a, a + n);
    Slices(r, i, a + n, a + n + (j - b));
  }

  /** A stretch behind the splice. */
  lemma SplicedBehind(m: seq<byte>, a: nat, b: nat, end: nat, data: seq<byte>, i: nat, j: nat)
    requires a <= b <= i <= j <= end <= |m| && end - b + a + |data| <= |m|
    ensures Spliced(m, a, b, end, data)[i - b + a + |data|..j - b + a + |data|] == m[i..j]
  {
    hide Spliced;
    var r, n := Spliced(m, a, b, end, data), |data|;
    SplicedParts(m, a, b, end, data);
    SliceSlice(r, a + n, a + n + (end - b), i - b, j - b);
    SliceSlice(m, b, end, i - b, j - b);
  }

  /** memcpy from a constant source. */
  method MemCpy(a: array<byte>, dest: nat, src: seq<byte>)
    requires dest + |src| <= a.Length
    modifies a
    ensures a[..] == Put(old(a[..]), dest, src)
  {
    for i := 0 to |src|
      invariant forall k :: 0 <= k < i ==> a[dest + k] == src[k]
      invariant forall k :: 0 <= k < a.Length && !(dest <= k < dest + i) ==> a[k] == old(a[k])
    {
      a[dest + i] := src[i];
    }
  }

  method MemSet(a: array<byte>, start: nat, c: byte, n: nat)
    requires start + n <= a.Length
    modifies a
    ensures a[..] == Put(old(a[..]), start, seq(n, _ => c))
  {
    for i := 0 to n
      invariant forall k :: start <= k < start + i ==> a[k] == c
      invariant forall k :: 0 <= k < a.Length && !(start <= k < start + i) ==> a[k] == old(a[k])
    {
      a[start + i] := c;
    }
  }

  lemma PutIs(m: seq<byte>, r: seq<byte>, at: nat, data: seq<byte>)
    requires at + |data| <= |m| == |r|
    requires forall k :: at <= k < at + |data| ==> r[k] == data[k - at]
    requires forall k :: 0 <= k < |m| && !(at <= k < at + |data|) ==> r[k] == m[k]
    ensures r == Put(m, at, data)
  {}

  /** memmove: the source may overlap the destination on either side. */
  method MemMove(a: array<byte>, dest: nat, src: nat, n: nat)
    requires dest + n <= a.Length && src + n <= a.Length
    modifies a
    ensures a[..] == Put(old(a[..]), dest, old(a[src..src + n]))
  {
    if dest <= src {
      for i := 0 to n
        invariant forall k :: dest <= k < dest + i ==> a[k] == old(a[k - dest + src])
        invariant forall k :: 0 <= k < a.Length && !(dest <= k < dest + i) ==> a[k] == old(a[k])
      {
        a[dest + i] := a[src + i];
      }
    } else {
      for i := n downto 0
        invariant forall k :: dest + i <= k < dest + n ==> a[k] == old(a[k - dest + src])
        invariant forall k :: 0 <= k < a.Length && !(dest + i <= k < dest + n) ==> a[k] == old(a[k])
      {
        a[dest + i] := a[src + i];
      }
    }
    hide Put;
    PutIs(old(a[..]), a[..], dest, old(a[src..src + n]));
  }

  /** memcmp: zero for equal bytes, and else the difference of the first two bytes that differ. */
  method MemCmp(a: array<byte>, at: nat, s: seq<byte>) returns (r: int)
    requires at + |s| <= a.Length
    ensures r == 0 <==> a[at..at + |s|] == s
    ensures r != 0 ==> exists k :: 0 <= k < |s| && a[at..at + k] == s[..k] && r == a[at + k] as int - s[k] as int
  {
    for i := 0 to |s|
      invariant forall k :: 0 <= k < i ==> a[at + k] == s[k]
    {
      r := a[at + i] as int - s[i] as int;
      if r != 0 {
        assert a[at..at + |s|][i] != s[i];
        assert a[at..at + i] == s[..i];
        return;
      }
    }
    return 0;
  }
}
