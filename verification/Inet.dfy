/** inet.c: printing and parsing addresses in caller's buffers, with the round trips. A C string is the sequence of
    its characters before the terminator. */
module Inet {
  import opened Basics
  import opened InetText

  /** 0, UV_ENOSPC, UV_EINVAL and UV_EAFNOSUPPORT. */
  datatype Status = Ok | NoSpace | Invalid | NoSupport

  // ---------- what inet_ntop6 prints ----------

  function Words(a: seq<Byte>): (w: seq<Word>)
    requires |a| == 16
    ensures |w| == 8
  {
    seq(8, k requires 0 <= k < 8 => (a[2 * k] as int) * 256 + a[2 * k + 1])
  }

  predicate IsRun(w: seq<Word>, base: int, len: int) {
    0 <= base && 0 <= len && base + len <= |w| && forall k :: base <= k < base + len ==> w[k] == 0
  }

  /** The stretch that "::" stands for: the leftmost among the longest runs of zero words, if that has two words or
      more; otherwise base is -1. */
  ghost predicate BestRun(w: seq<Word>, base: int, len: int) {
    if base == -1 then
      forall b, n :: IsRun(w, b, n) ==> n < 2
    else
      && IsRun(w, base, len) && len >= 2
      && forall b, n :: IsRun(w, b, n) ==> n <= len && (n == len ==> base <= b)
  }

  ghost function HexGroups(w: seq<Word>, lo: nat, hi: nat): (gs: seq<Group>)
    requires lo <= hi <= |w|
    ensures |gs| == hi - lo
  {
    seq(hi - lo, k requires 0 <= k < hi - lo => Hexa(Hex(w[lo + k])))
  }

  /** Whether the last four bytes are printed in dotted form. */
  predicate DottedTail(w: seq<Word>, base: int, len: int)
    requires |w| == 8
  {
    base == 0 && (len == 6 || (len == 5 && w[5] == 0xffff))
  }

  ghost function RightGroups(a: seq<Byte>, base: nat, len: nat): seq<Group>
    requires |a| == 16 && base + len <= 8
  {
    var w := Words(a);
    if DottedTail(w, base, len) then HexGroups(w, len, 6) + [Quad(a[12..16])] else HexGroups(w, base + len, 8)
  }

  lemma HexGroupsOk(w: seq<Word>, lo: nat, hi: nat)
    requires lo <= hi <= |w|
    ensures Hexas(HexGroups(w, lo, hi)) && AllGroups(HexGroups(w, lo, hi)) && Groups(HexGroups(w, lo, hi))
  {
    hide Hex;
    forall k | 0 <= k < hi - lo
      ensures IsHexa(HexGroups(w, lo, hi)[k])
    {
      HexInverse(w[lo + k]);
    }
  }

  lemma RightGroupsOk(a: seq<Byte>, base: nat, len: nat)
    requires |a| == 16 && base + len <= 8
    ensures AllGroups(RightGroups(a, base, len)) && Groups(RightGroups(a, base, len))
  {
    hide Hex, HexGroups, Words;
    var w := Words(a);
    if DottedTail(w, base, len) {
      HexGroupsOk(w, len, 6);
      var gs := HexGroups(w, len, 6);
      assert (gs + [Quad(a[12..16])])[..|gs|] == gs;
    } else {
      HexGroupsOk(w, base + len, 8);
    }
  }

  /** The text for a, given the run to leave out. */
  ghost function Text6(a: seq<Byte>, base: int, len: int): string
    requires |a| == 16 && (base == -1 || (0 <= base && 0 <= len && base + len <= 8))
  {
    var w := Words(a);
    if base == -1 then
      HexGroupsOk(w, 0, 8);
      Join(HexGroups(w, 0, 8))
    else
      HexGroupsOk(w, 0, base);
      RightGroupsOk(a, base, len);
      Join(HexGroups(w, 0, base)) + "::" + Join(RightGroups(a, base, len))
  }

  // ---------- printing, then parsing ----------

  lemma HexBytesInverse(n: Word)
    ensures AllHex(Hex(n)) && |Hex(n)| <= 4 && HexBytes(Hex(n)) == [n / 256, n % 256]
  {
    hide Hex, HexValue;
    HexInverse(n);
  }

  lemma HexWord(n: Word)
    ensures IsGroup(Hexa(Hex(n))) && |GroupText(Hexa(Hex(n)))| <= 4 && GroupBytes(Hexa(Hex(n))) == [n / 256, n % 256]
  {
    hide Hex, HexBytes, AllHex;
    HexInverse(n);
    HexBytesInverse(n);
  }

  lemma HexGroupsCons(w: seq<Word>, lo: nat, hi: nat)
    requires lo < hi <= |w|
    ensures HexGroups(w, lo, hi) == [Hexa(Hex(w[lo]))] + HexGroups(w, lo + 1, hi)
  {
    hide Hex;
  }

  lemma {:induction false} HexGroupsBytes(a: seq<Byte>, lo: nat, hi: nat)
    requires |a| == 16 && lo <= hi <= 8
    ensures AllGroups(HexGroups(Words(a), lo, hi)) && Bytes(HexGroups(Words(a), lo, hi)) == a[2 * lo..2 * hi]
    decreases hi - lo
  {
    hide Hex, HexGroups, HexBytes, Words, Join, AllGroups, IsGroup, GroupBytes;
    var w := Words(a);
    HexGroupsOk(w, lo, hi);
    if lo < hi {
      hide Bytes;
      HexGroupsCons(w, lo, hi);
      HexGroupsBytes(a, lo + 1, hi);
      HexWord(w[lo]);
      JoinCons(Hexa(Hex(w[lo])), HexGroups(w, lo + 1, hi));
      FirstWord(a, lo, hi);
    }
  }

  /** A word stands for two bytes of the address. */
  lemma FirstWord(a: seq<Byte>, lo: nat, hi: nat)
    requires |a| == 16 && lo < hi <= 8
    ensures a[2 * lo..2 * hi] == [Words(a)[lo] / 256, Words(a)[lo] % 256] + a[2 * (lo + 1)..2 * hi]
  {
    assert a[2 * lo..2 * hi] == [a[2 * lo], a[2 * lo + 1]] + a[2 * (lo + 1)..2 * hi];
  }

  lemma {:induction false} BytesAppend(gs: seq<Group>, g: Group)
    requires AllGroups(gs) && IsGroup(g)
    ensures AllGroups(gs + [g]) && Bytes(gs + [g]) == Bytes(gs) + GroupBytes(g)
    decreases gs
  {
    hide GroupBytes, IsGroup;
    if gs == [] {
      JoinOne(g);
      assert gs + [g] == [g];
    } else {
      BytesAppend(gs[1..], g);
      assert (gs + [g])[1..] == gs[1..] + [g];
    }
  }

  lemma RightBytes(a: seq<Byte>, base: nat, len: nat)
    requires |a| == 16 && base + len <= 8
    ensures AllGroups(RightGroups(a, base, len)) && Bytes(RightGroups(a, base, len)) == a[2 * (base + len)..]
  {
    hide HexGroups, Words;
    RightGroupsOk(a, base, len);
    var w := Words(a);
    if DottedTail(w, base, len) {
      HexGroupsBytes(a, len, 6);
      BytesAppend(HexGroups(w, len, 6), Quad(a[12..16]));
      Cut(a, 2 * len, 12);
    } else {
      HexGroupsBytes(a, base + len, 8);
      assert a[2 * (base + len)..16] == a[2 * (base + len)..];
    }
  }

  lemma Cut(a: seq<Byte>, i: nat, j: nat)
    requires i <= j <= |a| == 16
    ensures a[i..j] + a[j..16] == a[i..]
  {
  }

  lemma RunIsZeros(a: seq<Byte>, base: nat, len: nat)
    requires |a| == 16 && IsRun(Words(a), base, len)
    ensures a[2 * base..2 * (base + len)] == Zeros(2 * len)
  {
    var cut := a[2 * base..2 * (base + len)];
    forall k | 0 <= k < 2 * len
      ensures cut[k] == 0
    {
      assert Words(a)[base + k / 2] == 0;
    }
  }

  /** What inet_ntop6 prints is a text representation of its argument. */
  lemma PrintedDenotes(a: seq<Byte>, base: int, len: int)
    requires |a| == 16 && BestRun(Words(a), base, len)
    ensures Denotes(Text6(a, base, len), a)
  {
    hide HexGroups, Words, RightGroups, Hexas, Groups, AllGroups, Join;
    var w := Words(a);
    if base == -1 {
      HexGroupsOk(w, 0, 8);
      HexGroupsBytes(a, 0, 8);
      assert a[0..16] == a;
      assert Plain(Text6(a, base, len), a, HexGroups(w, 0, 8));
    } else {
      HexGroupsOk(w, 0, base);
      RightGroupsOk(a, base, len);
      HexGroupsBytes(a, 0, base);
      RightBytes(a, base, len);
      RunIsZeros(a, base, len);
      assert a[0..2 * base] + a[2 * base..2 * (base + len)] + a[2 * (base + len)..] == a;
      assert Compressed(Text6(a, base, len), a, HexGroups(w, 0, base), RightGroups(a, base, len));
    }
  }

  /** inet_pton6 applied to what inet_ntop6 prints returns the address, for all 2^128 of them. */
  lemma RoundTrip6(a: seq<Byte>, base: int, len: int)
    requires |a| == 16 && BestRun(Words(a), base, len)
    ensures Parse6(Text6(a, base, len)) == Some(a)
  {
    hide Text6, Denotes, BestRun, Words;
    BestRunBounds(Words(a), base, len);
    PrintedDenotes(a, base, len);
    Parse6Exact(Text6(a, base, len), a);
  }

  /** There is only one run to leave out. */
  lemma BestRunUnique(w: seq<Word>, base: int, len: int, base': int, len': int)
    requires BestRun(w, base, len) && BestRun(w, base', len')
    ensures base == base' && (base != -1 ==> len == len')
  {
    if base != -1 {
      assert IsRun(w, base, len);
    }
    if base' != -1 {
      assert IsRun(w, base', len');
    }
  }

  // ---------- lengths ----------

  lemma {:induction false} HexGroupsLength(w: seq<Word>, lo: nat, hi: nat)
    requires lo <= hi <= |w|
    ensures AllGroups(HexGroups(w, lo, hi)) && |Join(HexGroups(w, lo, hi))| <= 5 * (hi - lo)
    ensures lo < hi ==> |Join(HexGroups(w, lo, hi))| < 5 * (hi - lo)
    decreases hi - lo
  {
    hide Hex, HexGroups, HexBytes, AllGroups, IsGroup, GroupText, GroupBytes, Bytes;
    HexGroupsOk(w, lo, hi);
    if lo < hi {
      hide Join;
      HexGroupsCons(w, lo, hi);
      HexGroupsLength(w, lo + 1, hi);
      HexWord(w[lo]);
      JoinCons(Hexa(Hex(w[lo])), HexGroups(w, lo + 1, hi));
    }
  }

  lemma {:induction false} JoinAppend(gs: seq<Group>, g: Group)
    requires AllGroups(gs) && IsGroup(g)
    ensures AllGroups(gs + [g])
    ensures Join(gs + [g]) == if gs == [] then GroupText(g) else Join(gs) + ":" + GroupText(g)
    decreases gs
  {
    hide GroupText, IsGroup;
    if gs == [] {
      assert gs + [g] == [g];
    } else {
      JoinAppend(gs[1..], g);
      assert gs + [g] == [gs[0]] + (gs[1..] + [g]) && gs == [gs[0]] + gs[1..];
      JoinCons(gs[0], gs[1..] + [g]);
      JoinCons(gs[0], gs[1..]);
    }
  }

  /** The text fits the 46-byte buffer, terminator included. */
  lemma TextFits(a: seq<Byte>, base: int, len: int)
    requires |a| == 16 && BestRun(Words(a), base, len)
    ensures |Text6(a, base, len)| <= 45
  {
    hide HexGroups, Words, Join, Hexas, Groups, AllGroups;
    var w := Words(a);
    if base == -1 {
      HexGroupsLength(w, 0, 8);
    } else {
      HexGroupsLength(w, 0, base);
      RightLength(a, base, len);
    }
  }

  lemma RightLength(a: seq<Byte>, base: nat, len: nat)
    requires |a| == 16 && base + len <= 8
    ensures AllGroups(RightGroups(a, base, len))
    ensures DottedTail(Words(a), base, len) ==> |Join(RightGroups(a, base, len))| <= 5 * (6 - len) + 16
    ensures !DottedTail(Words(a), base, len) ==> |Join(RightGroups(a, base, len))| <= 5 * (8 - base - len)
  {
    hide HexGroups, Words, Join, Hexas, Groups, AllGroups;
    RightGroupsOk(a, base, len);
    var w := Words(a);
    if DottedTail(w, base, len) {
      HexGroupsOk(w, len, 6);
      HexGroupsLength(w, len, 6);
      JoinAppend(HexGroups(w, len, 6), Quad(a[12..16]));
    } else {
      HexGroupsLength(w, base + len, 8);
    }
  }

  // ---------- printing ----------

  function Nuls(n: nat): (r: string)
    ensures |r| == n && forall k :: 0 <= k < n ==> r[k] == '\0'
  {
    seq(n, _ => '\0')
  }

  /** inet_ntop4 into dst from at on, whose size is what is left of dst. On success the rest of dst is filled with
      terminators, as strncpy does. */
  method Ntop4(src: seq<Byte>, dst: array<char>, at: nat) returns (r: Status)
    requires |src| == 4 && at <= dst.Length
    modifies dst
    ensures r == if |Text4(src)| < dst.Length - at then Ok else NoSpace
    ensures r.Ok? ==> dst[..] == old(dst[..at]) + Text4(src) + Nuls(dst.Length - at - |Text4(src)|)
    ensures !r.Ok? ==> dst[..] == old(dst[..])
  {
    hide Text4;
    var size := dst.Length - at;
    var tmp := Text4(src);
    if |tmp| >= size {
      return NoSpace;
    }
    ghost var full := old(dst[..at]) + tmp + Nuls(size - |tmp|);
    var i := 0;
    while i < size
      invariant 0 <= i <= size
      invariant dst[..at + i] == full[..at + i]
    {
      dst[at + i] := if i < |tmp| then tmp[i] else '\0';
      i := i + 1;
    }
    dst[at + size - 1] := '\0';
    assert dst[..] == dst[..at + size] == full;
    r := Ok;
  }

  /** The two loops of inet_ntop6 that look for the run to leave out. */
  method LongestZeros(w: array<Word>) returns (base: int, len: int)
    requires w.Length == 8
    ensures BestRun(w[..], base, len)
  {
    base, len := -1, 0;
    var cbase, clen := -1, 0;
    var i := 0;
    while i < w.Length
      invariant 0 <= i <= 8
      invariant cbase != -1 ==> IsRun(w[..], cbase, clen) && cbase + clen == i && clen >= 1
      invariant cbase != -1 && cbase > 0 ==> w[cbase - 1] != 0
      invariant cbase == -1 && i > 0 ==> w[i - 1] != 0
      invariant base != -1 ==> IsRun(w[..], base, len) && len >= 1 && base + len < (if cbase == -1 then i else cbase)
      invariant base == -1 ==> len == 0
      invariant forall b, n :: IsRun(w[..], b, n) && n >= 1 && b + n <= (if cbase == -1 then i else cbase) ==>
                  base != -1 && n <= len && (n == len ==> base <= b)
    {
      if w[i] == 0 {
        if cbase == -1 {
          cbase, clen := i, 1;
        } else {
          clen := clen + 1;
        }
      } else if cbase != -1 {
        RunsEndAt(w[..], cbase, i);
        if base == -1 || clen > len {
          base, len := cbase, clen;
        }
        cbase := -1;
      } else {
        RunsEndAt(w[..], i, i);
      }
      i := i + 1;
    }
    if cbase != -1 {
      RunsEndAt(w[..], cbase, i);
      if base == -1 || clen > len {
        base, len := cbase, clen;
      }
    }
    if base != -1 && len < 2 {
      base := -1;
    }
  }

  /** A run that ends by end + 1 either ends by start or lies between start and end, when the words before start and at
      end are not zero. */
  lemma RunsEndAt(w: seq<Word>, start: nat, end: nat)
    requires start <= end <= |w| && (start > 0 ==> w[start - 1] != 0) && (end < |w| ==> w[end] != 0)
    ensures forall b, n :: IsRun(w, b, n) && n >= 1 && b + n <= end + 1 ==>
              b + n <= start || (start <= b && b + n <= end)
  {
    forall b, n | IsRun(w, b, n) && n >= 1 && b + n <= end + 1
      ensures b + n <= start || (start <= b && b + n <= end)
    {
      if b + n == end + 1 {
        ZeroInRun(w, b, n, end);
      } else if b < start < b + n {
        ZeroInRun(w, b, n, start - 1);
      }
    }
  }

  lemma ZeroInRun(w: seq<Word>, base: int, len: int, k: int)
    requires IsRun(w, base, len) && base <= k < base + len
    ensures w[k] == 0
  {
  }

  /** sprintf to tp: the text and, behind it, a terminator. */
  method Put(tmp: array<char>, tp: nat, text: string) returns (tp': nat)
    requires tp + |text| < tmp.Length
    modifies tmp
    ensures tp' == tp + |text| && tmp[..tp'] == old(tmp[..tp]) + text
  {
    var i := 0;
    while i < |text|
      invariant 0 <= i <= |text|
      invariant forall k :: 0 <= k < tp ==> tmp[k] == old(tmp[k])
      invariant forall k :: 0 <= k < i ==> tmp[tp + k] == text[k]
    {
      tmp[tp + i] := text[i];
      i := i + 1;
    }
    tmp[tp + |text|] := '\0';
    tp' := tp + |text|;
  }

  /** What the formatting loop has printed before it looks at word i. */
  ghost function Shown(w: seq<Word>, base: int, len: int, i: nat): string
    requires |w| == 8 && i <= 8 && (base == -1 || (0 <= base && 2 <= len && base + len <= 8))
  {
    if base == -1 || i <= base then
      HexGroupsOk(w, 0, i);
      Join(HexGroups(w, 0, i))
    else
      HexGroupsOk(w, 0, base);
      Join(HexGroups(w, 0, base)) + ":"
      + if i <= base + len then "" else HexGroupsOk(w, base + len, i); ":" + Join(HexGroups(w, base + len, i))
  }

  lemma HexGroupsSnoc(w: seq<Word>, lo: nat, hi: nat)
    requires lo <= hi < |w|
    ensures AllGroups(HexGroups(w, lo, hi)) && AllGroups(HexGroups(w, lo, hi + 1))
    ensures Join(HexGroups(w, lo, hi + 1)) == (if lo == hi then "" else Join(HexGroups(w, lo, hi)) + ":") + Hex(w[hi])
  {
    hide Hex, Join;
    HexGroupsOk(w, lo, hi);
    HexGroupsOk(w, lo, hi + 1);
    HexInverse(w[hi]);
    assert HexGroups(w, lo, hi + 1) == HexGroups(w, lo, hi) + [Hexa(Hex(w[hi]))];
    JoinAppend(HexGroups(w, lo, hi), Hexa(Hex(w[hi])));
  }

  lemma ShownLength(w: seq<Word>, base: int, len: int, i: nat)
    requires |w| == 8 && i <= 8 && (base == -1 || (0 <= base && 2 <= len && base + len <= 8))
    ensures |Shown(w, base, len, i)| <= 5 * i
  {
    hide HexGroups, Join, AllGroups;
    if base == -1 || i <= base {
      HexGroupsLength(w, 0, i);
    } else {
      HexGroupsLength(w, 0, base);
      if i > base + len {
        HexGroupsLength(w, base + len, i);
      }
    }
  }

  /** Word i is printed as a group of digits, after a colon unless it is the first. */
  lemma ShownHex(w: seq<Word>, base: int, len: int, i: nat)
    requires |w| == 8 && i < 8 && (base == -1 || (0 <= base && 2 <= len && base + len <= 8))
    requires base == -1 || i < base || base + len <= i
    ensures Shown(w, base, len, i + 1) == Shown(w, base, len, i) + (if i == 0 then "" else ":") + Hex(w[i])
  {
    hide HexGroups, Join, AllGroups, Hex;
    if base == -1 || i < base {
      HexGroupsSnoc(w, 0, i);
      HexGroupsOk(w, 0, i);
      if i == 0 {
        JoinNone(w, 0);
      }
    } else {
      HexGroupsOk(w, 0, base);
      HexGroupsSnoc(w, base + len, i);
    }
  }

  lemma JoinNone(w: seq<Word>, i: nat)
    requires i <= |w|
    ensures HexGroups(w, i, i) == [] && Join([]) == ""
  {
  }

  /** Inside the run only its first word prints anything, a colon. */
  lemma ShownSkip(w: seq<Word>, base: int, len: int, i: nat)
    requires |w| == 8 && 0 <= base <= i < base + len <= 8 && 2 <= len
    ensures Shown(w, base, len, i + 1) == Shown(w, base, len, i) + if i == base then ":" else ""
  {
    hide HexGroups, Join, AllGroups;
  }

  /** At the end the text is all there but for the second colon of a run that ends the address. */
  lemma ShownAll(a: seq<Byte>, base: int, len: int)
    requires |a| == 16 && (base == -1 || (0 <= base && 2 <= len && base + len <= 8))
    requires base != -1 ==> !DottedTail(Words(a), base, len)
    ensures Text6(a, base, len) == Shown(Words(a), base, len, 8) + if base != -1 && base + len == 8 then ":" else ""
  {
    hide HexGroups, Join, AllGroups, Words;
    var w := Words(a);
    if base != -1 {
      HexGroupsOk(w, 0, base);
      RightGroupsOk(a, base, len);
      if base + len == 8 {
        JoinNone(w, 8);
        assert Join(HexGroups(w, 0, base)) + "::" + "" == Join(HexGroups(w, 0, base)) + ":" + "" + ":";
      } else {
        HexGroupsOk(w, base + len, 8);
        var rest := Join(HexGroups(w, base + len, 8));
        assert Join(HexGroups(w, 0, base)) + "::" + rest == Join(HexGroups(w, 0, base)) + ":" + (":" + rest);
      }
    }
  }

  lemma ShownDotted(a: seq<Byte>, base: int, len: int)
    requires |a| == 16 && DottedTail(Words(a), base, len)
    ensures Text6(a, base, len) == Shown(Words(a), base, len, 6) + ":" + Text4(a[12..16])
  {
    hide HexGroups, Join, AllGroups, Words, Text4;
    var w := Words(a);
    var quad := Quad(a[12..16]);
    HexGroupsOk(w, 0, 0);
    HexGroupsOk(w, len, 6);
    RightGroupsOk(a, base, len);
    JoinAppend(HexGroups(w, len, 6), quad);
    JoinNone(w, 0);
    JoinNone(w, 6);
    if len == 6 {
      assert "" + "::" + Text4(a[12..16]) == "" + ":" + "" + ":" + Text4(a[12..16]);
    } else {
      var mid := Join(HexGroups(w, len, 6));
      assert "" + "::" + (mid + ":" + Text4(a[12..16])) == "" + ":" + (":" + mid) + ":" + Text4(a[12..16]);
    }
  }

  /** The first loop of inet_ntop6. */
  method LoadWords(src: seq<Byte>) returns (words: array<Word>)
    requires |src| == 16
    ensures fresh(words) && words.Length == 8 && words[..] == Words(src)
  {
    words := new Word[8](_ => 0);
    var i := 0;
    while i < 16
      invariant 0 <= i <= 16
      invariant forall k :: 0 <= k < 8 ==>
                  words[k] == (if 2 * k < i then (src[2 * k] as int) * 256 else 0) + (if 2 * k + 1 < i then src[2 * k + 1] else 0)
    {
      words[i / 2] := words[i / 2] + (src[i] as int) * (if i % 2 == 0 then 256 else 1);
      i := i + 1;
    }
  }

  /** The formatting loop: it prints to tmp and returns the end of the text there, without the closing terminator. */
  method Format(src: seq<Byte>, words: array<Word>, base: int, len: int, tmp: array<char>) returns (tp: nat)
    requires |src| == 16 && words.Length == 8 && words[..] == Words(src) && BestRun(words[..], base, len)
    requires tmp.Length == 46
    modifies tmp
    ensures tp <= 45 && tmp[..tp] == Text6(src, base, len)
  {
    hide Text6, Shown, Words, Hex, BestRun, Text4, DottedTail, IsRun;
    ghost var w := words[..];
    BestRunBounds(w, base, len);
    TextFits(src, base, len);
    tp := 0;
    var i := 0;
    ShownNone(w, base, len);
    var quad := false;
    while i < 8
      invariant 0 <= i <= 8 && words[..] == w
      invariant tp <= 5 * i && tmp[..tp] == Shown(w, base, len, i)
      invariant base != -1 && i > 6 ==> !DottedTail(w, base, len)
      decreases 8 - i
    {
      ShownLength(w, base, len, i + 1);
      if base != -1 && base <= i < base + len {
        ShownSkip(w, base, len, i);
        if i == base {
          tmp[tp] := ':';
          tp := tp + 1;
        }
        NotDottedInside(w, base, len, i);
        i := i + 1;
        continue;
      }
      ghost var before := tmp[..tp];
      if i != 0 {
        tmp[tp] := ':';
        tp := tp + 1;
      }
      assert tmp[..tp] == before + if i == 0 then "" else ":";
      var last, sixth := words[7], words[5];
      if i == 6 && base == 0 && (len == 6 || (len == 7 && last != 0x0001) || (len == 5 && sixth == 0xffff)) {
        DottedIff(w, base, len);
        ShownDotted(src, base, len);
        Text4Length(src[12..16]);
        var r := Ntop4(src[12..16], tmp, tp);
        assert r.Ok?;
        tp := tp + |Text4(src[12..16])|;
        quad := true;
        break;
      }
      DottedIff(w, base, len);
      ShownHex(w, base, len, i);
      HexInverse(words[i]);
      tp := Put(tmp, tp, Hex(words[i]));
      i := i + 1;
    }
    if !quad {
      ShownAll(src, base, len);
    }
    if base != -1 && base + len == 8 {
      tmp[tp] := ':';
      tp := tp + 1;
    }
  }

  lemma BestRunBounds(w: seq<Word>, base: int, len: int)
    requires |w| == 8 && BestRun(w, base, len)
    ensures base == -1 || (0 <= base && 2 <= len && base + len <= 8)
  {
  }

  lemma ShownNone(w: seq<Word>, base: int, len: int)
    requires |w| == 8 && (base == -1 || (0 <= base && 2 <= len && base + len <= 8))
    ensures Shown(w, base, len, 0) == ""
  {
    JoinNone(w, 0);
  }

  lemma Text4Length(v: seq<Byte>)
    requires |v| == 4
    ensures 7 <= |Text4(v)| <= 15
  {
    hide Dec;
  }

  lemma NotDottedInside(w: seq<Word>, base: int, len: int, i: nat)
    requires |w| == 8 && 0 <= base <= i < base + len <= 8
    ensures i >= 6 ==> !DottedTail(w, base, len)
  {
  }

  /** At word 6, outside the run, the tests of the source say whether the tail is dotted. Their test of seven zero words
      cannot pass there, as word 6 is then inside the run. */
  lemma DottedIff(w: seq<Word>, base: int, len: int)
    requires |w| == 8 && (base == -1 || base + len <= 8)
    ensures base == 0 && len <= 6 ==> (DottedTail(w, base, len) <==> len == 6 || (len == 5 && w[5] == 0xffff))
    ensures base != 0 || len > 6 ==> !DottedTail(w, base, len)
  {
  }

  /** inet_ntop6: it succeeds exactly when the size of dst exceeds the length of the text, and then leaves the text and
      a terminator in dst; the inner inet_ntop4 never fails. */
  method Ntop6(src: seq<Byte>, dst: array<char>) returns (r: Status, ghost base: int, ghost len: int)
    requires |src| == 16
    modifies dst
    ensures BestRun(Words(src), base, len)
    ensures var text := Text6(src, base, len);
      && r == (if |text| < dst.Length then Ok else NoSpace)
      && (r.Ok? ==> dst[..] == text + ['\0'] + old(dst[|text| + 1..]))
      && (!r.Ok? ==> dst[..] == old(dst[..]))
  {
    hide Text6, Words, BestRun;
    var words := LoadWords(src);
    var b, n := LongestZeros(words);
    base, len := b, n;
    BestRunBounds(words[..], b, n);
    var tmp := new char[46](_ => '\0');
    var tp := Format(src, words, b, n, tmp);
    ghost var text := tmp[..tp];
    tmp[tp] := '\0';
    tp := tp + 1;
    assert tmp[..tp] == text + ['\0'];
    if tp > dst.Length {
      return NoSpace, b, n;
    }
    CopyText(dst, tmp, tp);
    r := Ok;
  }

  /** strcpy of the first n characters of src. */
  method CopyText(dst: array<char>, src: array<char>, n: nat)
    requires n <= src.Length && n <= dst.Length && dst != src
    modifies dst
    ensures dst[..] == src[..n] + old(dst[n..])
  {
    var i := 0;
    while i < n
      invariant 0 <= i <= n
      invariant forall k :: 0 <= k < i ==> dst[k] == src[k]
      invariant forall k :: i <= k < dst.Length ==> dst[k] == old(dst[k])
    {
      dst[i] := src[i];
      i := i + 1;
    }
    assert dst[..n] == src[..n] && dst[n..] == old(dst[n..]);
    assert dst[..] == dst[..n] + dst[n..];
  }

  // ---------- parsing ----------

  /** inet_pton4 of src into four bytes of dst from at on. */
  method Pton4(src: string, dst: array<Byte>, at: nat) returns (r: Status)
    requires at + 4 <= dst.Length
    modifies dst
    ensures Parse4(src).Some? ==> r == Ok && dst[..] == old(dst[..at]) + Parse4(src).value + old(dst[at + 4..])
    ensures Parse4(src).None? ==> r == Invalid && dst[..] == old(dst[..])
  {
    var sawDigit, octets := false, 0;
    var tmp := new Byte[4](_ => 0);
    var tp, i := 0, 0;
    while i < |src|
      invariant 0 <= i <= |src| && tp <= 3 && octets == tp + (if sawDigit then 1 else 0)
      invariant Parse4(src) == Scan4(src[i..], tmp[..tp], tmp[tp], sawDigit)
      invariant !sawDigit ==> tmp[tp] == 0
      invariant dst[..] == old(dst[..])
    {
      var ch := src[i];
      assert src[i..][1..] == src[i + 1..];
      if IsDigit(ch) {
        var nw := (tmp[tp] as int) * 10 + DigitValue(ch);
        if sawDigit && tmp[tp] == 0 {
          return Invalid;
        }
        if nw > 255 {
          return Invalid;
        }
        tmp[tp] := nw;
        if !sawDigit {
          octets := octets + 1;
          sawDigit := true;
        }
      } else if ch == '.' && sawDigit {
        if octets == 4 {
          return Invalid;
        }
        ghost var done := tmp[..tp] + [tmp[tp]];
        tp := tp + 1;
        tmp[tp] := 0;
        assert tmp[..tp] == done;
        sawDigit := false;
      } else {
        return Invalid;
      }
      i := i + 1;
    }
    assert src[i..] == "";
    if octets < 4 {
      return Invalid;
    }
    assert tmp[..3] + [tmp[3]] == tmp[..];
    CopyBytes(dst, at, tmp);
    r := Ok;
  }

  /** memcpy of all of src. */
  method CopyBytes(dst: array<Byte>, at: nat, src: array<Byte>)
    requires at + src.Length <= dst.Length && dst != src
    modifies dst
    ensures dst[..] == old(dst[..at]) + src[..] + old(dst[at + src.Length..])
  {
    var i := 0;
    while i < src.Length
      invariant 0 <= i <= src.Length
      invariant forall k :: 0 <= k < i ==> dst[at + k] == src[k]
      invariant forall k :: 0 <= k < dst.Length && !(at <= k < at + i) ==> dst[k] == old(dst[k])
    {
      dst[at + i] := src[i];
      i := i + 1;
    }
    assert dst[at..at + i] == src[..];
    assert dst[..] == dst[..at] + dst[at..at + i] + dst[at + i..];
  }

  /** The buffer before round i of the shift: d zeros stand in front of the last i - 1 bytes read. */
  function Shifted(read: seq<Byte>, i: nat, d: nat): (r: seq<Byte>)
    requires 1 <= i <= |read| + 1
    ensures |r| == |read| + d
  {
    read[..|read| - i + 1] + Zeros(d) + read[|read| - i + 1..]
  }

  lemma ShiftNone(buf: seq<Byte>, tp: nat)
    requires tp <= |buf| && forall k :: tp <= k < |buf| ==> buf[k] == 0
    ensures buf == Shifted(buf[..tp], 1, |buf| - tp)
  {
  }

  lemma ShiftOne(read: seq<Byte>, i: nat, d: nat)
    requires 1 <= i <= |read| && 1 <= d
    ensures var was := Shifted(read, i, d);
      was[|read| - i + d := was[|read| - i]][|read| - i := 0] == Shifted(read, i + 1, d)
  {
  }

  lemma ShiftAll(buf: seq<Byte>, colonp: nat, tp: nat)
    requires colonp <= tp <= |buf|
    ensures Shifted(buf[..tp], tp - colonp + 1, |buf| - tp) == buf[..colonp] + Zeros(|buf| - tp) + buf[colonp..tp]
  {
  }

  /** The shift done by hand: the bytes from colonp to tp move to the end of buf, and zeros fill the gap. Each round
      copies a byte and clears where it was; the two regions may overlap. */
  method ShiftTail(buf: array<Byte>, colonp: nat, tp: nat)
    requires colonp <= tp < buf.Length && forall k :: tp <= k < buf.Length ==> buf[k] == 0
    modifies buf
    ensures buf[..] == old(buf[..colonp]) + Zeros(buf.Length - tp) + old(buf[colonp..tp])
  {
    hide Zeros, Shifted;
    var endp, n := buf.Length, tp - colonp;
    ghost var all := buf[..];
    ShiftNone(all, tp);
    var i := 1;
    while i <= n
      invariant 1 <= i <= n + 1
      invariant buf[..] == Shifted(all[..tp], i, endp - tp)
    {
      ShiftOne(all[..tp], i, endp - tp);
      buf[endp - i] := buf[colonp + n - i];
      buf[colonp + n - i] := 0;
      i := i + 1;
    }
    ShiftAll(all, colonp, tp);
    assert all[..colonp] == old(buf[..colonp]) && all[colonp..tp] == old(buf[colonp..tp]);
  }

  lemma HexValueAppend(tok: string, c: char)
    requires AllHex(tok) && IsHex(c)
    ensures AllHex(tok + [c]) && HexValue(tok + [c]) == HexValue(tok) * 16 + HexDigitValue(c)
  {
    assert (tok + [c])[..|tok|] == tok;
  }

  /** The two bytes of val at tp. */
  method PutWord(tmp: array<Byte>, tp: nat, val: nat, ghost tok: string) returns (tp': nat)
    requires tp + 2 <= tmp.Length && AllHex(tok) && |tok| <= 4 && val == HexValue(tok)
    modifies tmp
    ensures tp' == tp + 2 && tmp[..tp'] == old(tmp[..tp]) + HexBytes(tok) && tmp[tp'..] == old(tmp[tp'..])
  {
    HexValueBound(tok);
    tmp[tp] := val / 256 % 256;
    tmp[tp + 1] := val % 256;
    tp' := tp + 2;
  }

  /** Where the loop of inet_pton6 stands: what is read, and that the rest of the text decides the answer. */
  ghost predicate Reading(src: string, i: nat, tmp: seq<Byte>, tp: nat, colonp: int, curtok: nat, seen: nat, val: nat) {
    && curtok <= i <= |src| && |tmp| == 16 && tp <= 16 && -1 <= colonp <= tp
    && (forall k :: tp <= k < 16 ==> tmp[k] == 0)
    && AllHex(src[curtok..i]) && seen == i - curtok <= 4 && val == HexValue(src[curtok..i])
    && Parse6(src) == Scan6(src[i..], tmp[..tp], Gap(colonp), src[curtok..i])
  }

  function Gap(colonp: int): Option<nat> {
    if colonp < 0 then None else Some(colonp)
  }

  lemma StartReading(src: string, i: nat)
    requires if src != "" && src[0] == ':' then i == 1 && |src| >= 2 && src[1] == ':' else i == 0
    ensures Reading(src, i, Zeros(16), 0, -1, i, 0, 0)
  {
    hide Scan6;
    assert src[0..] == src && src[i..i] == "" && Zeros(16)[..0] == [];
  }

  lemma ReadDigit(src: string, i: nat, tmp: seq<Byte>, tp: nat, colonp: int, curtok: nat, seen: nat, val: nat)
    requires Reading(src, i, tmp, tp, colonp, curtok, seen, val) && i < |src| && IsHex(src[i])
    ensures seen == 4 ==> Parse6(src).None?
    ensures seen < 4 ==> Reading(src, i + 1, tmp, tp, colonp, curtok, seen + 1, val * 16 + HexDigitValue(src[i]))
  {
    hide Parse6, HexValue, HexBytes, HexDigitValue, Finish, Parse4, IsHex;
    assert src[i..][1..] == src[i + 1..] && src[curtok..i + 1] == src[curtok..i] + [src[i]];
    HexValueAppend(src[curtok..i], src[i]);
  }

  lemma ReadGap(src: string, i: nat, tmp: seq<Byte>, tp: nat, colonp: int, curtok: nat)
    requires Reading(src, i, tmp, tp, colonp, curtok, 0, 0) && i < |src| && src[i] == ':'
    ensures colonp != -1 ==> Parse6(src).None?
    ensures colonp == -1 ==> Reading(src, i + 1, tmp, tp, tp, i + 1, 0, 0)
  {
    hide Parse6, HexBytes, Finish, Parse4;
    assert src[i..][1..] == src[i + 1..] && src[i + 1..i + 1] == "" && src[curtok..i] == "";
  }

  lemma ReadColon(src: string, i: nat, tmp: seq<Byte>, tp: nat, colonp: int, curtok: nat, seen: nat, val: nat, tmp': seq<Byte>)
    requires Reading(src, i, tmp, tp, colonp, curtok, seen, val) && i < |src| && src[i] == ':' && seen > 0
    ensures i + 1 == |src| || tp + 2 > 16 ==> Parse6(src).None?
    ensures i + 1 < |src| && tp + 2 <= 16 && |tmp'| == 16 && tmp'[tp + 2..] == tmp[tp + 2..]
            && tmp'[..tp + 2] == tmp[..tp] + HexBytes(src[curtok..i]) ==>
              Reading(src, i + 1, tmp', tp + 2, colonp, i + 1, 0, 0)
  {
    hide Parse6, HexBytes, Finish, Parse4;
    assert src[i..][1..] == src[i + 1..] && src[i + 1..i + 1] == "";
    if tp + 2 <= 16 && |tmp'| == 16 && tmp'[tp + 2..] == tmp[tp + 2..] {
      assert forall k :: tp + 2 <= k < 16 ==> tmp'[k] == tmp'[tp + 2..][k - tp - 2] == tmp[k];
    }
  }

  lemma ReadDot(src: string, i: nat, tmp: seq<Byte>, tp: nat, colonp: int, curtok: nat, seen: nat, val: nat)
    requires Reading(src, i, tmp, tp, colonp, curtok, seen, val) && i < |src| && !IsHex(src[i]) && src[i] != ':'
    ensures !(src[i] == '.' && tp + 4 <= 16 && Parse4(src[curtok..]).Some?) ==> Parse6(src).None?
    ensures src[i] == '.' && tp + 4 <= 16 && Parse4(src[curtok..]).Some? ==>
              Parse6(src) == Finish(tmp[..tp] + Parse4(src[curtok..]).value, Gap(colonp))
  {
    hide Parse6, HexBytes, Finish, Parse4, HexValue;
    assert src[curtok..i] + src[i..] == src[curtok..];
  }

  lemma ReadEnd(src: string, tmp: seq<Byte>, tp: nat, colonp: int, curtok: nat, seen: nat, val: nat)
    requires Reading(src, |src|, tmp, tp, colonp, curtok, seen, val)
    ensures seen == 0 ==> Parse6(src) == Finish(tmp[..tp], Gap(colonp))
    ensures seen > 0 && tp + 2 > 16 ==> Parse6(src).None?
    ensures seen > 0 && tp + 2 <= 16 ==> Parse6(src) == Finish(tmp[..tp] + HexBytes(src[curtok..|src|]), Gap(colonp))
  {
    hide Parse6, HexBytes, Finish, Parse4, HexValue;
    assert src[|src|..] == "";
  }

  /** The loop of inet_pton6 and the last group: the bytes read and where "::" stood among them. */
  method ReadGroups(src: string, tmp: array<Byte>) returns (r: Status, tp: nat, colonp: int)
    requires tmp.Length == 16 && tmp[..] == Zeros(16)
    modifies tmp
    ensures r == Ok || (r == Invalid && Parse6(src).None?)
    ensures r.Ok? ==> tp <= 16 && -1 <= colonp <= tp && (forall k :: tp <= k < 16 ==> tmp[k] == 0)
    ensures r.Ok? ==> Parse6(src) == Finish(tmp[..tp], Gap(colonp))
  {
    hide Reading, Scan6, Finish, Parse4, HexBytes, HexValue, Gap;
    tp, colonp := 0, -1;
    var i, quad := 0, false;
    if |src| > 0 && src[0] == ':' {
      i := 1;
      if |src| == 1 || src[1] != ':' {
        return Invalid, tp, colonp;
      }
    }
    var curtok: nat, seen: nat, val: nat := i, 0, 0;
    StartReading(src, i);
    while i < |src|
      invariant Reading(src, i, tmp[..], tp, colonp, curtok, seen, val)
      invariant Bounds(src, i, tp, colonp, curtok)
      decreases |src| - i
    {
      var ch := src[i];
      if IsHex(ch) {
        ReadDigit(src, i, tmp[..], tp, colonp, curtok, seen, val);
        SeenBound(src, i, tmp[..], tp, colonp, curtok, seen, val);
        val := val * 16 + HexDigitValue(ch);
        seen := seen + 1;
        if seen > 4 {
          return Invalid, tp, colonp;
        }
        i := i + 1;
        continue;
      }
      if ch == ':' {
        if seen == 0 {
          NothingSeen(src, i, tmp[..], tp, colonp, curtok, val);
          ReadGap(src, i, tmp[..], tp, colonp, curtok);
          if colonp != -1 {
            return Invalid, tp, colonp;
          }
          colonp, curtok, i := tp, i + 1, i + 1;
          continue;
        }
        ghost var was := tmp[..];
        if i + 1 == |src| {
          ReadColon(src, i, was, tp, colonp, curtok, seen, val, was);
          return Invalid, tp, colonp;
        }
        if tp + 2 > 16 {
          ReadColon(src, i, was, tp, colonp, curtok, seen, val, was);
          return Invalid, tp, colonp;
        }
        TokenRead(src, i, was, tp, colonp, curtok, seen, val);
        var tp' := PutWord(tmp, tp, val, src[curtok..i]);
        ReadColon(src, i, was, tp, colonp, curtok, seen, val, tmp[..]);
        tp, curtok, seen, val, i := tp', i + 1, 0, 0, i + 1;
        continue;
      }
      ReadDot(src, i, tmp[..], tp, colonp, curtok, seen, val);
      if ch == '.' && tp + 4 <= 16 {
        ghost var was := tmp[..];
        var e := Pton4(src[curtok..], tmp, tp);
        if e == Ok {
          QuadPut(src, i, was, tp, colonp, curtok, seen, val, tmp[..]);
          tp, seen, quad := tp + 4, 0, true;
          break;
        }
      }
      return Invalid, tp, colonp;
    }
    if !quad {
      ReadEnd(src, tmp[..], tp, colonp, curtok, seen, val);
      TokenRead(src, i, tmp[..], tp, colonp, curtok, seen, val);
    }
    if seen != 0 {
      if tp + 2 > 16 {
        return Invalid, tp, colonp;
      }
      ghost var was := tmp[..];
      tp := PutWord(tmp, tp, val, src[curtok..i]);
      ZeroTail(was, tmp[..], tp);
    }
    r := Ok;
  }

  ghost predicate Bounds(src: string, i: nat, tp: nat, colonp: int, curtok: nat) {
    curtok <= i <= |src| && tp <= 16 && -1 <= colonp <= tp
  }

  lemma SeenBound(src: string, i: nat, tmp: seq<Byte>, tp: nat, colonp: int, curtok: nat, seen: nat, val: nat)
    requires Reading(src, i, tmp, tp, colonp, curtok, seen, val)
    ensures seen <= 4
  {
  }

  lemma NothingSeen(src: string, i: nat, tmp: seq<Byte>, tp: nat, colonp: int, curtok: nat, val: nat)
    requires Reading(src, i, tmp, tp, colonp, curtok, 0, val)
    ensures val == 0
  {
  }

  lemma TokenRead(src: string, i: nat, tmp: seq<Byte>, tp: nat, colonp: int, curtok: nat, seen: nat, val: nat)
    requires Reading(src, i, tmp, tp, colonp, curtok, seen, val)
    ensures curtok <= i <= |src| && AllHex(src[curtok..i]) && |src[curtok..i]| <= 4 && val == HexValue(src[curtok..i])
    ensures |tmp| == 16 && forall k :: tp <= k < 16 ==> tmp[k] == 0
  {
  }

  lemma QuadPut(src: string, i: nat, was: seq<Byte>, tp: nat, colonp: int, curtok: nat, seen: nat, val: nat, now: seq<Byte>)
    requires Reading(src, i, was, tp, colonp, curtok, seen, val) && tp + 4 <= 16 && Parse4(src[curtok..]).Some?
    requires now == was[..tp] + Parse4(src[curtok..]).value + was[tp + 4..]
    ensures now[..tp + 4] == was[..tp] + Parse4(src[curtok..]).value
    ensures forall k :: tp + 4 <= k < 16 ==> now[k] == 0
  {
    hide Scan6, Parse4, Parse6, HexValue;
  }

  lemma ZeroTail(was: seq<Byte>, now: seq<Byte>, tp: nat)
    requires |was| == |now| == 16 && tp <= 16 && now[tp..] == was[tp..] && forall k :: tp <= k < 16 ==> was[k] == 0
    ensures forall k :: tp <= k < 16 ==> now[k] == 0
  {
    assert forall k :: tp <= k < 16 ==> now[k] == now[tp..][k - tp] == was[tp..][k - tp];
  }

  /** inet_pton6: dst is written only on success, and then with the address the text denotes. */
  method Pton6(src: string, dst: array<Byte>) returns (r: Status)
    requires 16 <= dst.Length
    modifies dst
    ensures Parse6(src).Some? ==> r == Ok && dst[..] == Parse6(src).value + old(dst[16..])
    ensures Parse6(src).None? ==> r == Invalid && dst[..] == old(dst[..])
  {
    hide Parse6;
    var tmp := new Byte[16](_ => 0);
    assert tmp[..] == Zeros(16);
    var e, tp, colonp := ReadGroups(src, tmp);
    if e != Ok {
      return Invalid;
    }
    if colonp != -1 {
      if tp == 16 {
        return Invalid;
      }
      ghost var out := tmp[..tp];
      assert out[..colonp] == tmp[..colonp] && out[colonp..] == tmp[colonp..tp];
      ShiftTail(tmp, colonp, tp);
      tp := 16;
    }
    if tp != 16 {
      return Invalid;
    }
    assert tmp[..16] == tmp[..];
    CopyBytes(dst, 0, tmp);
    r := Ok;
  }

  // ---------- zones ----------

  datatype Family = Inet4 | Inet6 | Other

  /** strchr(s, '%'), or the end. */
  function Percent(s: string): (p: nat)
    ensures p <= |s| && '%' !in s[..p] && (p < |s| ==> s[p] == '%')
  {
    if s == "" || s[0] == '%' then 0
    else assert s[..1 + Percent(s[1..])] == [s[0]] + s[1..][..Percent(s[1..])]; 1 + Percent(s[1..])
  }

  /** What uv_inet_pton reads from src: an IPv6 address ends at '%', and there is room for 45 characters before it. */
  function Read(af: Family, src: string): (r: Option<seq<Byte>>)
    ensures r.Some? ==> |r.value| == if af.Inet4? then 4 else 16
  {
    match af
    case Inet4 => Parse4(src)
    case Inet6 => if Percent(src) < |src| && Percent(src) > 45 then None else Parse6(src[..Percent(src)])
    case Other => None
  }

  /** memcpy of the first len characters to a buffer of 46, and a terminator behind them. */
  method UpTo(src: string, len: nat) returns (s: string)
    requires len <= |src| && len < 46
    ensures s == src[..len]
  {
    var tmp := new char[46](_ => ' ');
    var i := 0;
    while i < len
      invariant 0 <= i <= len && tmp[..i] == src[..i]
    {
      tmp[i] := src[i];
      assert src[..i + 1] == src[..i] + [src[i]] && tmp[..i + 1] == tmp[..i] + [tmp[i]];
      i := i + 1;
    }
    tmp[len] := '\0';
    s := tmp[..len];
  }

  method UvInetPton(af: Family, src: Option<string>, dst: array?<Byte>) returns (r: Status)
    requires dst != null ==> dst.Length >= if af.Inet4? then 4 else 16
    modifies if dst == null then {} else {dst}
    ensures src.None? || dst == null ==> r == Invalid
    ensures src.Some? && dst != null && af.Other? ==> r == NoSupport
    ensures src.Some? && dst != null && !af.Other? ==>
              && r == (if Read(af, src.value).Some? then Ok else Invalid)
              && (r.Ok? ==> dst[..] == Read(af, src.value).value + old(dst[|Read(af, src.value).value|..]))
              && (!r.Ok? ==> dst[..] == old(dst[..]))
  {
    hide Parse4, Parse6;
    if src.None? || dst == null {
      return Invalid;
    }
    match af
    case Inet4 =>
      r := Pton4(src.value, dst, 0);
    case Inet6 =>
      var s := src.value;
      var p := 0;
      while p < |s| && s[p] != '%'
        invariant p <= |s| && Percent(s) == p + Percent(s[p..])
      {
        assert s[p..][1..] == s[p + 1..];
        p := p + 1;
      }
      assert p == Percent(s);
      if p < |s| {
        if p > 46 - 1 {
          return Invalid;
        }
        s := UpTo(s, p);
      }
      assert s == src.value[..p];
      r := Pton6(s, dst);
    case Other =>
      r := NoSupport;
  }

  lemma GroupNoPercent(g: Group)
    requires IsGroup(g)
    ensures '%' !in GroupText(g)
  {
    hide Dec;
    if g.Quad? {
      DecDigits(g.v[0]);
      DecDigits(g.v[1]);
      DecDigits(g.v[2]);
      DecDigits(g.v[3]);
    }
  }

  lemma {:induction false} NoPercent(gs: seq<Group>)
    requires AllGroups(gs)
    ensures '%' !in Join(gs)
    decreases gs
  {
    hide GroupText, IsGroup;
    if gs != [] {
      GroupNoPercent(gs[0]);
      NoPercent(gs[1..]);
    }
  }

  lemma NoPercentPrinted(a: seq<Byte>, base: int, len: int)
    requires |a| == 16 && BestRun(Words(a), base, len)
    ensures '%' !in Text6(a, base, len)
  {
    hide HexGroups, Words, RightGroups, Join, AllGroups;
    if base == -1 {
      HexGroupsOk(Words(a), 0, 8);
      NoPercent(HexGroups(Words(a), 0, 8));
    } else {
      HexGroupsOk(Words(a), 0, base);
      RightGroupsOk(a, base, len);
      NoPercent(HexGroups(Words(a), 0, base));
      NoPercent(RightGroups(a, base, len));
    }
  }

  lemma {:induction false} PercentAfter(s: string, zone: string)
    requires '%' !in s
    ensures Percent(s) == |s| && Percent(s + "%" + zone) == |s|
    decreases s
  {
    if s != "" {
      PercentAfter(s[1..], zone);
      assert (s + "%" + zone)[1..] == s[1..] + "%" + zone;
      assert (s + "%" + zone)[0] == s[0];
    }
  }

  /** The printed form, alone or with any zone behind it, is read as the address printed. */
  lemma ZoneRoundTrip(a: seq<Byte>, base: int, len: int, zone: string)
    requires |a| == 16 && BestRun(Words(a), base, len)
    ensures Read(Inet6, Text6(a, base, len)) == Some(a)
    ensures Read(Inet6, Text6(a, base, len) + "%" + zone) == Some(a)
  {
    hide Text6, Words, Parse6, Percent, BestRun;
    BestRunBounds(Words(a), base, len);
    var s := Text6(a, base, len);
    TextFits(a, base, len);
    NoPercentPrinted(a, base, len);
    PercentAfter(s, zone);
    RoundTrip6(a, base, len);
    assert (s + "%" + zone)[..|s|] == s && s[..|s|] == s;
  }
}
