/** What the digits and texts of inet.c look like, in closed form: positional notation in lower case without leading
    zeros, either case accepted, network byte order, and where the dotted form appears. */
module InetLaws {
  import opened Basics
  import opened InetText
  import opened Inet

  const DIGITS := "0123456789"
  const LOWER := "0123456789abcdef"
  const UPPER := "0123456789ABCDEF"

  // ---------- single digits ----------

  lemma DigitMeans(c: char)
    ensures IsDigit(c) <==> c in DIGITS
    ensures IsDigit(c) ==> DigitValue(c) < 10 && DIGITS[DigitValue(c)] == c
  {
    assert IsDigit(c) ==> DIGITS[(c - '0') as int] == c;
  }

  /** A digit is read as its place in one of the tables xdigits_l and xdigits_u. */
  lemma HexDigitMeans(c: char)
    ensures IsHex(c) <==> c in LOWER || c in UPPER
    ensures IsHex(c) ==> c == LOWER[HexDigitValue(c)] || c == UPPER[HexDigitValue(c)]
  {
    if '0' <= c <= '9' {
      assert LOWER[(c - '0') as int] == c;
    } else if 'a' <= c <= 'f' {
      assert LOWER[(c - 'a') as int + 10] == c;
    } else if 'A' <= c <= 'F' {
      assert UPPER[(c - 'A') as int + 10] == c;
    }
  }

  lemma HexDigitPrinted(n: nat)
    requires n < 16
    ensures HexDigit(n) == LOWER[n]
  {
  }

  // ---------- numbers ----------

  lemma DivUnique(a: nat, n: nat, q: nat, r: nat)
    requires n > 0 && a == q * n + r && r < n
    ensures a / n == q
  {
    var q' := a / n;
    assert (q' - q) * n == r - a % n && (q - q') * n == a % n - r;
    if q' > q {
      MulMono(1, q' - q, n, n);
    } else if q' < q {
      MulMono(1, q - q', n, n);
    }
  }

  lemma Regroup(b: nat, c: nat, q: nat, r: nat, s: nat)
    ensures b * (c * q + r) + s == q * (b * c) + (b * r + s)
  {
    assert b * (c * q + r) == b * (c * q) + b * r;
    assert b * (c * q) == q * (b * c);
  }

  lemma RestBelow(b: nat, c: nat, r: nat, s: nat)
    requires r < c && s < b
    ensures b * r + s < b * c
  {
    MulMono(b, b, r, c - 1);
    assert b * (c - 1) == b * c - b;
    assert b * r == r * b && b * (c - 1) == (c - 1) * b;
  }

  lemma DivParts(a: nat, b: nat, c: nat, t: nat, q: nat, r: nat, s: nat)
    requires s < b && r < c && t == c * q + r && a == b * t + s
    ensures b * c > 0 && a / (b * c) == q
  {
    MulMono(1, b, 1, c);
    Regroup(b, c, q, r, s);
    RestBelow(b, c, r, s);
    DivUnique(a, b * c, q, b * r + s);
  }

  lemma Divides(a: nat, b: nat) returns (q: nat, r: nat)
    requires b > 0
    ensures q == a / b && r == a % b && r < b && a == b * q + r
  {
    q, r := a / b, a % b;
  }

  /** Dividing twice. */
  lemma DivDiv(a: nat, b: nat, c: nat)
    requires b > 0 && c > 0
    ensures b * c > 0 && a / b / c == a / (b * c)
  {
    var t, s := Divides(a, b);
    var q, r := Divides(t, c);
    DivParts(a, b, c, t, q, r, s);
  }

  lemma {:induction false} PowPositive(b: nat, k: nat)
    requires b > 0
    ensures Pow(b, k) > 0
  {
    if k > 0 {
      PowPositive(b, k - 1);
      MulMono(1, b, 1, Pow(b, k - 1));
    }
  }

  /** printf's %x: place j from the right shows how often 16 to the j goes into n, in lower case. */
  lemma {:induction false} HexAt(n: nat, j: nat)
    requires j < |Hex(n)|
    ensures Pow(16, j) > 0 && Hex(n)[|Hex(n)| - 1 - j] == LOWER[n / Pow(16, j) % 16]
    decreases n
  {
    PowPositive(16, j);
    if j == 0 {
      HexDigitPrinted(n % 16);
    } else {
      HexAt(n / 16, j - 1);
      PowPositive(16, j - 1);
      DivDiv(n, 16, Pow(16, j - 1));
    }
  }

  /** It has no leading zero and no digit too few. */
  lemma {:induction false} HexShort(n: nat)
    ensures 1 <= |Hex(n)| && n < Pow(16, |Hex(n)|) && (|Hex(n)| > 1 ==> Pow(16, |Hex(n)| - 1) <= n)
    ensures Hex(n)[0] == '0' <==> n == 0
    decreases n
  {
    if n < 16 {
      HexDigitPrinted(n);
      assert Pow(16, 1) == 16 * Pow(16, 0);
    } else {
      HexShort(n / 16);
      var k := |Hex(n / 16)|;
      assert Pow(16, k + 1) == 16 * Pow(16, k);
      assert k > 1 ==> Pow(16, k) == 16 * Pow(16, k - 1);
      assert k == 1 ==> Pow(16, k) == 16 * Pow(16, 0);
    }
  }

  lemma SixteenFold(v: nat, p: nat)
    ensures v * (16 * p) == v * p * 16
  {
  }

  /** Reading: a digit in front counts 16 to the number of digits behind it. */
  lemma {:induction false} HexValueCons(c: char, s: string)
    requires IsHex(c) && AllHex(s)
    ensures AllHex([c] + s) && HexValue([c] + s) == HexDigitValue(c) * Pow(16, |s|) + HexValue(s)
    decreases |s|
  {
    hide HexDigitValue;
    var all := [c] + s;
    if s == "" {
      assert all[..0] == "" && all == [c];
    } else {
      var front := s[..|s| - 1];
      HexValueCons(c, front);
      assert all[..|all| - 1] == [c] + front;
      SixteenFold(HexDigitValue(c), Pow(16, |front|));
    }
  }

  /** A group's first byte is the more significant one. */
  lemma NetworkOrder(s: string)
    requires AllHex(s) && |s| <= 4
    ensures (HexBytes(s)[0] as int) * 256 + HexBytes(s)[1] == HexValue(s)
  {
  }

  /** printf's %u for a byte. */
  lemma DecAt(n: Byte, j: nat)
    ensures |Dec(n)| == if n < 10 then 1 else if n < 100 then 2 else 3
    ensures j < |Dec(n)| ==> Pow(10, j) > 0 && Dec(n)[|Dec(n)| - 1 - j] == DIGITS[n / Pow(10, j) % 10]
    ensures Dec(n)[0] == '0' <==> n == 0
  {
    hide Dec, Pow;
    PowTen();
    DecPlaces(n);
    assert j < 3 ==> j == 0 || j == 1 || j == 2;
    OnlyZero(n);
  }

  lemma OnlyZero(d: nat)
    ensures d < 10 ==> (DIGITS[d] == '0' <==> d == 0)
  {
  }

  lemma DecPlaces(n: Byte)
    ensures n < 10 ==> Dec(n) == [DIGITS[n]]
    ensures 10 <= n < 100 ==> Dec(n) == [DIGITS[n / 10], DIGITS[n % 10]] && Dec(n)[0] != '0'
    ensures 100 <= n ==> Dec(n) == [DIGITS[n / 100], DIGITS[n / 10 % 10], DIGITS[n % 10]] && Dec(n)[0] != '0'
  {
    hide Digit;
    DigitPrinted(n % 10);
    DigitPrinted(n / 10 % 10);
    if n < 100 {
      DigitPrinted(n / 10);
      OnlyZero(n / 10);
    }
    DigitPrinted(n / 100);
    OnlyZero(n / 100);
  }

  lemma PowTen()
    ensures Pow(10, 0) == 1 && Pow(10, 1) == 10 && Pow(10, 2) == 100
  {
    assert Pow(10, 1) == 10 * Pow(10, 0) && Pow(10, 2) == 10 * Pow(10, 1);
  }

  lemma DigitPrinted(n: nat)
    requires n < 10
    ensures Digit(n) == DIGITS[n]
  {
  }

  // ---------- the printed text in closed form ----------

  /** The words from lo to hi in hexadecimal, with colons between them. */
  function Colons(w: seq<Word>, lo: nat, hi: nat): string
    requires lo <= hi <= |w|
    decreases hi - lo
  {
    if lo == hi then ""
    else if lo + 1 == hi then Hex(w[lo])
    else Hex(w[lo]) + ":" + Colons(w, lo + 1, hi)
  }

  lemma Associate(a: string, b: string, c: string)
    ensures a + (b + c) == a + b + c
  {
  }

  lemma WordGroup(n: Word)
    ensures IsGroup(Hexa(Hex(n))) && GroupText(Hexa(Hex(n))) == Hex(n)
  {
    hide Hex;
    HexWord(n);
  }

  lemma ColonsMore(w: seq<Word>, lo: nat, hi: nat)
    requires lo + 1 < hi <= |w|
    ensures Colons(w, lo, hi) == Hex(w[lo]) + (":" + Colons(w, lo + 1, hi))
  {
    hide Hex;
    Associate(Hex(w[lo]), ":", Colons(w, lo + 1, hi));
  }

  lemma HexJoinNone(w: seq<Word>, lo: nat)
    requires lo <= |w|
    ensures AllGroups(HexGroups(w, lo, lo)) && Join(HexGroups(w, lo, lo)) == ""
  {
  }

  lemma {:induction false} HexJoin(w: seq<Word>, lo: nat, hi: nat)
    requires lo <= hi <= |w|
    ensures AllGroups(HexGroups(w, lo, hi)) && Join(HexGroups(w, lo, hi)) == Colons(w, lo, hi)
    decreases hi - lo
  {
    hide Hex, HexGroups, AllGroups, IsGroup, GroupText, GroupBytes, Bytes, Join;
    if lo == hi {
      HexJoinNone(w, lo);
    } else {
      HexGroupsCons(w, lo, hi);
      WordGroup(w[lo]);
      HexJoin(w, lo + 1, hi);
      JoinCons(Hexa(Hex(w[lo])), HexGroups(w, lo + 1, hi));
      if lo + 1 < hi {
        hide Colons;
        ColonsMore(w, lo, hi);
      }
    }
  }

  /** Addresses that are printed with a dotted tail: IPv4-mapped ones, and IPv4-compatible ones but for those whose
      run of zeros reaches further. */
  predicate Embeds(a: seq<Byte>)
    requires |a| == 16
  {
    && (forall k :: 0 <= k < 10 ==> a[k] == 0)
    && ((a[10] == 0xff && a[11] == 0xff) || (a[10] == 0 && a[11] == 0 && (a[12] != 0 || a[13] != 0)))
  }

  lemma WordZero(a: seq<Byte>, k: nat)
    requires |a| == 16 && k < 8
    ensures Words(a)[k] == 0 <==> a[2 * k] == 0 && a[2 * k + 1] == 0
    ensures Words(a)[k] == 0xffff <==> a[2 * k] == 0xff && a[2 * k + 1] == 0xff
  {
  }

  lemma EmbedsWords(a: seq<Byte>)
    requires |a| == 16
    ensures var w := Words(a);
      Embeds(a) <==> IsRun(w, 0, 5) && (w[5] == 0xffff || (w[5] == 0 && w[6] != 0))
  {
    hide Words;
    WordZero(a, 0);
    WordZero(a, 1);
    WordZero(a, 2);
    WordZero(a, 3);
    WordZero(a, 4);
    WordZero(a, 5);
    WordZero(a, 6);
  }

  lemma DottedWords(w: seq<Word>, base: int, len: int)
    requires |w| == 8 && BestRun(w, base, len)
    ensures (base != -1 && DottedTail(w, base, len)) <==>
              IsRun(w, 0, 5) && (w[5] == 0xffff || (w[5] == 0 && w[6] != 0))
  {
    if IsRun(w, 0, 5) {
      if w[5] == 0 && w[6] != 0 {
        assert IsRun(w, 0, 6);
      }
      if w[5] == 0 && w[6] == 0 {
        assert IsRun(w, 0, 7);
      }
    }
  }

  /** The text that inet_ntop6 makes of an address, given the run of words that it leaves out: words in hexadecimal,
      with a dotted tail exactly for embedded IPv4 addresses. */
  lemma TextShape(a: seq<Byte>, base: int, len: int)
    requires |a| == 16 && BestRun(Words(a), base, len)
    ensures var w := Words(a);
      Text6(a, base, len) ==
        if base == -1 then Colons(w, 0, 8)
        else if Embeds(a) then (if w[5] == 0xffff then "::" + (Hex(0xffff) + ":") else "::") + Text4(a[12..16])
        else Colons(w, 0, base) + "::" + Colons(w, base + len, 8)
  {
    hide Words, Colons, Hex, Text4, Embeds, BestRun, Text6;
    var w := Words(a);
    BestRunBounds(w, base, len);
    EmbedsWords(a);
    DottedWords(w, base, len);
    if base == -1 {
      PlainShape(a);
    } else if DottedTail(w, base, len) {
      LastZero(w, len);
      DottedShape(a, len);
    } else {
      RunShape(a, base, len);
    }
  }

  lemma PlainShape(a: seq<Byte>)
    requires |a| == 16
    ensures forall len :: Text6(a, -1, len) == Colons(Words(a), 0, 8)
  {
    hide Words, HexGroups, AllGroups, Hexas, Join, Colons;
    HexJoin(Words(a), 0, 8);
  }

  lemma RunShape(a: seq<Byte>, base: nat, len: nat)
    requires |a| == 16 && base + len <= 8 && !DottedTail(Words(a), base, len)
    ensures Text6(a, base, len) == Colons(Words(a), 0, base) + "::" + Colons(Words(a), base + len, 8)
  {
    hide Words, HexGroups, AllGroups, Hexas, Join, Colons;
    HexJoin(Words(a), 0, base);
    HexJoin(Words(a), base + len, 8);
  }

  lemma DottedShape(a: seq<Byte>, len: nat)
    requires |a| == 16 && len <= 8 && DottedTail(Words(a), 0, len)
    requires len == 5 <==> Words(a)[5] == 0xffff
    ensures Text6(a, 0, len) == (if len == 5 then "::" + (Hex(0xffff) + ":") else "::") + Text4(a[12..16])
  {
    hide Words, HexGroups, AllGroups, Hexas, Join, Hex, Text4, Colons;
    var w := Words(a);
    HexJoin(w, 0, 0);
    ColonsNone(w);
    HexJoin(w, len, 6);
    RightGroupsOk(a, 0, len);
    JoinAppend(HexGroups(w, len, 6), Quad(a[12..16]));
    TailText(w, len, Text4(a[12..16]));
  }

  lemma ColonsNone(w: seq<Word>)
    ensures Colons(w, 0, 0) == ""
  {
  }

  lemma LastZero(w: seq<Word>, len: nat)
    requires |w| == 8 && BestRun(w, 0, len) && DottedTail(w, 0, len)
    ensures len == 5 <==> w[5] == 0xffff
  {
  }

  lemma TailText(w: seq<Word>, len: nat, quad: string)
    requires |w| == 8 && DottedTail(w, 0, len)
    ensures |HexGroups(w, len, 6)| == 6 - len
    ensures var left := if len == 6 then quad else Colons(w, len, 6) + ":" + quad;
      "" + "::" + left == (if len == 5 then "::" + (Hex(0xffff) + ":") else "::") + quad
  {
    hide Hex;
    if len == 5 {
      assert "" + "::" + (Hex(0xffff) + ":" + quad) == "::" + (Hex(0xffff) + ":") + quad;
    } else {
      assert "" + "::" + quad == "::" + quad;
    }
  }

  /** "::" is absent exactly when no two neighbouring words are zero. */
  lemma NoRun(w: seq<Word>, base: int, len: int)
    requires BestRun(w, base, len)
    ensures base == -1 <==> forall k {:trigger w[k]} :: 0 <= k < |w| - 1 ==> w[k] != 0 || w[k + 1] != 0
  {
    if base == -1 {
      forall k {:trigger w[k]} | 0 <= k < |w| - 1
        ensures w[k] != 0 || w[k + 1] != 0
      {
        assert !IsRun(w, k, 2);
      }
    } else {
      assert w[base] == 0 && w[base + 1] == 0;
    }
  }

  /** It stands for zeros only, and no stretch of zeros is longer, or as long and further left. */
  lemma LongestRun(w: seq<Word>, base: int, len: int, b: nat, n: nat)
    requires BestRun(w, base, len) && base != -1
    requires b + n <= |w| && forall k :: b <= k < b + n ==> w[k] == 0
    ensures 0 <= base && 2 <= len && base + len <= |w| && forall k :: base <= k < base + len ==> w[k] == 0
    ensures n < len || (n == len && base <= b)
  {
    assert IsRun(w, b, n);
  }

  // ---------- what uv_inet_pton accepts ----------

  /** AF_INET: exactly the dotted form of four bytes. */
  lemma Read4Exact(s: string, v: seq<Byte>)
    requires |v| == 4
    ensures Read(Inet4, s) == Some(v) <==> s == Text4(v)
  {
    hide Parse4, Text4;
    Parse4Exact(s, v);
  }

  lemma {:induction false} JoinLength(gs: seq<Group>)
    requires AllGroups(gs) && Groups(gs) && gs != []
    ensures 2 * |Join(gs)| <= 5 * |Bytes(gs)| - 2 + if gs[|gs| - 1].Quad? then 12 else 0
    decreases |gs|
  {
    hide GroupText, GroupBytes, Dec;
    var rest := gs[1..];
    GroupLength(gs[0]);
    if rest == [] {
      JoinOne(gs[0]);
      assert gs == [gs[0]];
    } else {
      assert gs == [gs[0]] + rest;
      GroupsCons(gs[0], rest);
      JoinCons(gs[0], rest);
      JoinLength(rest);
    }
  }

  lemma GroupLength(g: Group)
    requires IsGroup(g)
    ensures if g.Quad? then |GroupText(g)| <= 15 && |GroupBytes(g)| == 4
            else |GroupText(g)| <= 4 && |GroupBytes(g)| == 2
  {
    hide Dec, HexBytes;
  }

  /** No text of an address is longer than 45 characters, so that the limit of uv_inet_pton turns none away. */
  lemma AddressesAreShort(s: string, a: seq<Byte>)
    requires Denotes(s, a)
    ensures |s| <= 45
  {
    hide Groups, AllGroups, Join, Bytes, Hexas;
    if gs :| Plain(s, a, gs) {
      NoneIsEmpty(gs);
      JoinLength(gs);
    } else {
      var l, r :| Compressed(s, a, l, r);
      HexasAreGroups(l);
      NoneIsEmpty(l);
      NoneIsEmpty(r);
      EvenBytes(l);
      EvenBytes(r);
      if l != [] {
        JoinLength(l);
      }
      if r != [] {
        JoinLength(r);
      }
    }
  }

  lemma NoneIsEmpty(gs: seq<Group>)
    requires AllGroups(gs)
    ensures gs == [] ==> Join(gs) == "" && Bytes(gs) == []
  {
  }

  lemma HexasAreGroups(l: seq<Group>)
    requires Hexas(l)
    ensures AllGroups(l) && Groups(l) && (l != [] ==> l[|l| - 1].Hexa?)
  {
  }

  lemma {:induction false} EvenBytes(gs: seq<Group>)
    requires AllGroups(gs)
    ensures |Bytes(gs)| % 2 == 0
    decreases |gs|
  {
    hide GroupBytes;
    if gs != [] {
      GroupLength(gs[0]);
      EvenBytes(gs[1..]);
    }
  }

  /** AF_INET6: exactly the texts of the grammar, alone or with a zone of any kind behind a percent sign. */
  lemma Read6Exact(s: string, zone: string, a: seq<Byte>)
    requires |a| == 16 && '%' !in s
    ensures Read(Inet6, s) == Some(a) <==> Denotes(s, a)
    ensures Read(Inet6, s + "%" + zone) == Some(a) <==> Denotes(s, a)
  {
    hide Parse6, Denotes, Percent;
    PercentAfter(s, zone);
    Parse6Exact(s, a);
    if Denotes(s, a) {
      AddressesAreShort(s, a);
    }
    assert (s + "%" + zone)[..|s|] == s && s[..|s|] == s;
  }

  // ---------- two addresses ----------

  const DOCUMENTATION: seq<Byte> := [0x20, 0x01, 0x0d, 0xb8, 0, 0, 0, 0, 0, 0, 0, 0, 0, 0, 0, 1]

  const MAPPED: seq<Byte> := [0, 0, 0, 0, 0, 0, 0, 0, 0, 0, 0xff, 0xff, 192, 0, 2, 33]

  lemma HexStep(n: nat)
    requires n >= 16
    ensures Hex(n) == Hex(n / 16) + [LOWER[n % 16]]
  {
    HexDigitPrinted(n % 16);
  }

  lemma HexOfDigit(n: nat)
    requires n < 16
    ensures Hex(n) == [LOWER[n]]
  {
    HexDigitPrinted(n);
  }

  /** A run with words other than zero at its ends, which leave less room beside it. */
  lemma RunBetween(w: seq<Word>, base: nat, len: nat)
    requires IsRun(w, base, len) && len >= 2
    requires base > 0 ==> w[base - 1] != 0
    requires base + len < |w| ==> w[base + len] != 0
    requires base <= len && |w| - (base + len) <= len
    ensures BestRun(w, base, len)
  {
    forall b, n | IsRun(w, b, n)
      ensures n <= len && (n == len ==> base <= b)
    {
      Avoids(w, b, n, base - 1);
      Avoids(w, b, n, base + len);
    }
  }

  lemma Avoids(w: seq<Word>, b: int, n: int, k: int)
    requires IsRun(w, b, n)
    ensures 0 <= k < |w| && w[k] != 0 ==> !(b <= k < b + n)
  {
  }

  lemma DocumentationWords()
    ensures Words(DOCUMENTATION) == [0x2001, 0xdb8, 0, 0, 0, 0, 0, 1] && BestRun(Words(DOCUMENTATION), 2, 5)
  {
    assert Words(DOCUMENTATION) == [0x2001, 0xdb8, 0, 0, 0, 0, 0, 1];
    RunBetween(Words(DOCUMENTATION), 2, 5);
  }

  lemma SomeHex()
    ensures Hex(0x2001) == "2001" && Hex(0xdb8) == "db8" && Hex(1) == "1" && Hex(0xffff) == "ffff"
  {
    hide Hex;
    HexStep(0x2001);
    HexStep(0x200);
    HexStep(0x20);
    HexOfDigit(2);
    HexStep(0xdb8);
    HexStep(0xdb);
    HexOfDigit(0xd);
    HexOfDigit(1);
    HexStep(0xffff);
    HexStep(0xfff);
    HexStep(0xff);
    HexOfDigit(0xf);
  }

  lemma PrintedDocumentation()
    ensures BestRun(Words(DOCUMENTATION), 2, 5) && Text6(DOCUMENTATION, 2, 5) == "2001:db8::1"
  {
    hide Hex, Words, BestRun, Text6;
    DocumentationWords();
    SomeHex();
    TextShape(DOCUMENTATION, 2, 5);
    assert !Embeds(DOCUMENTATION);
  }

  lemma SomeDec()
    ensures Text4([192, 0, 2, 33]) == "192.0.2.33"
  {
    hide Digit;
    DigitPrinted(0);
    DigitPrinted(1);
    DigitPrinted(2);
    DigitPrinted(3);
    DigitPrinted(9);
  }

  lemma MappedWords()
    ensures Words(MAPPED) == [0, 0, 0, 0, 0, 0xffff, 0xc000, 0x221] && BestRun(Words(MAPPED), 0, 5)
  {
    assert Words(MAPPED) == [0, 0, 0, 0, 0, 0xffff, 0xc000, 0x221];
    RunBetween(Words(MAPPED), 0, 5);
  }

  lemma PrintedMapped()
    ensures BestRun(Words(MAPPED), 0, 5) && Text6(MAPPED, 0, 5) == "::ffff:192.0.2.33"
  {
    hide Hex, Words, BestRun, Text6, Text4;
    MappedWords();
    SomeHex();
    SomeDec();
    TextShape(MAPPED, 0, 5);
    assert Embeds(MAPPED) && MAPPED[12..16] == [192, 0, 2, 33];
  }
}
