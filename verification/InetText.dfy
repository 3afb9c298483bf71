/** The text forms of IPv4 and IPv6 addresses: what inet.c prints, the grammar of section 2.2 of RFC 4291, and the
    parsers as functions on the rest of the text, with the proofs that parser and grammar agree. */
module InetText {
  import opened Basics

  type Word = x: int | 0 <= x < 65536

  // ---------- numbers ----------

  predicate IsDigit(c: char) {
    '0' <= c <= '9'
  }

  function DigitValue(c: char): nat
    requires IsDigit(c)
  {
    (c - '0') as int
  }

  predicate IsHex(c: char) {
    '0' <= c <= '9' || 'a' <= c <= 'f' || 'A' <= c <= 'F'
  }

  function HexDigitValue(c: char): (r: nat)
    requires IsHex(c)
    ensures r < 16
  {
    if c <= '9' then (c - '0') as int else if c <= 'F' then (c - 'A') as int + 10 else (c - 'a') as int + 10
  }

  function Digit(n: nat): (c: char)
    requires n < 10
    ensures IsDigit(c) && DigitValue(c) == n
  {
    '0' + n as char
  }

  function HexDigit(n: nat): (c: char)
    requires n < 16
    ensures IsHex(c) && HexDigitValue(c) == n
  {
    if n < 10 then '0' + n as char else 'a' + (n - 10) as char
  }

  /** printf's %u, for a byte. */
  function Dec(n: Byte): (r: string)
    ensures 1 <= |r| <= 3
  {
    if n < 10 then [Digit(n)]
    else if n < 100 then [Digit(n / 10), Digit(n % 10)]
    else [Digit(n / 100), Digit(n / 10 % 10), Digit(n % 10)]
  }

  /** printf's %x. */
  function Hex(n: nat): string {
    if n < 16 then [HexDigit(n)] else Hex(n / 16) + [HexDigit(n % 16)]
  }

  predicate AllHex(s: string) {
    forall k :: 0 <= k < |s| ==> IsHex(s[k])
  }

  function HexValue(s: string): (r: nat)
    requires AllHex(s)
  {
    if s == "" then 0 else HexValue(s[..|s| - 1]) * 16 + HexDigitValue(s[|s| - 1])
  }

  lemma {:induction false} HexValueBound(s: string)
    requires AllHex(s)
    ensures |s| <= 4 ==> HexValue(s) < 65536
    ensures |s| <= 3 ==> HexValue(s) < 4096
    ensures |s| <= 2 ==> HexValue(s) < 256
    ensures |s| <= 1 ==> HexValue(s) < 16
  {
    if s != "" {
      HexValueBound(s[..|s| - 1]);
    }
  }

  /** Reading undoes printing; and %x prints a 16-bit word with at most four digits. */
  lemma {:induction false} HexInverse(n: nat)
    ensures AllHex(Hex(n)) && HexValue(Hex(n)) == n && |Hex(n)| >= 1
    ensures n < 65536 ==> |Hex(n)| <= 4
    ensures n < 4096 ==> |Hex(n)| <= 3
    ensures n < 256 ==> |Hex(n)| <= 2
  {
    if n >= 16 {
      HexInverse(n / 16);
      assert Hex(n)[..|Hex(n)| - 1] == Hex(n / 16);
    }
  }

  /** The two bytes of a group of hexadecimal digits. */
  function HexBytes(s: string): (r: seq<Byte>)
    requires AllHex(s) && |s| <= 4
    ensures |r| == 2
  {
    HexValueBound(s);
    [HexValue(s) / 256, HexValue(s) % 256]
  }

  // ---------- IPv4 ----------

  /** What inet_ntop4 prints. */
  function Text4(v: seq<Byte>): string
    requires |v| == 4
  {
    Dec(v[0]) + "." + Dec(v[1]) + "." + Dec(v[2]) + "." + Dec(v[3])
  }

  /** The loop of inet_pton4 from a point in the text on: done are the octets before the current one, cur the current
      one, saw whether it has a digit. */
  function Scan4(s: string, done: seq<Byte>, cur: Byte, saw: bool): (r: Option<seq<Byte>>)
    requires |done| <= 3
    ensures r.Some? ==> |r.value| == 4
  {
    if s == "" then
      if |done| == 3 && saw then Some(done + [cur]) else None
    else if IsDigit(s[0]) then
      if (saw && cur == 0) || cur * 10 + DigitValue(s[0]) > 255 then None
      else Scan4(s[1..], done, cur * 10 + DigitValue(s[0]), true)
    else if s[0] == '.' && saw && |done| < 3 then Scan4(s[1..], done + [cur], 0, false)
    else None
  }

  function Parse4(s: string): (r: Option<seq<Byte>>)
    ensures r.Some? ==> |r.value| == 4
  {
    Scan4(s, [], 0, false)
  }

  /** The octets read so far, each with the dot that ended it. */
  function Dotted(done: seq<Byte>): string {
    if done == [] then "" else Dotted(done[..|done| - 1]) + Dec(done[|done| - 1]) + "."
  }

  lemma DecExtends(cur: Byte, c: char)
    requires IsDigit(c) && cur != 0 && cur * 10 + DigitValue(c) <= 255
    ensures Dec(cur * 10 + DigitValue(c)) == Dec(cur) + [c]
  {
  }

  lemma DottedThree(v: seq<Byte>)
    requires |v| == 4
    ensures Dotted(v[..3]) + Dec(v[3]) == Text4(v)
  {
    hide Dec;
    var d := v[..3];
    assert d[..2][..1][..0] == [] && d[..2][..1] == d[..1];
    assert Dotted(d) == Dotted(d[..2]) + Dec(v[2]) + ".";
    assert Dotted(d[..2]) == Dotted(d[..1]) + Dec(v[1]) + ".";
    assert Dotted(d[..1]) == "" + Dec(v[0]) + ".";
  }

  lemma DottedAppend(done: seq<Byte>, cur: Byte)
    ensures Dotted(done + [cur]) == Dotted(done) + Dec(cur) + "."
  {
    assert (done + [cur])[..|done|] == done;
  }

  /** What is accepted is the printed form of what is returned. */
  lemma {:induction false} Scan4Sound(s: string, done: seq<Byte>, cur: Byte, saw: bool)
    requires |done| <= 3 && Scan4(s, done, cur, saw).Some? && (!saw ==> cur == 0)
    ensures Text4(Scan4(s, done, cur, saw).value) == Dotted(done) + (if saw then Dec(cur) else "") + s
    decreases s
  {
    hide Dec, Text4, Dotted, DigitValue;
    if s == "" {
      DottedThree(done + [cur]);
      assert (done + [cur])[..3] == done;
    } else if IsDigit(s[0]) {
      Scan4Sound(s[1..], done, cur * 10 + DigitValue(s[0]), true);
      MoreDigits(s, Dotted(done), cur, saw);
    } else {
      Scan4Sound(s[1..], done + [cur], 0, false);
      DottedAppend(done, cur);
      MoreDots(s, Dotted(done) + Dec(cur));
    }
  }

  lemma MoreDigits(s: string, before: string, cur: Byte, saw: bool)
    requires s != "" && IsDigit(s[0]) && cur * 10 + DigitValue(s[0]) <= 255 && if saw then cur != 0 else cur == 0
    ensures before + Dec(cur * 10 + DigitValue(s[0])) + s[1..] == before + (if saw then Dec(cur) else "") + s
  {
    if saw {
      DecExtends(cur, s[0]);
    }
  }

  lemma MoreDots(s: string, before: string)
    requires s != "" && s[0] == '.'
    ensures before + "." + "" + s[1..] == before + s
  {
  }

  lemma Scan4Digit(n: nat, rest: string, done: seq<Byte>, cur: Byte, saw: bool)
    requires |done| <= 3 && n < 10 && cur * 10 + n <= 255 && (saw ==> cur != 0)
    ensures Scan4([Digit(n)] + rest, done, cur, saw) == Scan4(rest, done, cur * 10 + n, true)
  {
    assert ([Digit(n)] + rest)[1..] == rest;
  }

  lemma ScanTwoDigits(b: Byte, rest: string, done: seq<Byte>)
    requires |done| <= 3 && 10 <= b < 100
    ensures Scan4(Dec(b) + rest, done, 0, false) == Scan4(rest, done, b, true)
  {
    hide Scan4, Digit;
    assert Dec(b) + rest == [Digit(b / 10)] + ([Digit(b % 10)] + rest);
    Scan4Digit(b / 10, [Digit(b % 10)] + rest, done, 0, false);
    Scan4Digit(b % 10, rest, done, b / 10, true);
  }

  lemma ThreeDigits(b: Byte, rest: string)
    requires 100 <= b
    ensures Dec(b) + rest == [Digit(b / 100)] + ([Digit(b / 10 % 10)] + ([Digit(b % 10)] + rest))
  {
  }

  lemma ScanThreeDigits(b: Byte, rest: string, done: seq<Byte>)
    requires |done| <= 3 && 100 <= b
    ensures Scan4(Dec(b) + rest, done, 0, false) == Scan4(rest, done, b, true)
  {
    hide Scan4, Digit, Dec;
    ThreeDigits(b, rest);
    var r1 := [Digit(b % 10)] + rest;
    Scan4Digit(b / 100, [Digit(b / 10 % 10)] + r1, done, 0, false);
    Scan4Digit(b / 10 % 10, r1, done, b / 100, true);
    Scan4Digit(b % 10, rest, done, b / 10, true);
  }

  /** Reading the digits of a byte. */
  lemma ScanDec(b: Byte, rest: string, done: seq<Byte>)
    requires |done| <= 3
    ensures Scan4(Dec(b) + rest, done, 0, false) == Scan4(rest, done, b, true)
  {
    hide Scan4, Digit;
    if b < 10 {
      Scan4Digit(b, rest, done, 0, false);
    } else if b < 100 {
      ScanTwoDigits(b, rest, done);
    } else {
      ScanThreeDigits(b, rest, done);
    }
  }

  lemma Scan4Dot(rest: string, done: seq<Byte>, cur: Byte)
    requires |done| < 3
    ensures Scan4("." + rest, done, cur, true) == Scan4(rest, done + [cur], 0, false)
  {
    assert ("." + rest)[1..] == rest;
  }

  lemma ScanOctet(b: Byte, rest: string, done: seq<Byte>)
    requires |done| < 3
    ensures Scan4(Dec(b) + ("." + rest), done, 0, false) == Scan4(rest, done + [b], 0, false)
  {
    hide Scan4, Dec;
    ScanDec(b, "." + rest, done);
    Scan4Dot(rest, done, b);
  }

  lemma Scan4End(v: seq<Byte>)
    requires |v| == 4
    ensures Scan4(Dec(v[3]), v[..3], 0, false) == Some(v)
  {
    hide Dec;
    assert Dec(v[3]) + "" == Dec(v[3]);
    ScanDec(v[3], "", v[..3]);
    assert v[..3] + [v[3]] == v;
  }

  /** inet_pton4 reads back what inet_ntop4 prints. */
  lemma Parse4Complete(v: seq<Byte>)
    requires |v| == 4
    ensures Parse4(Text4(v)) == Some(v)
  {
    hide Dec, Scan4;
    var t3 := Dec(v[3]);
    var t2 := Dec(v[2]) + ("." + t3);
    var t1 := Dec(v[1]) + ("." + t2);
    assert Text4(v) == Dec(v[0]) + ("." + t1);
    ScanOctet(v[0], t1, []);
    assert [] + [v[0]] == v[..1];
    ScanOctet(v[1], t2, v[..1]);
    assert v[..1] + [v[1]] == v[..2];
    ScanOctet(v[2], t3, v[..2]);
    assert v[..2] + [v[2]] == v[..3];
    Scan4End(v);
  }

  /** Exactly the printed forms are accepted, each as the bytes it is printed for: printing and parsing are inverse to
      each other. */
  lemma Parse4Exact(s: string, v: seq<Byte>)
    requires |v| == 4
    ensures Parse4(s) == Some(v) <==> s == Text4(v)
  {
    hide Scan4, Text4;
    Parse4Complete(v);
    if Parse4(s) == Some(v) {
      Scan4Sound(s, [], 0, false);
      assert Dotted([]) + "" + s == s;
    }
  }

  // ---------- IPv6: grammar ----------

  /** A piece of the text between colons: one to four hexadecimal digits, or an IPv4 address in dotted form. */
  datatype Group = Hexa(digits: string) | Quad(v: seq<Byte>)

  ghost predicate IsHexa(g: Group) {
    g.Hexa? && 1 <= |g.digits| <= 4 && AllHex(g.digits)
  }

  ghost predicate IsQuad(g: Group) {
    g.Quad? && |g.v| == 4
  }

  ghost predicate Hexas(gs: seq<Group>) {
    forall k :: 0 <= k < |gs| ==> IsHexa(gs[k])
  }

  /** Only the last group may be in dotted form. */
  ghost predicate Groups(gs: seq<Group>) {
    gs == [] || (Hexas(gs[..|gs| - 1]) && (IsHexa(gs[|gs| - 1]) || IsQuad(gs[|gs| - 1])))
  }

  ghost predicate IsGroup(g: Group) {
    IsHexa(g) || IsQuad(g)
  }

  ghost predicate AllGroups(gs: seq<Group>) {
    forall k :: 0 <= k < |gs| ==> IsGroup(gs[k])
  }

  ghost function GroupText(g: Group): string
    requires IsGroup(g)
  {
    match g
    case Hexa(d) => d
    case Quad(v) => Text4(v)
  }

  ghost function GroupBytes(g: Group): (r: seq<Byte>)
    requires IsGroup(g)
    ensures |r| == if g.Hexa? then 2 else 4
  {
    match g
    case Hexa(d) => HexBytes(d)
    case Quad(v) => v
  }

  ghost function Join(gs: seq<Group>): string
    requires AllGroups(gs)
  {
    if gs == [] then ""
    else if |gs| == 1 then GroupText(gs[0])
    else GroupText(gs[0]) + ":" + Join(gs[1..])
  }

  ghost function Bytes(gs: seq<Group>): seq<Byte>
    requires AllGroups(gs)
  {
    if gs == [] then [] else GroupBytes(gs[0]) + Bytes(gs[1..])
  }

  function Zeros(n: nat): (r: seq<Byte>)
    ensures |r| == n && forall k :: 0 <= k < n ==> r[k] == 0
  {
    seq(n, _ => 0)
  }

  /** s is all eight groups of a, in order. */
  ghost predicate Plain(s: string, a: seq<Byte>, gs: seq<Group>) {
    Groups(gs) && AllGroups(gs) && s == Join(gs) && a == Bytes(gs) && |a| == 16
  }

  /** s leaves out a stretch of zero groups between l and r, and has "::" in its place. */
  ghost predicate Compressed(s: string, a: seq<Byte>, l: seq<Group>, r: seq<Group>) {
    && Hexas(l) && Groups(r) && AllGroups(l) && AllGroups(r)
    && s == Join(l) + "::" + Join(r)
    && |Bytes(l)| + |Bytes(r)| < 16
    && a == Bytes(l) + Zeros(16 - |Bytes(l)| - |Bytes(r)|) + Bytes(r)
  }

  /** Section 2.2 of RFC 4291: s is a text representation of the address a. */
  ghost predicate Denotes(s: string, a: seq<Byte>) {
    (exists gs :: Plain(s, a, gs)) || (exists l, r :: Compressed(s, a, l, r))
  }

  // ---------- IPv6: parser ----------

  /** The end of inet_pton6: out are the bytes read, colon says how many of them came before "::". */
  function Finish(out: seq<Byte>, colon: Option<nat>): (r: Option<seq<Byte>>)
    requires |out| <= 16 && (colon.Some? ==> colon.value <= |out|)
    ensures r.Some? ==> |r.value| == 16
  {
    match colon
    case None => if |out| == 16 then Some(out) else None
    case Some(c) => if |out| == 16 then None else Some(out[..c] + Zeros(16 - |out|) + out[c..])
  }

  /** The loop of inet_pton6 from a point in the text on; tok is the text since curtok, all of it digits. */
  function Scan6(s: string, out: seq<Byte>, colon: Option<nat>, tok: string): (r: Option<seq<Byte>>)
    requires |out| <= 16 && (colon.Some? ==> colon.value <= |out|) && AllHex(tok) && |tok| <= 4
    ensures r.Some? ==> |r.value| == 16
  {
    if s == "" then
      if tok == "" then Finish(out, colon)
      else if |out| + 2 > 16 then None
      else Finish(out + HexBytes(tok), colon)
    else if IsHex(s[0]) then
      if |tok| + 1 > 4 then None else Scan6(s[1..], out, colon, tok + [s[0]])
    else if s[0] == ':' then
      if tok == "" then
        if colon.Some? then None else Scan6(s[1..], out, Some(|out|), "")
      else if s[1..] == "" || |out| + 2 > 16 then None
      else Scan6(s[1..], out + HexBytes(tok), colon, "")
    else if s[0] == '.' && |out| + 4 <= 16 then
      match Parse4(tok + s)
      case None => None
      case Some(v) => Finish(out + v, colon)
    else None
  }

  function Parse6(s: string): (r: Option<seq<Byte>>)
    ensures r.Some? ==> |r.value| == 16
  {
    if s != "" && s[0] == ':' then
      if |s| >= 2 && s[1] == ':' then Scan6(s[1..], [], None, "") else None
    else Scan6(s, [], None, "")
  }

  // ---------- IPv6: the parser accepts the grammar ----------

  lemma JoinOne(g: Group)
    requires IsGroup(g)
    ensures Join([g]) == GroupText(g) && Bytes([g]) == GroupBytes(g)
  {
    assert Bytes([g][1..]) == [];
  }

  lemma JoinCons(g: Group, gs: seq<Group>)
    requires IsGroup(g) && AllGroups(gs)
    ensures AllGroups([g] + gs) && Bytes([g] + gs) == GroupBytes(g) + Bytes(gs)
    ensures gs != [] ==> Join([g] + gs) == GroupText(g) + (":" + Join(gs))
    ensures gs == [] ==> Join([g] + gs) == GroupText(g)
  {
    hide GroupText, GroupBytes, IsGroup;
    assert ([g] + gs)[1..] == gs;
  }

  lemma HexasCons(g: Group, gs: seq<Group>)
    ensures Hexas([g] + gs) <==> IsHexa(g) && Hexas(gs)
  {
    hide IsHexa;
    var all := [g] + gs;
    if Hexas(all) {
      assert IsHexa(all[0]);
      forall k | 0 <= k < |gs|
        ensures IsHexa(gs[k])
      {
        assert IsHexa(all[k + 1]);
      }
    }
  }

  lemma GroupsCons(g: Group, gs: seq<Group>)
    requires IsGroup(g)
    ensures Groups([g] + gs) <==> (gs == [] || (IsHexa(g) && Groups(gs)))
  {
    hide IsHexa, IsQuad;
    var all := [g] + gs;
    if gs != [] {
      assert all[..|all| - 1] == [g] + gs[..|gs| - 1] && all[|all| - 1] == gs[|gs| - 1];
      HexasCons(g, gs[..|gs| - 1]);
    }
  }

  lemma {:induction false} ScanDigits(d: string, rest: string, out: seq<Byte>, colon: Option<nat>, tok: string)
    requires |out| <= 16 && (colon.Some? ==> colon.value <= |out|)
    requires AllHex(tok) && AllHex(d) && |tok| + |d| <= 4
    ensures Scan6(d + rest, out, colon, tok) == Scan6(rest, out, colon, tok + d)
    decreases d
  {
    hide HexBytes, Parse4, Finish;
    if d == "" {
      assert d + rest == rest && tok + d == tok;
    } else {
      assert (d + rest)[1..] == d[1..] + rest && tok + [d[0]] + d[1..] == tok + d;
      ScanDigits(d[1..], rest, out, colon, tok + [d[0]]);
    }
  }

  lemma ScanColon(rest: string, out: seq<Byte>, colon: Option<nat>, tok: string)
    requires |out| <= 14 && (colon.Some? ==> colon.value <= |out|)
    requires IsHexa(Hexa(tok)) && rest != ""
    ensures Scan6(":" + rest, out, colon, tok) == Scan6(rest, out + GroupBytes(Hexa(tok)), colon, "")
  {
    hide HexBytes, Parse4, Finish;
    assert (":" + rest)[1..] == rest;
  }

  lemma ScanGap(rest: string, out: seq<Byte>)
    requires |out| <= 16
    ensures Scan6(":" + rest, out, None, "") == Scan6(rest, out, Some(|out|), "")
  {
    hide HexBytes, Parse4, Finish;
    assert (":" + rest)[1..] == rest;
  }

  lemma ScanDot(rest: string, out: seq<Byte>, colon: Option<nat>, tok: string, v: seq<Byte>)
    requires |out| <= 12 && (colon.Some? ==> colon.value <= |out|) && AllHex(tok) && |tok| <= 4
    requires |v| == 4 && Parse4(tok + ("." + rest)) == Some(v)
    ensures Scan6("." + rest, out, colon, tok) == Finish(out + v, colon)
  {
    hide HexBytes, Parse4, Finish, AllHex;
    assert !IsHex('.') && ("." + rest)[0] == '.';
  }

  /** A group followed by a colon and more. */
  lemma ScanGroup(d: string, rest: string, out: seq<Byte>, colon: Option<nat>)
    requires |out| <= 14 && (colon.Some? ==> colon.value <= |out|)
    requires IsHexa(Hexa(d)) && rest != ""
    ensures Scan6(d + (":" + rest), out, colon, "") == Scan6(rest, out + GroupBytes(Hexa(d)), colon, "")
  {
    hide Scan6, GroupBytes;
    ScanDigits(d, ":" + rest, out, colon, "");
    assert "" + d == d;
    ScanColon(rest, out, colon, d);
  }

  lemma DecDigits(b: Byte)
    ensures AllHex(Dec(b)) && IsDigit(Dec(b)[0])
  {
  }

  lemma ScanQuad(v: seq<Byte>, out: seq<Byte>, colon: Option<nat>)
    requires |v| == 4 && |out| <= 12 && (colon.Some? ==> colon.value <= |out|)
    ensures Scan6(Text4(v), out, colon, "") == Finish(out + v, colon)
  {
    hide Scan6, Dec, Parse4, Finish;
    var rest := Dec(v[1]) + "." + Dec(v[2]) + "." + Dec(v[3]);
    assert Text4(v) == Dec(v[0]) + ("." + rest);
    DecDigits(v[0]);
    ScanDigits(Dec(v[0]), "." + rest, out, colon, "");
    assert "" + Dec(v[0]) == Dec(v[0]);
    Parse4Complete(v);
    ScanDot(rest, out, colon, Dec(v[0]), v);
  }

  lemma ScanLastHex(d: string, out: seq<Byte>, colon: Option<nat>)
    requires IsHexa(Hexa(d)) && |out| <= 14 && (colon.Some? ==> colon.value <= |out|)
    ensures Scan6(d, out, colon, "") == Finish(out + GroupBytes(Hexa(d)), colon)
  {
    hide HexBytes, Parse4, Finish;
    ScanDigits(d, "", out, colon, "");
    assert d + "" == d && "" + d == d;
  }

  lemma GroupTextStart(g: Group)
    requires IsGroup(g)
    ensures GroupText(g) != "" && IsHex(GroupText(g)[0])
  {
    if g.Quad? {
      DecDigits(g.v[0]);
    }
  }

  lemma JoinStart(gs: seq<Group>)
    requires AllGroups(gs) && gs != []
    ensures Join(gs) != "" && IsHex(Join(gs)[0])
  {
    hide GroupText, IsHex;
    GroupTextStart(gs[0]);
  }

  /** The groups up to the end of the text. */
  lemma {:induction false} ScanJoin(gs: seq<Group>, out: seq<Byte>, colon: Option<nat>)
    requires AllGroups(gs) && Groups(gs) && (colon.Some? ==> colon.value <= |out|)
    requires |out| + |Bytes(gs)| <= 16
    ensures Scan6(Join(gs), out, colon, "") == Finish(out + Bytes(gs), colon)
    decreases gs
  {
    hide Scan6, Finish, Join, Bytes, GroupBytes, Groups;
    if gs == [] {
      ScanNothing(out, colon);
    } else {
      var rest := gs[1..];
      assert gs == [gs[0]] + rest;
      GroupsCons(gs[0], rest);
      JoinCons(gs[0], rest);
      if rest == [] {
        JoinOne(gs[0]);
        assert gs == [gs[0]];
        match gs[0]
        case Hexa(d) => ScanLastHex(d, out, colon);
        case Quad(v) =>
          QuadBytes(v);
          ScanQuad(v, out, colon);
          assert out + Bytes(gs) == out + v;
      } else {
        JoinStart(rest);
        ScanGroup(gs[0].digits, Join(rest), out, colon);
        ScanJoin(rest, out + GroupBytes(gs[0]), colon);
        assert out + GroupBytes(gs[0]) + Bytes(rest) == out + Bytes(gs);
      }
    }
  }

  lemma QuadBytes(v: seq<Byte>)
    requires |v| == 4
    ensures GroupBytes(Quad(v)) == v && GroupText(Quad(v)) == Text4(v)
  {
  }

  lemma ScanNothing(out: seq<Byte>, colon: Option<nat>)
    requires |out| <= 16 && (colon.Some? ==> colon.value <= |out|)
    ensures Join([]) == "" && Bytes([]) == [] && Scan6("", out, colon, "") == Finish(out + Bytes([]), colon)
  {
    assert out + [] == out;
  }

  /** The groups before "::". */
  lemma {:induction false} ScanLeft(l: seq<Group>, rest: string, out: seq<Byte>)
    requires AllGroups(l) && Hexas(l) && l != [] && |out| + |Bytes(l)| <= 16
    ensures Scan6(Join(l) + "::" + rest, out, None, "") == Scan6(rest, out + Bytes(l), Some(|out + Bytes(l)|), "")
    decreases l
  {
    hide Scan6, Join, Bytes, GroupBytes;
    var d := l[0].digits;
    var others := l[1..];
    assert l == [l[0]] + others && IsHexa(l[0]);
    JoinCons(l[0], others);
    var next := out + GroupBytes(l[0]);
    if others == [] {
      assert Join(l) + "::" + rest == d + (":" + (":" + rest));
      ScanGroup(d, ":" + rest, out, None);
      ScanNothing(out, None);
      assert next + [] == next == out + Bytes(l);
      ScanGap(rest, next);
    } else {
      var more := Join(others) + "::" + rest;
      assert Join(l) + "::" + rest == d + (":" + more);
      ScanGroup(d, more, out, None);
      ScanLeft(others, rest, next);
      assert next + Bytes(others) == out + Bytes(l);
    }
  }

  lemma AcceptsPlain(s: string, a: seq<Byte>, gs: seq<Group>)
    requires Plain(s, a, gs)
    ensures Parse6(s) == Some(a)
  {
    JoinStart(gs);
    ScanJoin(gs, [], None);
    assert [] + Bytes(gs) == a;
  }

  lemma ParseLeft(l: seq<Group>, rest: string)
    requires AllGroups(l) && Hexas(l) && |Bytes(l)| <= 16
    ensures Parse6(Join(l) + "::" + rest) == Scan6(rest, Bytes(l), Some(|Bytes(l)|), "")
  {
    hide Scan6, Join, Bytes, Hexas, AllGroups;
    ScanNothing([], None);
    var s := Join(l) + "::" + rest;
    if l == [] {
      assert s[0] == ':' && s[1] == ':' && s[1..] == ":" + rest;
      ScanGap(rest, []);
    } else {
      JoinStart(l);
      assert s[0] == Join(l)[0];
      ScanLeft(l, rest, []);
      assert [] + Bytes(l) == Bytes(l);
    }
  }

  lemma AcceptsCompressed(s: string, a: seq<Byte>, l: seq<Group>, r: seq<Group>)
    requires Compressed(s, a, l, r)
    ensures Parse6(s) == Some(a)
  {
    hide Parse6, Scan6, Finish, Join, Bytes, Hexas, Groups, AllGroups, Zeros;
    ParseLeft(l, Join(r));
    ScanJoin(r, Bytes(l), Some(|Bytes(l)|));
    FinishGap(Bytes(l), Bytes(r));
  }

  lemma FinishGap(left: seq<Byte>, right: seq<Byte>)
    requires |left| + |right| <= 16
    ensures Finish(left + right, Some(|left|))
         == if |left| + |right| == 16 then None else Some(left + Zeros(16 - |left| - |right|) + right)
  {
    assert (left + right)[..|left|] == left && (left + right)[|left|..] == right;
  }

  // ---------- IPv6: the parser accepts nothing else ----------

  /** tok followed by s is a list of groups that completes out. */
  ghost predicate Rest(s: string, out: seq<Byte>, colon: Option<nat>, tok: string, a: seq<Byte>, gs: seq<Group>)
    requires |out| <= 16 && (colon.Some? ==> colon.value <= |out|)
  {
    && Groups(gs) && AllGroups(gs) && tok + s == Join(gs)
    && |out| + |Bytes(gs)| <= 16 && Finish(out + Bytes(gs), colon) == Some(a)
  }

  lemma RestCons(s: string, out: seq<Byte>, colon: Option<nat>, tok: string, a: seq<Byte>, gs: seq<Group>)
    requires IsHexa(Hexa(tok)) && s != "" && s[0] == ':' && s[1..] != "" && |out| <= 14
    requires colon.Some? ==> colon.value <= |out|
    requires Rest(s[1..], out + GroupBytes(Hexa(tok)), colon, "", a, gs)
    ensures Rest(s, out, colon, tok, a, [Hexa(tok)] + gs)
  {
    hide Finish, Join, Bytes, GroupBytes, Groups, Hexas;
    var g := Hexa(tok);
    ScanNothing(out, colon);
    assert gs != [] && "" + s[1..] == s[1..];
    JoinCons(g, gs);
    GroupsCons(g, gs);
    assert tok + (":" + s[1..]) == tok + s;
    assert out + GroupBytes(g) + Bytes(gs) == out + Bytes([g] + gs);
  }

  /** After "::" (or without one to come) the rest of an accepted text is a list of groups. */
  lemma {:induction false} Scan6Tail(s: string, out: seq<Byte>, colon: Option<nat>, tok: string) returns (gs: seq<Group>)
    requires |out| <= 16 && colon.Some? && colon.value <= |out| && AllHex(tok) && |tok| <= 4
    requires Scan6(s, out, colon, tok).Some?
    ensures Rest(s, out, colon, tok, Scan6(s, out, colon, tok).value, gs)
    decreases s
  {
    if s == "" || (s[0] == '.' && !IsHex(s[0])) {
      gs := ScanStops(s, out, colon, tok);
    } else if IsHex(s[0]) {
      gs := Scan6Tail(s[1..], out, colon, tok + [s[0]]);
      assert tok + [s[0]] + s[1..] == tok + s;
    } else {
      var rest := Scan6Tail(s[1..], out + GroupBytes(Hexa(tok)), colon, "");
      RestCons(s, out, colon, tok, Scan6(s, out, colon, tok).value, rest);
      gs := [Hexa(tok)] + rest;
    }
  }

  /** The last group. */
  lemma ScanStops(s: string, out: seq<Byte>, colon: Option<nat>, tok: string) returns (gs: seq<Group>)
    requires |out| <= 16 && (colon.Some? ==> colon.value <= |out|) && AllHex(tok) && |tok| <= 4
    requires Scan6(s, out, colon, tok).Some? && (s == "" || s[0] == '.')
    ensures Rest(s, out, colon, tok, Scan6(s, out, colon, tok).value, gs)
  {
    if s == "" {
      if tok == "" {
        gs := [];
        assert out + Bytes(gs) == out;
      } else {
        gs := [Hexa(tok)];
        assert Bytes(gs) == GroupBytes(gs[0]) && tok + s == tok;
      }
    } else {
      var v := Parse4(tok + s).value;
      gs := [Quad(v)];
      Parse4Exact(tok + s, v);
      assert Bytes(gs) == v;
    }
  }

  /** Before any "::" an accepted text goes on with groups to the end, or with groups l (none when the text stands right
      behind a colon), "::" and groups r. */
  lemma {:induction false} Scan6Head(s: string, out: seq<Byte>, tok: string)
      returns (plain: bool, l: seq<Group>, r: seq<Group>)
    requires |out| <= 16 && AllHex(tok) && |tok| <= 4 && Scan6(s, out, None, tok).Some?
    ensures plain ==> Rest(s, out, None, tok, Scan6(s, out, None, tok).value, r)
    ensures !plain ==> Gap(s, out, tok, Scan6(s, out, None, tok).value, l, r)
    decreases s
  {
    hide Rest, Gap, HexBytes, Parse4, Finish;
    l, r := [], [];
    if s == "" || s[0] == '.' {
      plain := true;
      r := ScanStops(s, out, None, tok);
    } else if IsHex(s[0]) {
      plain, l, r := Scan6Head(s[1..], out, tok + [s[0]]);
      MoveDigit(s, out, tok, Scan6(s, out, None, tok).value, plain, l, r);
    } else if tok == "" {
      plain := false;
      r := Scan6Tail(s[1..], out, Some(|out|), "");
      GapHere(s, out, Scan6(s, out, None, tok).value, r);
    } else {
      plain, l, r := Scan6Head(s[1..], out + GroupBytes(Hexa(tok)), "");
      if plain {
        RestCons(s, out, None, tok, Scan6(s, out, None, tok).value, r);
        r := [Hexa(tok)] + r;
      } else {
        GapCons(s, out, tok, Scan6(s, out, None, tok).value, l, r);
        l := [Hexa(tok)] + l;
      }
    }
  }

  lemma MoveDigit(s: string, out: seq<Byte>, tok: string, a: seq<Byte>, plain: bool, l: seq<Group>, r: seq<Group>)
    requires |out| <= 16 && s != ""
    requires if plain then Rest(s[1..], out, None, tok + [s[0]], a, r) else Gap(s[1..], out, tok + [s[0]], a, l, r)
    ensures if plain then Rest(s, out, None, tok, a, r) else Gap(s, out, tok, a, l, r)
  {
    hide Finish, Join, Bytes, Groups, Hexas, AllGroups, LeftText;
    assert tok + [s[0]] + s[1..] == tok + s;
  }

  lemma GapHere(s: string, out: seq<Byte>, a: seq<Byte>, r: seq<Group>)
    requires |out| <= 16 && s != "" && s[0] == ':' && Rest(s[1..], out, Some(|out|), "", a, r)
    ensures Gap(s, out, "", a, [], r)
  {
    hide Finish, Join, Groups;
    assert "" + s == ":" + ("" + s[1..]);
    assert Bytes([]) == [] && out + [] == out;
  }

  /** The text of the groups before "::", as it stands behind a colon or at the start, and the "::". */
  ghost function LeftText(l: seq<Group>): string
    requires AllGroups(l)
  {
    if l == [] then ":" else Join(l) + "::"
  }

  ghost predicate Gap(s: string, out: seq<Byte>, tok: string, a: seq<Byte>, l: seq<Group>, r: seq<Group>)
    requires |out| <= 16
  {
    && Hexas(l) && Groups(r) && AllGroups(l) && AllGroups(r)
    && tok + s == LeftText(l) + Join(r)
    && |out| + |Bytes(l)| + |Bytes(r)| <= 16
    && Finish(out + Bytes(l) + Bytes(r), Some(|out| + |Bytes(l)|)) == Some(a)
  }

  lemma GapCons(s: string, out: seq<Byte>, tok: string, a: seq<Byte>, l: seq<Group>, r: seq<Group>)
    requires IsHexa(Hexa(tok)) && s != "" && s[0] == ':' && |out| <= 14
    requires Gap(s[1..], out + GroupBytes(Hexa(tok)), "", a, l, r)
    ensures Gap(s, out, tok, a, [Hexa(tok)] + l, r)
  {
    hide Finish, Join, Bytes, GroupBytes, Groups, Hexas;
    var g := Hexa(tok);
    JoinCons(g, l);
    HexasCons(g, l);
    LeftTextCons(tok, l);
    Regroup(tok, LeftText(l), Join(r), s);
    assert out + GroupBytes(g) + Bytes(l) == out + Bytes([g] + l);
  }

  lemma LeftTextCons(tok: string, l: seq<Group>)
    requires IsHexa(Hexa(tok)) && AllGroups(l)
    ensures AllGroups([Hexa(tok)] + l) && LeftText([Hexa(tok)] + l) == tok + (":" + LeftText(l))
  {
    hide Join, IsHexa;
    JoinCons(Hexa(tok), l);
    if l == [] {
      assert tok + "::" == tok + (":" + ":");
    } else {
      assert tok + (":" + Join(l)) + "::" == tok + (":" + (Join(l) + "::"));
    }
  }

  lemma Regroup(tok: string, left: string, right: string, s: string)
    requires s != "" && s[0] == ':' && "" + s[1..] == left + right
    ensures tok + s == tok + (":" + left) + right
  {
    assert s == ":" + (left + right);
  }

  lemma PlainRest(s: string, a: seq<Byte>, gs: seq<Group>)
    requires Rest(s, [], None, "", a, gs)
    ensures Plain(s, a, gs)
  {
    hide Join, Bytes, Groups, AllGroups;
    assert "" + s == s && [] + Bytes(gs) == Bytes(gs);
  }

  lemma WholeText(l: seq<Group>, right: string)
    requires AllGroups(l)
    ensures Join(l) + "::" + right == (if l == [] then ":" else "") + (LeftText(l) + right)
  {
    if l == [] {
      assert "" + "::" + right == ":" + (":" + right);
    }
  }

  lemma CompressedGap(s: string, a: seq<Byte>, l: seq<Group>, r: seq<Group>)
    requires Gap(s, [], "", a, l, r)
    ensures Compressed(if l == [] then ":" + s else s, a, l, r)
  {
    hide Finish, Bytes, Groups, Hexas, Zeros, Join, AllGroups, LeftText;
    assert "" + s == s && [] + Bytes(l) == Bytes(l);
    FinishGap(Bytes(l), Bytes(r));
    WholeText(l, Join(r));
  }

  lemma GapStart(s: string, a: seq<Byte>, l: seq<Group>, r: seq<Group>)
    requires Gap(s, [], "", a, l, r)
    ensures s != "" && (s[0] == ':' <==> l == [])
  {
    hide Finish, Bytes, Groups, Hexas;
    assert "" + s == s;
    if l != [] {
      JoinStart(l);
    }
  }

  lemma OnlyGrammar(s: string, a: seq<Byte>)
    requires Parse6(s) == Some(a)
    ensures Denotes(s, a)
  {
    hide Scan6, Gap, Rest, Plain, Compressed;
    var text := if s != "" && s[0] == ':' then s[1..] else s;
    var plain, l, r := Scan6Head(text, [], "");
    if plain {
      PlainRest(text, a, r);
      PlainStart(text, a, r);
    } else {
      GapStart(text, a, l, r);
      CompressedGap(text, a, l, r);
      assert l == [] ==> s == ":" + text;
    }
  }

  lemma PlainStart(s: string, a: seq<Byte>, gs: seq<Group>)
    requires Plain(s, a, gs)
    ensures s != "" && s[0] != ':'
  {
    JoinStart(gs);
  }

  /** inet_pton6 accepts exactly the texts of the grammar, each as the address it denotes. */
  lemma Parse6Exact(s: string, a: seq<Byte>)
    ensures Parse6(s) == Some(a) <==> Denotes(s, a)
  {
    if Parse6(s) == Some(a) {
      OnlyGrammar(s, a);
    } else if exists gs :: Plain(s, a, gs) {
      var gs :| Plain(s, a, gs);
      AcceptsPlain(s, a, gs);
    } else if exists l, r :: Compressed(s, a, l, r) {
      var l, r :| Compressed(s, a, l, r);
      AcceptsCompressed(s, a, l, r);
    }
  }

  /** No text denotes two addresses. */
  lemma OneMeaning(s: string, a: seq<Byte>, b: seq<Byte>)
    requires Denotes(s, a) && Denotes(s, b)
    ensures a == b
  {
    Parse6Exact(s, a);
    Parse6Exact(s, b);
  }
}
