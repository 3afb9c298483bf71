/** The splitting half of parse_name in apps.c: a subject /type0=value0/type1=value1 with escapes by backslash is taken
    apart into arrays whose sizes are fixed beforehand. A C string is the sequence of its characters before the
    terminator. */
module NameSplit {
  import opened Basics

  /** One name element; multi: it shares a relative name with the one before (mval -1). */
  datatype Entry = Entry(kind: string, value: string, multi: bool)

  // ---------- the splitter on the rest of the text ----------

  /** Whether an unescaped c ends a type, or a value. */
  predicate Stops(c: char, inType: bool, multirdn: bool) {
    if inType then c == '=' else c == '/' || (c == '+' && multirdn)
  }

  /** A type or value from a point in the text on: an escape at the end of the text, the text's end, or a stop. */
  datatype Field = Bad | End(text: string) | Stop(text: string, at: char, rest: string)

  function Prepend(t: string, f: Field): Field {
    match f
    case Bad => Bad
    case End(text) => End(t + text)
    case Stop(text, at, rest) => Stop(t + text, at, rest)
  }

  function ReadField(s: string, inType: bool, multirdn: bool): (f: Field)
    ensures f.Stop? ==> |f.rest| < |s|
  {
    if s == "" then End("")
    else if s[0] == '\\' then
      if |s| == 1 then Bad else Prepend([s[1]], ReadField(s[2..], inType, multirdn))
    else if Stops(s[0], inType, multirdn) then Stop("", s[0], s[1..])
    else Prepend([s[0]], ReadField(s[1..], inType, multirdn))
  }

  function Cons(e: Entry, r: Option<seq<Entry>>): Option<seq<Entry>> {
    match r
    case None => None
    case Some(es) => Some([e] + es)
  }

  function Split(s: string, multi: bool, multirdn: bool): Option<seq<Entry>>
    decreases |s|
  {
    if s == "" then Some([])
    else match ReadField(s, true, multirdn)
      case Bad => None
      case End(_) => None
      case Stop(kind, _, rest) =>
        if rest == "" then None
        else match ReadField(rest, false, multirdn)
          case Bad => None
          case End(value) => Some([Entry(kind, value, multi)])
          case Stop(value, at, more) => Cons(Entry(kind, value, multi), Split(more, at == '+', multirdn))
  }

  /** parse_name up to its use of the entries. */
  function Parse(s: string, multirdn: bool): Option<seq<Entry>> {
    if s == "" || s[0] != '/' then None else Split(s[1..], false, multirdn)
  }

  // ---------- how entries are written ----------

  /** t with a backslash before the characters that esc marks. */
  function Escape(t: string, esc: seq<bool>): string
    requires |esc| == |t|
  {
    if t == "" then "" else (if esc[0] then "\\" else "") + [t[0]] + Escape(t[1..], esc[1..])
  }

  /** The marks cover what would otherwise end the field or be taken for a backslash. */
  predicate Covers(t: string, esc: seq<bool>, inType: bool, multirdn: bool): (b: bool)
    ensures b ==> |esc| == |t|
  {
    |esc| == |t| && forall k :: 0 <= k < |t| && (t[k] == '\\' || Stops(t[k], inType, multirdn)) ==> esc[k]
  }

  /** An entry and the marks it is written with. */
  datatype Written = Written(e: Entry, kindEsc: seq<bool>, valueEsc: seq<bool>)

  predicate Covered(w: Written, multirdn: bool) {
    && Covers(w.e.kind, w.kindEsc, true, multirdn) && Covers(w.e.value, w.valueEsc, false, multirdn)
    && (w.e.multi ==> multirdn)
  }

  predicate AllCovered(ws: seq<Written>, multirdn: bool) {
    forall k :: 0 <= k < |ws| ==> Covered(ws[k], multirdn)
  }

  function Separator(multi: bool): string {
    if multi then "+" else "/"
  }

  /** The entries as text, each one but the first behind its separator, and the text end behind them. */
  function Text(ws: seq<Written>, end: string, multirdn: bool): string
    requires AllCovered(ws, multirdn)
  {
    if ws == [] then ""
    else
      Escape(ws[0].e.kind, ws[0].kindEsc) + ("=" + (Escape(ws[0].e.value, ws[0].valueEsc)
      + if |ws| == 1 then end else Separator(ws[1].e.multi) + Text(ws[1..], end, multirdn)))
  }

  function Entries(ws: seq<Written>): seq<Entry> {
    if ws == [] then [] else [ws[0].e] + Entries(ws[1..])
  }

  /** s is a way to write the entries es. A separator may end the text; without one the last value must not be empty. */
  ghost predicate Writes(s: string, es: seq<Entry>, multirdn: bool, ws: seq<Written>, end: string) {
    && AllCovered(ws, multirdn) && es == Entries(ws) && s == "/" + Text(ws, end, multirdn)
    && (ws != [] ==> !ws[0].e.multi && Ends(ws, end, multirdn))
  }

  predicate Ends(ws: seq<Written>, end: string, multirdn: bool)
    requires ws != []
  {
    (end == "" && ws[|ws| - 1].e.value != "") || end == "/" || (end == "+" && multirdn)
  }

  // ---------- reading what is written ----------

  lemma {:induction false} ReadEscaped(t: string, esc: seq<bool>, rest: string, inType: bool, multirdn: bool)
    requires Covers(t, esc, inType, multirdn)
    ensures ReadField(Escape(t, esc) + rest, inType, multirdn) == Prepend(t, ReadField(rest, inType, multirdn))
    decreases t
  {
    hide Stops;
    if t == "" {
      assert Escape(t, esc) + rest == rest;
      NothingBefore(ReadField(rest, inType, multirdn));
    } else {
      var more := Escape(t[1..], esc[1..]) + rest;
      ReadEscaped(t[1..], esc[1..], rest, inType, multirdn);
      assert t == [t[0]] + t[1..];
      if esc[0] {
        assert Escape(t, esc) + rest == "\\" + ([t[0]] + more);
        OneEscaped(t[0], more, inType, multirdn);
      } else {
        assert Escape(t, esc) + rest == [t[0]] + more;
        OnePlain(t[0], more, inType, multirdn);
      }
      TwicePrepended([t[0]], t[1..], ReadField(rest, inType, multirdn));
    }
  }

  lemma NothingBefore(f: Field)
    ensures Prepend("", f) == f
  {
    if !f.Bad? {
      assert "" + f.text == f.text;
    }
  }

  lemma TwicePrepended(a: string, b: string, f: Field)
    ensures Prepend(a, Prepend(b, f)) == Prepend(a + b, f)
  {
    if !f.Bad? {
      assert a + (b + f.text) == a + b + f.text;
    }
  }

  lemma OneEscaped(c: char, more: string, inType: bool, multirdn: bool)
    ensures ReadField("\\" + ([c] + more), inType, multirdn) == Prepend([c], ReadField(more, inType, multirdn))
  {
    assert ("\\" + ([c] + more))[2..] == more;
  }

  lemma OnePlain(c: char, more: string, inType: bool, multirdn: bool)
    requires c != '\\' && !Stops(c, inType, multirdn)
    ensures ReadField([c] + more, inType, multirdn) == Prepend([c], ReadField(more, inType, multirdn))
  {
    assert ([c] + more)[1..] == more;
  }

  lemma ReadStop(t: string, esc: seq<bool>, c: char, rest: string, inType: bool, multirdn: bool)
    requires Covers(t, esc, inType, multirdn) && c != '\\' && Stops(c, inType, multirdn)
    ensures ReadField(Escape(t, esc) + ([c] + rest), inType, multirdn) == Stop(t, c, rest)
  {
    ReadEscaped(t, esc, [c] + rest, inType, multirdn);
    assert ([c] + rest)[1..] == rest && t + "" == t;
  }

  lemma ReadEnd(t: string, esc: seq<bool>, inType: bool, multirdn: bool)
    requires Covers(t, esc, inType, multirdn)
    ensures ReadField(Escape(t, esc), inType, multirdn) == End(t)
  {
    ReadEscaped(t, esc, "", inType, multirdn);
    assert Escape(t, esc) + "" == Escape(t, esc) && t + "" == t;
  }

  lemma EscapeEmpty(t: string, esc: seq<bool>)
    requires |esc| == |t|
    ensures Escape(t, esc) == "" <==> t == ""
  {
  }

  lemma SplitField(e: Entry, kindEsc: seq<bool>, rest: string, multirdn: bool)
    requires Covers(e.kind, kindEsc, true, multirdn) && rest != ""
    ensures Split(Escape(e.kind, kindEsc) + ("=" + rest), e.multi, multirdn)
         == match ReadField(rest, false, multirdn)
            case Bad => None
            case End(value) => Some([Entry(e.kind, value, e.multi)])
            case Stop(value, at, more) => Cons(Entry(e.kind, value, e.multi), Split(more, at == '+', multirdn))
  {
    hide Escape, ReadField, Covers;
    ReadStop(e.kind, kindEsc, '=', rest, true, multirdn);
    assert ReadField("", true, multirdn) == End("") by { ReadNothing(true, multirdn); }
  }

  lemma ReadNothing(inType: bool, multirdn: bool)
    ensures ReadField("", inType, multirdn) == End("")
  {
  }

  lemma SplitLast(w: Written, end: string, multirdn: bool)
    requires Covered(w, multirdn) && Ends([w], end, multirdn)
    ensures Split(Text([w], end, multirdn), w.e.multi, multirdn) == Some([w.e])
  {
    hide Escape, ReadField, Covers;
    var value := Escape(w.e.value, w.valueEsc);
    EscapeEmpty(w.e.value, w.valueEsc);
    SplitField(w.e, w.kindEsc, value + end, multirdn);
    if end == "" {
      assert value + end == value;
      ReadEnd(w.e.value, w.valueEsc, false, multirdn);
    } else {
      assert end == [end[0]] + "";
      ReadStop(w.e.value, w.valueEsc, end[0], "", false, multirdn);
      assert [w.e] + [] == [w.e];
    }
  }

  lemma {:induction false} SplitWritten(ws: seq<Written>, end: string, multirdn: bool)
    requires AllCovered(ws, multirdn) && ws != [] && Ends(ws, end, multirdn)
    ensures Split(Text(ws, end, multirdn), ws[0].e.multi, multirdn) == Some(Entries(ws))
    decreases ws
  {
    hide Escape, ReadField, Covers, Split;
    var w := ws[0];
    assert Covered(w, multirdn);
    if |ws| == 1 {
      SplitLast(w, end, multirdn);
      assert ws == [w] && Entries(ws) == [w.e];
    } else {
      var more := Text(ws[1..], end, multirdn);
      var sep := Separator(ws[1].e.multi);
      assert Covered(ws[1], multirdn);
      SplitField(w.e, w.kindEsc, Escape(w.e.value, w.valueEsc) + (sep + more), multirdn);
      ReadStop(w.e.value, w.valueEsc, sep[0], more, false, multirdn);
      SplitWritten(ws[1..], end, multirdn);
    }
  }

  /** Splitting undoes printing: whatever is escaped beyond what must be, and whether or not a separator ends the text,
      the splitter gives back the entries. */
  lemma ParseWritten(s: string, es: seq<Entry>, multirdn: bool, ws: seq<Written>, end: string)
    requires Writes(s, es, multirdn, ws, end)
    ensures Parse(s, multirdn) == Some(es)
  {
    assert s[1..] == Text(ws, end, multirdn);
    if ws != [] {
      SplitWritten(ws, end, multirdn);
    }
  }

  // ---------- printing without a closing separator ----------

  lemma SplitNoValue(w: Written, multi: bool, multirdn: bool)
    requires Covered(w, multirdn) && w.e.value == ""
    ensures Split(Text([w], "", multirdn), multi, multirdn) == None
  {
    hide Escape, ReadField, Covers;
    EscapeEmpty(w.e.value, w.valueEsc);
    assert Text([w], "", multirdn) == Escape(w.e.kind, w.kindEsc) + (['='] + "");
    ReadStop(w.e.kind, w.kindEsc, '=', "", true, multirdn);
    ReadNothing(true, multirdn);
  }

  /** An empty value at the very end is taken for a type that lacks one. */
  lemma {:induction false} SplitUnfinished(ws: seq<Written>, multi: bool, multirdn: bool)
    requires AllCovered(ws, multirdn) && ws != [] && ws[|ws| - 1].e.value == ""
    ensures Split(Text(ws, "", multirdn), multi, multirdn) == None
    decreases ws
  {
    hide Escape, ReadField, Covers, Split;
    var w := ws[0];
    assert Covered(w, multirdn);
    if |ws| == 1 {
      SplitNoValue(w, multi, multirdn);
      assert ws == [w];
    } else {
      var more := Text(ws[1..], "", multirdn);
      var sep := Separator(ws[1].e.multi);
      assert Covered(ws[1], multirdn);
      SplitField(w.e.(multi := multi), w.kindEsc, Escape(w.e.value, w.valueEsc) + (sep + more), multirdn);
      ReadStop(w.e.value, w.valueEsc, sep[0], more, false, multirdn);
      SplitUnfinished(ws[1..], sep[0] == '+', multirdn);
    }
  }

  lemma FirstFlag(s: string, multi: bool, multirdn: bool)
    requires s != "" && Split(s, multi, multirdn).Some?
    ensures Split(s, multi, multirdn).value != [] && Split(s, multi, multirdn).value[0].multi == multi
  {
    hide ReadField;
  }

  lemma TextStarts(ws: seq<Written>, multirdn: bool)
    requires AllCovered(ws, multirdn) && ws != []
    ensures Text(ws, "", multirdn) != "" && Entries(ws) != [] && Entries(ws)[0] == ws[0].e
  {
  }

  /** Printing entries without a closing separator is undone by splitting exactly when there are none, or the first flag
      is unset and the last value is not empty. */
  lemma UnclosedExact(ws: seq<Written>, multirdn: bool)
    requires AllCovered(ws, multirdn)
    ensures Parse("/" + Text(ws, "", multirdn), multirdn) == Some(Entries(ws)) <==>
            ws == [] || (!ws[0].e.multi && ws[|ws| - 1].e.value != "")
  {
    hide Split;
    var text := Text(ws, "", multirdn);
    assert ("/" + text)[1..] == text;
    if ws == [] {
      ParseWritten("/", [], multirdn, ws, "");
    } else if ws[|ws| - 1].e.value == "" {
      SplitUnfinished(ws, false, multirdn);
    } else if ws[0].e.multi {
      TextStarts(ws, multirdn);
      if Split(text, false, multirdn).Some? {
        FirstFlag(text, false, multirdn);
      }
    } else {
      SplitWritten(ws, "", multirdn);
    }
  }

  /** The type a with an empty value: rejected as it stands, accepted with a separator behind it. */
  lemma EmptyValue(multirdn: bool)
    ensures Parse("/a=", multirdn) == None
    ensures Parse("/a=/", multirdn) == Some([Entry("a", "", false)])
  {
    var w := Written(Entry("a", "", false), [false], []);
    assert Covered(w, multirdn) && AllCovered([w], multirdn);
    assert Escape("a", [false]) == "" + ['a'] + Escape("", []);
    assert Text([w], "", multirdn) == "a=" && Text([w], "/", multirdn) == "a=/";
    SplitNoValue(w, false, multirdn);
    SplitLast(w, "/", multirdn);
    assert "/a="[1..] == "a=" && "/a=/"[1..] == "a=/";
  }

  /** Text without marks is written as it is. */
  lemma {:induction false} EscapeNothing(t: string, esc: seq<bool>)
    requires |esc| == |t| && true !in esc
    ensures Escape(t, esc) == t
  {
    if t != "" {
      assert t == [t[0]] + t[1..] && !esc[0];
      EscapeNothing(t[1..], esc[1..]);
    }
  }

  lemma SingleEntry(s: string, w: Written, multirdn: bool)
    requires Covered(w, multirdn) && !w.e.multi && w.e.value != ""
    requires s == "/" + (Escape(w.e.kind, w.kindEsc) + ("=" + Escape(w.e.value, w.valueEsc)))
    ensures Parse(s, multirdn) == Some([w.e])
  {
    hide Escape, Parse;
    var text := Escape(w.e.value, w.valueEsc);
    assert text + "" == text;
    assert Entries([w]) == [w.e] + Entries([]);
    ParseWritten(s, [w.e], multirdn, [w], "");
  }

  /** A slash behind a backslash belongs to the value. */
  lemma EscapedSlash(multirdn: bool)
    ensures Parse("/C=a\\/b", multirdn) == Some([Entry("C", "a/b", false)])
  {
    hide Escape, Parse;
    EscapeNothing("C", [false]);
    MarkedSlash();
    SingleEntry("/C=a\\/b", Written(Entry("C", "a/b", false), [false], [false, true, false]), multirdn);
  }

  lemma MarkedSlash()
    ensures Escape("a/b", [false, true, false]) == "a\\/b"
  {
    EscapeNothing("b", [false]);
    assert "a/b"[1..] == "/b" && "/b"[1..] == "b";
    assert [false, true, false][1..] == [true, false] && [true, false][1..] == [false];
    assert Escape("/b", [true, false]) == "\\" + ['/'] + "b";
    assert Escape("a/b", [false, true, false]) == "" + ['a'] + Escape("/b", [true, false]);
  }

  /** A plus separates entries that share a relative name, or is a part of the value. */
  lemma PlusSeparates()
    ensures Parse("/C=a+O=c", true) == Some([Entry("C", "a", false), Entry("O", "c", true)])
  {
    hide Escape, Parse;
    EscapeNothing("C", [false]);
    EscapeNothing("a", [false]);
    EscapeNothing("O", [false]);
    EscapeNothing("c", [false]);
    var first := Written(Entry("C", "a", false), [false], [false]);
    var second := Written(Entry("O", "c", true), [false], [false]);
    var ws := [first, second];
    assert Covered(first, true) && Covered(second, true) && ws[1..] == [second];
    assert Text([second], "", true) == "O=c";
    assert Text(ws, "", true) == "C=a+O=c";
    assert Entries([second]) == [second.e];
    ParseWritten("/C=a+O=c", [first.e, second.e], true, ws, "");
  }

  lemma PlusBelongs()
    ensures Parse("/C=a+O=c", false) == Some([Entry("C", "a+O=c", false)])
  {
    hide Escape, Parse;
    EscapeNothing("C", [false]);
    EscapeNothing("a+O=c", [false, false, false, false, false]);
    SingleEntry("/C=a+O=c", Written(Entry("C", "a+O=c", false), [false], [false, false, false, false, false]), false);
  }

  // ---------- nothing else is accepted ----------

  /** s is the text of the field f, written with the marks esc, and of what follows it. */
  ghost predicate FieldIs(s: string, f: Field, esc: seq<bool>, inType: bool, multirdn: bool) {
    && !f.Bad? && Covers(f.text, esc, inType, multirdn)
    && (f.End? ==> s == Escape(f.text, esc))
    && (f.Stop? ==> s == Escape(f.text, esc) + ([f.at] + f.rest) && f.at != '\\' && Stops(f.at, inType, multirdn))
  }

  lemma FieldCons(c: char, mark: bool, s: string, f: Field, esc: seq<bool>, inType: bool, multirdn: bool)
    requires FieldIs(s, f, esc, inType, multirdn) && (c == '\\' || Stops(c, inType, multirdn) ==> mark)
    ensures FieldIs((if mark then "\\" else "") + [c] + s, Prepend([c], f), [mark] + esc, inType, multirdn)
  {
    hide Stops, Escape, Covers;
    WrittenCons(c, mark, f.text, esc, inType, multirdn);
    var front := (if mark then "\\" else "") + [c];
    if f.Stop? {
      assert front + (Escape(f.text, esc) + ([f.at] + f.rest)) == (front + Escape(f.text, esc)) + ([f.at] + f.rest);
    }
  }

  lemma FieldHere(s: string, inType: bool, multirdn: bool)
    requires s == "" || (s[0] != '\\' && Stops(s[0], inType, multirdn))
    ensures FieldIs(s, ReadField(s, inType, multirdn), [], inType, multirdn)
  {
    if s != "" {
      assert s == "" + ([s[0]] + s[1..]);
    }
  }

  /** The marks that a field was read with. */
  lemma {:induction false} FieldWritten(s: string, inType: bool, multirdn: bool) returns (esc: seq<bool>)
    requires !ReadField(s, inType, multirdn).Bad?
    ensures FieldIs(s, ReadField(s, inType, multirdn), esc, inType, multirdn)
    decreases |s|
  {
    hide Stops, FieldIs;
    if s == "" {
      FieldHere(s, inType, multirdn);
      esc := [];
    } else if s[0] == '\\' {
      var more := FieldWritten(s[2..], inType, multirdn);
      FieldCons(s[1], true, s[2..], ReadField(s[2..], inType, multirdn), more, inType, multirdn);
      assert s == "\\" + [s[1]] + s[2..];
      esc := [true] + more;
    } else if Stops(s[0], inType, multirdn) {
      FieldHere(s, inType, multirdn);
      esc := [];
    } else {
      var more := FieldWritten(s[1..], inType, multirdn);
      FieldCons(s[0], false, s[1..], ReadField(s[1..], inType, multirdn), more, inType, multirdn);
      assert s == "" + [s[0]] + s[1..];
      esc := [false] + more;
    }
  }

  lemma WrittenCons(c: char, mark: bool, t: string, esc: seq<bool>, inType: bool, multirdn: bool)
    requires Covers(t, esc, inType, multirdn) && (c == '\\' || Stops(c, inType, multirdn) ==> mark)
    ensures Covers([c] + t, [mark] + esc, inType, multirdn)
    ensures Escape([c] + t, [mark] + esc) == (if mark then "\\" else "") + [c] + Escape(t, esc)
  {
    hide Stops;
    assert ([c] + t)[1..] == t && ([mark] + esc)[1..] == esc;
  }

  lemma {:induction false} SplitOnlyWritten(s: string, multi: bool, multirdn: bool)
      returns (ws: seq<Written>, end: string)
    requires Split(s, multi, multirdn).Some? && (multi ==> multirdn)
    ensures AllCovered(ws, multirdn) && Entries(ws) == Split(s, multi, multirdn).value
    ensures s == Text(ws, end, multirdn) && (ws == [] <==> s == "")
    ensures ws != [] ==> ws[0].e.multi == multi && Ends(ws, end, multirdn)
    decreases |s|
  {
    hide Escape, ReadField, Covers;
    ws, end := [], "";
    if s != "" {
      var kind := ReadField(s, true, multirdn);
      var kindEsc := FieldWritten(s, true, multirdn);
      var value := ReadField(kind.rest, false, multirdn);
      var valueEsc := FieldWritten(kind.rest, false, multirdn);
      var w := Written(Entry(kind.text, value.text, multi), kindEsc, valueEsc);
      EscapeEmpty(value.text, valueEsc);
      assert Covered(w, multirdn);
      if value.End? {
        ws := [w];
        assert Entries(ws) == [w.e] + [];
        assert kind.rest == kind.rest + "";
      } else {
        var ws', end' := SplitOnlyWritten(value.rest, value.at == '+', multirdn);
        ws := [w] + ws';
        assert ws[1..] == ws';
        if ws' == [] {
          end := [value.at];
          assert [value.at] + "" == end;
        } else {
          end := end';
          assert Separator(ws[1].e.multi) == [value.at];
        }
      }
    }
  }

  /** parse_name accepts exactly the ways to write entries, each as the entries written. */
  lemma ParseExact(s: string, es: seq<Entry>, multirdn: bool)
    ensures Parse(s, multirdn) == Some(es) <==> exists ws, end :: Writes(s, es, multirdn, ws, end)
  {
    hide Split, Text;
    if Parse(s, multirdn) == Some(es) {
      var ws, end := SplitOnlyWritten(s[1..], false, multirdn);
      assert s == "/" + s[1..];
      assert Writes(s, es, multirdn, ws, end);
    } else if exists ws, end :: Writes(s, es, multirdn, ws, end) {
      var ws, end :| Writes(s, es, multirdn, ws, end);
      ParseWritten(s, es, multirdn, ws, end);
    }
  }

  // ---------- the arrays ----------

  /** The C string at an offset of the buffer. */
  ghost predicate StringAt(buf: seq<char>, at: nat, t: string) {
    at + |t| < |buf| && buf[at..at + |t|] == t && buf[at + |t|] == '\0'
  }

  /** The arrays hold the entries: where in buf type and value start, and the flag. */
  ghost predicate Holds(buf: seq<char>, kinds: seq<nat>, values: seq<nat>, mval: seq<int>, es: seq<Entry>) {
    && |kinds| == |es| && |values| == |es| && |mval| == |es|
    && forall k {:trigger es[k]} :: 0 <= k < |es| ==>
         && StringAt(buf, kinds[k], es[k].kind) && StringAt(buf, values[k], es[k].value)
         && mval[k] == if es[k].multi then -1 else 0
  }

  lemma StringStays(buf: seq<char>, more: seq<char>, at: nat, t: string)
    requires buf <= more && StringAt(buf, at, t)
    ensures StringAt(more, at, t)
  {
    assert more[at..at + |t|] == buf[at..at + |t|];
  }

  lemma HoldsMore(buf: seq<char>, more: seq<char>, kinds: seq<nat>, values: seq<nat>, mval: seq<int>, es: seq<Entry>,
                  kind: nat, value: nat, e: Entry)
    requires Holds(buf, kinds, values, mval, es) && buf <= more
    requires StringAt(more, kind, e.kind) && StringAt(more, value, e.value)
    ensures Holds(more, kinds + [kind], values + [value], mval + [if e.multi then -1 else 0], es + [e])
  {
    hide StringAt;
    forall k | 0 <= k < |es|
      ensures StringAt(more, kinds[k], es[k].kind) && StringAt(more, values[k], es[k].value)
    {
      StringStays(buf, more, kinds[k], es[k].kind);
      StringStays(buf, more, values[k], es[k].value);
    }
  }

  function After(es: seq<Entry>, r: Option<seq<Entry>>): Option<seq<Entry>> {
    match r
    case None => None
    case Some(more) => Some(es + more)
  }

  /** text is what was collected of the field at from when the cursor has come to sp. */
  predicate Collected(s: string, from: nat, sp: nat, text: string, inType: bool, multirdn: bool)
    requires from <= |s| && sp <= |s|
  {
    ReadField(s[from..], inType, multirdn) == Prepend(text, ReadField(s[sp..], inType, multirdn))
  }

  lemma CollectNone(s: string, from: nat, inType: bool, multirdn: bool)
    requires from <= |s|
    ensures Collected(s, from, from, "", inType, multirdn)
  {
    NothingBefore(ReadField(s[from..], inType, multirdn));
  }

  lemma CollectEscaped(s: string, from: nat, sp: nat, text: string, inType: bool, multirdn: bool)
    requires from <= sp < |s| && s[sp] == '\\' && Collected(s, from, sp, text, inType, multirdn)
    ensures sp + 1 == |s| ==> ReadField(s[from..], inType, multirdn).Bad?
    ensures sp + 1 < |s| ==> Collected(s, from, sp + 2, text + [s[sp + 1]], inType, multirdn)
  {
    if sp + 1 < |s| {
      assert s[sp..] == "\\" + ([s[sp + 1]] + s[sp + 2..]);
      OneEscaped(s[sp + 1], s[sp + 2..], inType, multirdn);
      TwicePrepended(text, [s[sp + 1]], ReadField(s[sp + 2..], inType, multirdn));
    }
  }

  lemma CollectPlain(s: string, from: nat, sp: nat, text: string, inType: bool, multirdn: bool)
    requires from <= sp < |s| && s[sp] != '\\' && Collected(s, from, sp, text, inType, multirdn)
    ensures Stops(s[sp], inType, multirdn) ==> ReadField(s[from..], inType, multirdn) == Stop(text, s[sp], s[sp + 1..])
    ensures !Stops(s[sp], inType, multirdn) ==> Collected(s, from, sp + 1, text + [s[sp]], inType, multirdn)
  {
    assert s[sp..] == [s[sp]] + s[sp + 1..];
    if Stops(s[sp], inType, multirdn) {
      assert s[sp..][1..] == s[sp + 1..] && text + "" == text;
    } else {
      OnePlain(s[sp], s[sp + 1..], inType, multirdn);
      TwicePrepended(text, [s[sp]], ReadField(s[sp + 1..], inType, multirdn));
    }
  }

  lemma CollectEnd(s: string, from: nat, text: string, inType: bool, multirdn: bool)
    requires from <= |s| && Collected(s, from, |s|, text, inType, multirdn)
    ensures ReadField(s[from..], inType, multirdn) == End(text)
  {
    assert s[|s|..] == "" && text + "" == text;
  }

  /** Either of the two inner loops: a type or a value is copied to buf without its escapes. */
  method Collect(s: string, from: nat, buf: array<char>, start: nat, inType: bool, multirdn: bool)
      returns (bad: bool, stopped: bool, at: char, sp: nat, bp: nat)
    requires from <= |s| && start + (|s| - from) <= buf.Length
    modifies buf
    ensures buf[..start] == old(buf[..start])
    ensures from <= sp <= |s| && start <= bp <= buf.Length && bp - start <= sp - from
    ensures var f := ReadField(s[from..], inType, multirdn);
      && (bad <==> f.Bad?)
      && (!bad && !stopped ==> sp == |s| && f == End(buf[start..bp]))
      && (!bad && stopped ==> bp - start < sp - from && f == Stop(buf[start..bp], at, s[sp..]))
  {
    hide Stops, ReadField, Collected;
    bad, stopped, at, sp, bp := false, false, ' ', from, start;
    CollectNone(s, from, inType, multirdn);
    assert buf[start..start] == "";
    while sp < |s|
      invariant from <= sp <= |s| && start <= bp && bp - start <= sp - from
      invariant buf[..start] == old(buf[..start])
      invariant Collected(s, from, sp, buf[start..bp], inType, multirdn)
      decreases |s| - sp
    {
      ghost var was := buf[start..bp];
      if s[sp] == '\\' {
        CollectEscaped(s, from, sp, was, inType, multirdn);
        sp := sp + 1;
        if sp == |s| {
          bad := true;
          return;
        }
      } else {
        CollectPlain(s, from, sp, was, inType, multirdn);
        if Stops(s[sp], inType, multirdn) {
          stopped, at, sp := true, s[sp], sp + 1;
          return;
        }
      }
      buf[bp] := s[sp];
      bp, sp := bp + 1, sp + 1;
      assert buf[start..bp] == was + [s[sp - 1]];
    }
    CollectEnd(s, from, buf[start..bp], inType, multirdn);
  }

  lemma Terminated(buf: array<char>, start: nat, bp: nat)
    requires start < bp <= buf.Length && buf[bp - 1] == '\0'
    ensures StringAt(buf[..bp], start, buf[start..bp - 1])
  {
    assert buf[..bp][start..bp - 1] == buf[start..bp - 1];
  }

  /** What one round of the outer loop reads. */
  datatype Element = Element(kind: string, value: string, last: bool, at: char, rest: string)

  function ReadElement(s: string, multirdn: bool): Option<Element> {
    match ReadField(s, true, multirdn)
    case Bad => None
    case End(_) => None
    case Stop(kind, _, rest) =>
      if rest == "" then None
      else match ReadField(rest, false, multirdn)
        case Bad => None
        case End(value) => Some(Element(kind, value, true, ' ', ""))
        case Stop(value, at, more) => Some(Element(kind, value, false, at, more))
  }

  lemma SplitElement(s: string, multi: bool, multirdn: bool)
    requires s != ""
    ensures Split(s, multi, multirdn) ==
            match ReadElement(s, multirdn)
            case None => None
            case Some(x) => Cons(Entry(x.kind, x.value, multi), Split(x.rest, x.at == '+', multirdn))
  {
    hide ReadField;
    if ReadElement(s, multirdn).Some? && ReadElement(s, multirdn).value.last {
      var x := ReadElement(s, multirdn).value;
      assert [Entry(x.kind, x.value, multi)] + [] == [Entry(x.kind, x.value, multi)];
    }
  }

  /** One round of the outer loop, but for its writes to the other arrays. */
  method TakeElement(s: string, from: nat, buf: array<char>, start: nat, multirdn: bool)
      returns (ok: bool, value: nat, stopped: bool, at: char, sp: nat, bp: nat)
    requires from < |s| && start < from && buf.Length == |s| + 1
    modifies buf
    ensures buf[..start] == old(buf[..start])
    ensures ok <==> ReadElement(s[from..], multirdn).Some?
    ensures ok ==>
              var x := ReadElement(s[from..], multirdn).value;
              && from + 1 <= sp <= |s| && start <= bp <= sp && (stopped ==> bp < sp && from + 2 <= sp)
              && stopped == !x.last && (stopped ==> at == x.at) && s[sp..] == x.rest && (!stopped ==> sp == |s|)
              && StringAt(buf[..bp], start, x.kind) && StringAt(buf[..bp], value, x.value)
  {
    hide ReadField, StringAt;
    var bad;
    value := 0;
    bad, stopped, at, sp, bp := Collect(s, from, buf, start, true, multirdn);
    if bad {
      ok := false;
      return;
    }
    if stopped {
      buf[bp] := '\0';
      bp := bp + 1;
    }
    if sp == |s| {
      assert s[sp..] == "";
      ok := false;
      return;
    }
    ghost var kind := buf[start..bp - 1];
    ghost var head := buf[..bp];
    Terminated(buf, start, bp);
    value := bp;
    bad, stopped, at, sp, bp := Collect(s, sp, buf, value, false, multirdn);
    if bad {
      ok := false;
      return;
    }
    ghost var text := buf[value..bp];
    buf[bp] := '\0';
    bp := bp + 1;
    assert head <= buf[..bp];
    StringStays(head, buf[..bp], start, kind);
    Terminated(buf, value, bp);
    ok := true;
  }

  /** The writes of one round to the other arrays; the flag of the next element is set when a separator came. */
  method Record(kinds: array<nat>, values: array<nat>, mval: array<int>, num: nat, kind: nat, value: nat,
                stopped: bool, at: char)
    requires num < kinds.Length && num < values.Length && num < mval.Length && (stopped ==> num + 1 < mval.Length)
    requires kinds != values
    modifies kinds, values, mval
    ensures kinds[..num + 1] == old(kinds[..num]) + [kind] && values[..num + 1] == old(values[..num]) + [value]
    ensures mval[..num + 1] == old(mval[..num]) + [old(mval[num])]
    ensures stopped ==> mval[num + 1] == if at == '+' then -1 else 0
  {
    kinds[num] := kind;
    values[num] := value;
    if stopped {
      mval[num + 1] := if at == '+' then -1 else 0;
    }
  }

  /** Where the outer loop stands. */
  ghost predicate Splitting(s: string, multirdn: bool, sp: nat, es: seq<Entry>, multi: bool)
    requires sp <= |s|
  {
    Parse(s, multirdn) == After(es, Split(s[sp..], multi, multirdn))
  }

  lemma SplitStart(s: string, multirdn: bool)
    requires s != "" && s[0] == '/'
    ensures Splitting(s, multirdn, 1, [], false)
  {
    AfterNone(Split(s[1..], false, multirdn));
  }

  /** One round: an element ends the splitting, or is one more entry. Behind the last one the flag means nothing. */
  lemma SplitRound(s: string, multirdn: bool, sp: nat, es: seq<Entry>, multi: bool, sp': nat, multi': bool)
    requires sp < |s| && sp' <= |s| && Splitting(s, multirdn, sp, es, multi)
    ensures var r := ReadElement(s[sp..], multirdn);
      && (r.None? ==> Parse(s, multirdn).None?)
      && (r.Some? && s[sp'..] == r.value.rest && (multi' == (r.value.at == '+') || r.value.rest == "") ==>
            Splitting(s, multirdn, sp', es + [Entry(r.value.kind, r.value.value, multi)], multi'))
  {
    hide ReadElement, Parse, Split;
    SplitElement(s[sp..], multi, multirdn);
    var r := ReadElement(s[sp..], multirdn);
    if r.Some? {
      var x := r.value;
      AfterCons(es, Entry(x.kind, x.value, multi), Split(x.rest, x.at == '+', multirdn));
      SplitNothing(x.at == '+', multi', multirdn);
    }
  }

  lemma SplitDone(s: string, multirdn: bool, es: seq<Entry>, multi: bool)
    requires Splitting(s, multirdn, |s|, es, multi)
    ensures Parse(s, multirdn) == Some(es)
  {
    assert s[|s|..] == "" && es + [] == es;
  }

  lemma HoldsNone(buf: seq<char>)
    ensures Holds(buf, [], [], [], [])
  {
  }

  /** The splitting half of parse_name. All writes stay within the sizes chosen at the start. */
  method SplitSubject(subject: string, multirdn: bool)
      returns (ok: bool, buf: array<char>, kinds: array<nat>, values: array<nat>, mval: array<int>, num: nat)
    ensures ok <==> Parse(subject, multirdn).Some?
    ensures buf.Length == |subject| + 1 && kinds.Length == values.Length == mval.Length == (|subject| + 1) / 2 + 1
    ensures ok ==> num <= kinds.Length && num <= values.Length && num <= mval.Length
    ensures ok ==> Holds(buf[..], kinds[..num], values[..num], mval[..num], Parse(subject, multirdn).value)
  {
    hide StringAt, ReadElement, Split, Splitting, Holds;
    var buflen := |subject| + 1;
    buf := new char[buflen](_ => ' ');
    var maxNe := buflen / 2 + 1;
    kinds := new nat[maxNe](_ => 0);
    values := new nat[maxNe](_ => 0);
    mval := new int[maxNe](_ => 0);
    num := 0;
    if |subject| == 0 || subject[0] != '/' {
      ok := false;
      return;
    }
    var sp, bp := 1, 0;
    mval[num] := 0;
    ghost var es: seq<Entry> := [];
    SplitStart(subject, multirdn);
    HoldsNone(buf[..bp]);
    while sp < |subject|
      invariant 1 <= sp <= |subject| && 2 * num <= sp && (sp < |subject| ==> 2 * num < sp && bp < sp) && bp <= sp
      invariant Holds(buf[..bp], kinds[..num], values[..num], mval[..num], es)
      invariant sp < |subject| ==> mval[num] == 0 || mval[num] == -1
      invariant Splitting(subject, multirdn, sp, es, mval[num] == -1)
      decreases |subject| - sp
    {
      ghost var was, flag := buf[..bp], mval[num] == -1;
      ghost var x := ReadElement(subject[sp..], multirdn);
      var e, value, stopped, at, sp', bp' := TakeElement(subject, sp, buf, bp, multirdn);
      if !e {
        SplitRound(subject, multirdn, sp, es, flag, sp, false);
        ok := false;
        return;
      }
      ghost var entry := Entry(x.value.kind, x.value.value, flag);
      HoldsMore(was, buf[..bp'], kinds[..num], values[..num], mval[..num], es, bp, value, entry);
      Record(kinds, values, mval, num, bp, value, stopped, at);
      SplitRound(subject, multirdn, sp, es, flag, sp', mval[num + 1] == -1);
      es := es + [entry];
      sp, bp, num := sp', bp', num + 1;
    }
    SplitDone(subject, multirdn, es, mval[num] == -1);
    HoldsAll(buf[..bp], buf[..], kinds[..num], values[..num], mval[..num], es);
    ok := true;
  }

  lemma AfterNone(r: Option<seq<Entry>>)
    ensures After([], r) == r
  {
    if r.Some? {
      assert [] + r.value == r.value;
    }
  }

  lemma AfterCons(es: seq<Entry>, e: Entry, r: Option<seq<Entry>>)
    ensures After(es, Cons(e, r)) == After(es + [e], r)
  {
    if r.Some? {
      assert es + ([e] + r.value) == es + [e] + r.value;
    }
  }

  lemma SplitNothing(multi: bool, multi': bool, multirdn: bool)
    ensures Split("", multi, multirdn) == Split("", multi', multirdn) == Some([])
  {
  }

  lemma HoldsAll(buf: seq<char>, more: seq<char>, kinds: seq<nat>, values: seq<nat>, mval: seq<int>, es: seq<Entry>)
    requires Holds(buf, kinds, values, mval, es) && buf <= more
    ensures Holds(more, kinds, values, mval, es)
  {
    hide StringAt;
    forall k | 0 <= k < |es|
      ensures StringAt(more, kinds[k], es[k].kind) && StringAt(more, values[k], es[k].value)
    {
      StringStays(buf, more, kinds[k], es[k].kind);
      StringStays(buf, more, values[k], es[k].value);
    }
  }
}
