/** Parsing what the library prints returns the value that was printed. */
module JsonTrip {
  import opened Wrappers
  import opened JsonText
  import opened Sequences

  // ---- white space, strings, numbers ----

  ghost predicate NoWsFirst(s: string) {
    s != [] ==> !IsWs(s[0])
  }

  lemma {:induction false} SkipAllWs(w: string, s: string)
    requires AllWs(w) && NoWsFirst(s)
    ensures SkipWs(w + s) == s
  {
    if w == [] {
      assert w + s == s;
    } else {
      assert (w + s)[0] == w[0] && (w + s)[1..] == w[1..] + s;
      SkipAllWs(w[1..], s);
    }
  }

  lemma {:induction false} CharsTrip(s: string, t: string)
    requires Plain(s)
    ensures ParseChars(s + "\"" + t) == Some(Parsed(s, t))
  {
    var all := s + "\"" + t;
    if s == [] {
      assert all == ['"'] + t && all[1..] == t;
    } else {
      assert all[0] == s[0] && IsPlain(s[0]) && all[1..] == s[1..] + "\"" + t;
      CharsTrip(s[1..], t);
      assert [s[0]] + s[1..] == s;
    }
  }

  lemma StringTrip(s: string, t: string)
    requires Plain(s)
    ensures ParseString(Quoted(s) + t) == Some(Parsed(s, t))
  {
    assert (Quoted(s) + t)[1..] == s + "\"" + t;
    CharsTrip(s, t);
  }

  /** The text after a number does not go on with it. */
  ghost predicate Stops(t: string) {
    t != [] ==> !IsDigit(t[0]) && t[0] !in ".eE"
  }

  lemma {:induction false} NatTextValue(n: nat)
    ensures forall i :: 0 <= i < |NatText(n)| ==> IsDigit(NatText(n)[i])
    ensures NatValue(NatText(n)) == n
    ensures |NatText(n)| > 1 ==> NatText(n)[0] != '0'
    ensures n > 0 ==> NatText(n)[0] != '0'
  {
    var s := NatText(n);
    if n < 10 {
      assert s[..0] == [];
    } else {
      NatTextValue(n / 10);
      assert s[..|s| - 1] == NatText(n / 10);
    }
  }

  lemma {:induction false} DigitRunIs(d: string, t: string)
    requires (forall i :: 0 <= i < |d| ==> IsDigit(d[i])) && Stops(t)
    ensures DigitRun(d + t) == |d|
  {
    if d == [] {
      assert d + t == t;
    } else {
      assert (d + t)[1..] == d[1..] + t && (d + t)[0] == d[0];
      DigitRunIs(d[1..], t);
    }
  }

  lemma NatTrip(n: nat, t: string)
    requires Stops(t)
    ensures ParseNat(NatText(n) + t) == Some(Parsed(n, t))
  {
    var d := NatText(n);
    NatTextValue(n);
    DigitRunIs(d, t);
    assert (d + t)[..|d|] == d && (d + t)[|d|..] == t && (d + t)[0] == d[0];
  }

  lemma IntTrip(n: int, t: string)
    requires Stops(t)
    ensures ParseInt(IntText(n) + t) == Some(Parsed(n, t))
  {
    hide NatText, ParseNat;
    if n < 0 {
      NatTrip(-n, t);
      ConcatAssoc("-", NatText(-n), t);
      Cons('-', NatText(-n) + t);
    } else {
      NatTrip(n, t);
      NatTextValue(n);
      assert (IntText(n) + t)[0] == NatText(n)[0];
    }
  }

  /** How a value's text begins. */
  lemma ValueStart(v: Json, indent: nat)
    ensures var s := ValueText(v, indent);
            s != [] && !IsWs(s[0]) && s[0] != ']' && s[0] != '}'
            && match v case Str(_) => s[0] == '"' case Obj(_) => s[0] == '{' case Arr(_) => s[0] == '['
                       case Num(_) => s[0] != '"' && s[0] != '{' && s[0] != '['
  {
    if v.Num? {
      NatTextValue(if v.n < 0 then -v.n else v.n);
    }
  }

  // ---- members and elements ----

  /** The text of a nonempty list of members from the first name on. */
  function MembersBody(ms: seq<Member>, indent: nat): string
    requires ms != []
  {
    Quoted(ms[0].name) + ": " + ValueText(FirstValue(ms), indent) + MembersText(ms[1..], indent, false)
  }

  function ElemsBody(es: seq<Json>, indent: nat): string
    requires es != []
  {
    ValueText(es[0], indent) + ElemsText(es[1..], indent, false)
  }

  // The first characters of a concatenation.

  lemma Pair(c: char, d: char, x: string)
    ensures ([c, d] + x)[0] == c && ([c, d] + x)[1..] == [d] + x
  {}

  lemma Cons(c: char, x: string)
    ensures ([c] + x)[0] == c && ([c] + x)[1..] == x
  {}

  lemma MembersTextIs(ms: seq<Member>, indent: nat, first: bool)
    requires ms != []
    ensures MembersText(ms, indent, first) == (if first then "" else ",\n") + (Spaces(indent) + MembersBody(ms, indent))
    ensures MembersBody(ms, indent)
            == Quoted(ms[0].name) + (": " + (ValueText(FirstValue(ms), indent) + MembersText(ms[1..], indent, false)))
    ensures MembersBody(ms, indent) != [] && MembersBody(ms, indent)[0] == '"'
  {
    hide ValueText, Quoted;
    var sep := if first then "" else ",\n";
    var i, q := Spaces(indent), Quoted(ms[0].name);
    var v, m := ValueText(FirstValue(ms), indent), MembersText(ms[1..], indent, false);
    ConcatAssoc(q, ": ", v + m);
    ConcatAssoc(q + ": ", v, m);
    ConcatAssoc(sep, i, q);
    ConcatAssoc(sep, i + q, ": ");
    ConcatAssoc(sep, i + q + ": ", v);
    ConcatAssoc(sep, i + q + ": " + v, m);
    ConcatAssoc(i, q, ": ");
    ConcatAssoc(i, q + ": ", v);
    ConcatAssoc(i, q + ": " + v, m);
    QuotedStart(ms[0].name);
  }

  lemma QuotedStart(x: string)
    ensures Quoted(x) != [] && Quoted(x)[0] == '"'
  {}

  lemma ElemsTextIs(es: seq<Json>, indent: nat, first: bool)
    requires es != []
    ensures ElemsText(es, indent, first)
            == (if first then "" else ",") + (Lead(es[0], indent, first) + ElemsBody(es, indent))
  {
    hide ValueText, Lead;
    var sep := if first then "" else ",";
    var l, v, m := Lead(es[0], indent, first), ValueText(es[0], indent), ElemsText(es[1..], indent, false);
    ConcatAssoc(sep, l, v);
    ConcatAssoc(sep, l + v, m);
    ConcatAssoc(l, v, m);
  }

  /** What follows a value in an object or array: the tail END, which closes it,
      behind white space W. */
  lemma AfterLast(w: string, end: string)
    requires AllWs(w) && end != [] && (end[0] == '}' || end[0] == ']')
    ensures Stops(w + end) && SkipWs(w + end) == end
  {
    SkipAllWs(w, end);
    if w != [] {
      assert IsWs(w[0]);
    } else {
      assert w + end == end;
    }
  }

  /** The rest of a nonempty list of members after the separating comma. */
  lemma NextMember(ms: seq<Member>, indent: nat, tail: string)
    requires ms != []
    ensures var s := MembersText(ms, indent, false) + tail;
            && s != [] && s[0] == ',' && Stops(s) && SkipWs(s) == s
            && SkipWs(s[1..]) == MembersBody(ms, indent) + tail
  {
    hide MembersText, Spaces;
    MembersTextIs(ms, indent, false);
    var w, body := Spaces(indent), MembersBody(ms, indent);
    ConcatAssoc(",\n", w + body, tail);
    ConcatAssoc(w, body, tail);
    Pair(',', '\n', w + (body + tail));
    ConcatAssoc("\n", w, body + tail);
    SkipAllWs("\n" + w, body + tail);
  }

  lemma NextElem(es: seq<Json>, indent: nat, tail: string)
    requires es != []
    ensures var s := ElemsText(es, indent, false) + tail;
            && s != [] && s[0] == ',' && Stops(s) && SkipWs(s) == s
            && SkipWs(s[1..]) == ElemsBody(es, indent) + tail
  {
    hide ElemsText, Lead;
    ElemsTextIs(es, indent, false);
    ValueStart(es[0], indent);
    var w, body := Lead(es[0], indent, false), ElemsBody(es, indent);
    ConcatAssoc(",", w + body, tail);
    ConcatAssoc(w, body, tail);
    Cons(',', w + (body + tail));
    SkipAllWs(w, body + tail);
  }

  // ---- the round trip ----

  lemma {:induction false} ValueTrip(v: Json, indent: nat, t: string)
    requires Printable(v) && Stops(t)
    ensures ParseValue(ValueText(v, indent) + t) == Some(Parsed(v, t))
    decreases v, 1
  {
    hide ParseString, ParseInt, ParseMembers, ParseElems, MembersText, ElemsText, MembersBody, ElemsBody, IntText;
    hide SkipWs;
    match v {
      case Str(x) => StringTrip(x, t);
      case Num(n) =>
        ValueStart(v, indent);
        assert (IntText(n) + t)[0] == IntText(n)[0];
        IntTrip(n, t);
      case Obj(ms) =>
        ObjectOpens(ms, indent, t);
        Cons('}', t);
        if ms != [] {
          MembersTextIs(ms, indent + 1, true);
          MembersTrip(ms, indent + 1, "\n" + Spaces(indent), t);
        }
      case Arr(es) =>
        ArrayOpens(es, indent, t);
        Cons(']', t);
        if es != [] {
          ElemsTrip(es, indent + 1, t);
        }
    }
  }

  /** An object that ends with white space W and a brace, after its opening. */
  lemma BraceOpens(ms: seq<Member>, indent: nat, w: string, t: string)
    requires AllWs(w)
    ensures var s := "{\n" + (MembersText(ms, indent, true) + (w + ("}" + t)));
            && s[0] == '{'
            && SkipWs(s[1..]) == if ms == [] then "}" + t else MembersBody(ms, indent) + (w + ("}" + t))
  {
    hide MembersText, Spaces;
    var body, end := MembersText(ms, indent, true), w + ("}" + t);
    Pair('{', '\n', body + end);
    if ms == [] {
      assert body + end == end by { NoMembers(indent, true); }
      ConcatAssoc("\n", w, "}" + t);
      SkipAllWs("\n" + w, "}" + t);
    } else {
      MembersTextIs(ms, indent, true);
      var i, b := Spaces(indent), MembersBody(ms, indent);
      assert body == i + b;
      ConcatAssoc(i, b, end);
      ConcatAssoc("\n", i, b + end);
      SkipAllWs("\n" + i, b + end);
    }
  }

  lemma NoMembers(indent: nat, first: bool)
    ensures MembersText([], indent, first) == [] && ElemsText([], indent, first) == []
  {}

  lemma ObjectOpens(ms: seq<Member>, indent: nat, t: string)
    ensures var s, w := ValueText(Obj(ms), indent) + t, "\n" + Spaces(indent);
            && s != [] && s[0] == '{' && AllWs(w)
            && SkipWs(s[1..]) == if ms == [] then "}" + t else MembersBody(ms, indent + 1) + (w + ("}" + t))
  {
    var i, body := Spaces(indent), MembersText(ms, indent + 1, true);
    hide MembersText, Spaces, MembersBody;
    var w := "\n" + i;
    assert ValueText(Obj(ms), indent) == "{\n" + body + "\n" + i + "}";
    ConcatAssoc("{\n", body, "\n");
    ConcatAssoc("{\n" + body, "\n", i);
    ConcatAssoc("{\n" + body, w, "}");
    ConcatAssoc("{\n" + body, w + "}", t);
    ConcatAssoc(w, "}", t);
    ConcatAssoc("{\n", body, w + ("}" + t));
    BraceOpens(ms, indent + 1, w, t);
  }

  lemma ArrayOpens(es: seq<Json>, indent: nat, t: string)
    ensures var s := ValueText(Arr(es), indent) + t;
            && s != [] && s[0] == '['
            && SkipWs(s[1..]) == if es == [] then "]" + t else ElemsBody(es, indent + 1) + ("]" + t)
    ensures es != [] ==> ElemsBody(es, indent + 1) != [] && ElemsBody(es, indent + 1)[0] != ']'
  {
    var body := ElemsText(es, indent + 1, true);
    hide ElemsText, Lead;
    assert ValueText(Arr(es), indent) == "[" + body + "]";
    ConcatAssoc("[", body, "]");
    ConcatAssoc("[", body + "]", t);
    ConcatAssoc(body, "]", t);
    Cons('[', body + ("]" + t));
    if es == [] {
      NoMembers(indent + 1, true);
      assert body + ("]" + t) == "]" + t;
    } else {
      ElemsTextIs(es, indent + 1, true);
      ValueStart(es[0], indent + 1);
      var l, b := Lead(es[0], indent + 1, true), ElemsBody(es, indent + 1);
      assert body == l + b;
      ConcatAssoc(l, b, "]" + t);
      SkipAllWs(l, b + ("]" + t));
    }
  }

  lemma {:induction false} MembersTrip(ms: seq<Member>, indent: nat, w: string, t: string)
    requires ms != [] && PrintableMembers(ms) && AllWs(w)
    ensures ParseMembers(MembersBody(ms, indent) + (w + ("}" + t))) == Some(Parsed(ms, t))
    decreases ms, 0
  {
    hide ParseMembers, ParseValue, SkipWs, ValueText, MembersText, Quoted;
    var end := w + ("}" + t);
    var v, more := FirstValue(ms), MembersText(ms[1..], indent, false);
    var rest := more + end;
    var value := ValueText(v, indent) + rest;
    assert MembersBody(ms, indent) + end == Quoted(ms[0].name) + (": " + value) by {
      MembersTextIs(ms, indent, true);
      ConcatAssoc(Quoted(ms[0].name), ": " + (ValueText(v, indent) + more), end);
      ConcatAssoc(": ", ValueText(v, indent) + more, end);
      ConcatAssoc(ValueText(v, indent), more, end);
    }
    assert ParseString(Quoted(ms[0].name) + (": " + value)) == Some(Parsed(ms[0].name, ": " + value)) by {
      StringTrip(ms[0].name, ": " + value);
    }
    AfterColon(v, indent, rest);
    assert Stops(rest) by { RestStops(ms[1..], indent, w, t); }
    assert ParseValue(value) == Some(Parsed(v, rest)) by { ValueTrip(v, indent, rest); }
    assert ms == [Member(ms[0].name, v)] + ms[1..];
    RestStops(ms[1..], indent, w, t);
    Cons('}', t);
    OneMember(MembersBody(ms, indent) + end, ms[0].name, ": " + value, value, v, rest);
    if ms[1..] == [] {
      assert ms == [Member(ms[0].name, v)];
    }
    if ms[1..] != [] {
      assert ParseMembers(MembersBody(ms[1..], indent) + end) == Some(Parsed(ms[1..], t)) by {
        MembersTrip(ms[1..], indent, w, t);
      }
    }
  }

  /** ParseMembers, given what its parts return. */
  lemma OneMember(s: string, name: string, after: string, value: string, v: Json, rest: string)
    requires ParseString(s) == Some(Parsed(name, after))
    requires SkipWs(after) != [] && SkipWs(after)[0] == ':' && SkipWs(SkipWs(after)[1..]) == value
    requires ParseValue(value) == Some(Parsed(v, rest)) && SkipWs(rest) != []
    ensures SkipWs(rest)[0] == '}' ==> ParseMembers(s) == Some(Parsed([Member(name, v)], SkipWs(rest)[1..]))
    ensures SkipWs(rest)[0] == ',' && ParseMembers(SkipWs(SkipWs(rest)[1..])).Some? ==>
              var more := ParseMembers(SkipWs(SkipWs(rest)[1..])).value;
              ParseMembers(s) == Some(Parsed([Member(name, v)] + more.value, more.rest))
  {
    hide ParseValue, SkipWs;
  }

  lemma OneElem(s: string, v: Json, rest: string)
    requires ParseValue(s) == Some(Parsed(v, rest)) && SkipWs(rest) != []
    ensures SkipWs(rest)[0] == ']' ==> ParseElems(s) == Some(Parsed([v], SkipWs(rest)[1..]))
    ensures SkipWs(rest)[0] == ',' && ParseElems(SkipWs(SkipWs(rest)[1..])).Some? ==>
              var more := ParseElems(SkipWs(SkipWs(rest)[1..])).value;
              ParseElems(s) == Some(Parsed([v] + more.value, more.rest))
  {
    hide ParseValue, SkipWs;
  }

  lemma AfterColon(v: Json, indent: nat, rest: string)
    ensures var s, value := ": " + (ValueText(v, indent) + rest), ValueText(v, indent) + rest;
            SkipWs(s) == s && s[0] == ':' && SkipWs(s[1..]) == value
  {
    hide ValueText;
    var value := ValueText(v, indent) + rest;
    ValueStart(v, indent);
    Pair(':', ' ', value);
    SkipAllWs(" ", value);
  }

  lemma RestStops(ms: seq<Member>, indent: nat, w: string, t: string)
    requires AllWs(w)
    ensures var rest := MembersText(ms, indent, false) + (w + ("}" + t));
            && Stops(rest)
            && (ms == [] ==> SkipWs(rest) == "}" + t)
            && (ms != [] ==> rest != [] && rest[0] == ',' && SkipWs(rest) == rest
                             && SkipWs(rest[1..]) == MembersBody(ms, indent) + (w + ("}" + t)))
  {
    if ms == [] {
      Cons('}', t);
      AfterLast(w, "}" + t);
      assert "" + (w + ("}" + t)) == w + ("}" + t);
    } else {
      NextMember(ms, indent, w + ("}" + t));
    }
  }

  lemma {:induction false} ElemsTrip(es: seq<Json>, indent: nat, t: string)
    requires es != [] && PrintableElems(es)
    ensures ParseElems(ElemsBody(es, indent) + ("]" + t)) == Some(Parsed(es, t))
    decreases es, 0
  {
    hide ParseElems, ParseValue, SkipWs, ValueText, ElemsText;
    var more, end := ElemsText(es[1..], indent, false), "]" + t;
    var rest := more + end;
    ConcatAssoc(ValueText(es[0], indent), more, end);
    Cons(']', t);
    if es[1..] == [] {
      NoMembers(indent, false);
      assert rest == end && "" + end == end;
      AfterLast("", end);
    } else {
      NextElem(es[1..], indent, end);
    }
    assert ParseValue(ValueText(es[0], indent) + rest) == Some(Parsed(es[0], rest)) by {
      ValueTrip(es[0], indent, rest);
    }
    assert es == [es[0]] + es[1..];
    OneElem(ElemsBody(es, indent) + end, es[0], rest);
    if es[1..] == [] {
      assert es == [es[0]];
    }
    if es[1..] != [] {
      assert ParseElems(ElemsBody(es[1..], indent) + end) == Some(Parsed(es[1..], t)) by {
        ElemsTrip(es[1..], indent, t);
      }
    }
  }

  /** The text of a whole document parses to the document's object. */
  lemma DocumentTrip(ms: seq<Member>, indent: nat)
    requires PrintableMembers(ms)
    ensures ParseText(DocText(ms, indent)) == Some(Obj(ms))
  {
    hide MembersText, Spaces, MembersBody, ParseValue, SkipWs;
    var i, w := Spaces(indent), Spaces(indent) + "\n";
    var inner := "{\n" + (MembersText(ms, indent + 1, true) + (w + ("}" + [])));
    DocShape(ms, indent);
    assert inner[0] == '{' by { Pair('{', '\n', MembersText(ms, indent + 1, true) + (w + ("}" + []))); }
    SkipAllWs(i, inner);
    ObjectTrip(ms, indent, w);
    assert SkipWs([]) == [] by { SkipAllWs([], []); }
  }

  /** An object that ends with white space W and a brace. */
  lemma ObjectTrip(ms: seq<Member>, indent: nat, w: string)
    requires PrintableMembers(ms) && AllWs(w)
    ensures ParseValue("{\n" + (MembersText(ms, indent + 1, true) + (w + ("}" + [])))) == Some(Parsed(Obj(ms), []))
  {
    hide MembersText, Spaces, MembersBody, ParseMembers, SkipWs;
    BraceOpens(ms, indent + 1, w, []);
    Cons('}', []);
    if ms != [] {
      MembersTrip(ms, indent + 1, w, []);
      MembersTextIs(ms, indent + 1, true);
    }
  }

  lemma DocShape(ms: seq<Member>, indent: nat)
    ensures DocText(ms, indent)
            == Spaces(indent) + ("{\n" + (MembersText(ms, indent + 1, true) + ((Spaces(indent) + "\n") + ("}" + []))))
  {
    var i, body := Spaces(indent), MembersText(ms, indent + 1, true);
    hide MembersText, Spaces;
    assert "\n}" == "\n" + ("}" + []);
    ConcatAssoc(i, "\n", "}" + []);
    ConcatAssoc(i + "{\n" + body, i, "\n}");
    ConcatAssoc(i + "{\n", body, i + "\n}");
    ConcatAssoc(i, "{\n", body + (i + "\n}"));
  }
}
