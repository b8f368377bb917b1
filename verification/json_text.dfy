/** JSON values, the text that json-lib.c produces for them, and a parser for
    JSON texts after RFC 8259, sections 2 to 5 and 7. */
module JsonText {
  import opened Wrappers

  datatype Json =
    | Str(s: string)
    | Num(n: int)
    | Obj(members: seq<Member>)
    | Arr(elems: seq<Json>)

  datatype Member = Member(name: string, value: Json)

  /** What the library can print without escapes: strings of characters that
      stand for themselves, integers of 64 bits, and arrays only as the value of
      an attribute. */
  predicate IsPlain(c: char) {
    c >= ' ' && c != '"' && c != '\\'
  }

  predicate Plain(s: string) {
    forall i :: 0 <= i < |s| ==> IsPlain(s[i])
  }

  predicate Printable(v: Json)
    decreases v, 1
  {
    match v
    case Str(s) => Plain(s)
    case Num(n) => -0x8000_0000_0000_0000 <= n < 0x1_0000_0000_0000_0000
    case Obj(ms) => PrintableMembers(ms)
    case Arr(es) => PrintableElems(es)
  }

  predicate PrintableMembers(ms: seq<Member>)
    decreases ms, 0
  {
    ms == [] || (Plain(ms[0].name) && Printable(FirstValue(ms)) && PrintableMembers(ms[1..]))
  }

  predicate PrintableElems(es: seq<Json>)
    decreases es, 0
  {
    es == [] || (!es[0].Arr? && Printable(es[0]) && PrintableElems(es[1..]))
  }

  function FirstValue(ms: seq<Member>): (v: Json)
    requires ms != []
    ensures ms decreases to v
  {
    assert ms decreases to ms[0];
    ms[0].value
  }

  // ---- text ----

  function Spaces(n: nat): (s: string)
    ensures |s| == n && AllWs(s)
  {
    seq(n, _ => ' ')
  }

  function DigitChar(d: nat): char
    requires d < 10
  {
    '0' + d as char
  }

  function NatText(n: nat): (s: string)
    ensures s != []
  {
    if n < 10 then [DigitChar(n)] else NatText(n / 10) + [DigitChar(n % 10)]
  }

  function IntText(n: int): string {
    if n < 0 then "-" + NatText(-n) else NatText(n)
  }

  function Quoted(s: string): string {
    "\"" + s + "\""
  }

  /** A value as it follows an attribute's name; indent is the indent level of
      the line it starts on. */
  function ValueText(v: Json, indent: nat): string
    decreases v, 1
  {
    match v
    case Str(s) => Quoted(s)
    case Num(n) => IntText(n)
    case Obj(ms) => "{\n" + MembersText(ms, indent + 1, true) + "\n" + Spaces(indent) + "}"
    case Arr(es) => "[" + ElemsText(es, indent + 1, true) + "]"
  }

  /** Attributes on lines of their own; FIRST tells that none has gone before. */
  function MembersText(ms: seq<Member>, indent: nat, first: bool): string
    decreases ms, 0
  {
    if ms == [] then ""
    else
      (if first then "" else ",\n") + Spaces(indent) + Quoted(ms[0].name) + ": "
      + ValueText(FirstValue(ms), indent) + MembersText(ms[1..], indent, false)
  }

  /** The white space before an element: objects start on a new line. */
  function Lead(e: Json, indent: nat, first: bool): (s: string)
    ensures AllWs(s)
  {
    if e.Obj? then "\n" + Spaces(indent) else if first then "" else " "
  }

  function ElemsText(es: seq<Json>, indent: nat, first: bool): string
    decreases es, 0
  {
    if es == [] then ""
    else
      (if first then "" else ",") + Lead(es[0], indent, first) + ValueText(es[0], indent)
      + ElemsText(es[1..], indent, false)
  }

  function DocText(ms: seq<Member>, indent: nat): string {
    Spaces(indent) + "{\n" + MembersText(ms, indent + 1, true) + Spaces(indent) + "\n}"
  }

  // ---- parsing ----

  predicate IsWs(c: char) {
    c == ' ' || c == '\t' || c == '\n' || c == '\r'
  }

  predicate AllWs(s: string) {
    forall i :: 0 <= i < |s| ==> IsWs(s[i])
  }

  predicate IsDigit(c: char) {
    '0' <= c <= '9'
  }

  function SkipWs(s: string): (r: string)
    ensures |r| <= |s|
  {
    if s != [] && IsWs(s[0]) then SkipWs(s[1..]) else s
  }

  /** A parsed part and the text after it. */
  datatype Parsed<T> = Parsed(value: T, rest: string)

  /** The characters up to the closing quotation mark. */
  function ParseChars(s: string): (r: Option<Parsed<string>>)
    ensures r.Some? ==> |r.value.rest| < |s|
  {
    if s == [] then None
    else if s[0] == '"' then Some(Parsed("", s[1..]))
    else if !IsPlain(s[0]) then None
    else
      var r := ParseChars(s[1..]);
      if r.None? then None else Some(Parsed([s[0]] + r.value.value, r.value.rest))
  }

  function ParseString(s: string): (r: Option<Parsed<string>>)
    ensures r.Some? ==> |r.value.rest| < |s|
  {
    if s == [] || s[0] != '"' then None else ParseChars(s[1..])
  }

  function DigitRun(s: string): (n: nat)
    ensures n <= |s| && forall i :: 0 <= i < n ==> IsDigit(s[i])
  {
    if s != [] && IsDigit(s[0]) then 1 + DigitRun(s[1..]) else 0
  }

  function NatValue(s: string): nat
    requires forall i :: 0 <= i < |s| ==> IsDigit(s[i])
  {
    if s == [] then 0
    else
      assert IsDigit(s[|s| - 1]);
      NatValue(s[..|s| - 1]) * 10 + (s[|s| - 1] as int - '0' as int)
  }

  /** The int part of a number: digits, without a superfluous leading zero. */
  function ParseNat(s: string): (r: Option<Parsed<nat>>)
    ensures r.Some? ==> |r.value.rest| < |s|
  {
    var n := DigitRun(s);
    if n == 0 || (n > 1 && s[0] == '0') then None else Some(Parsed(NatValue(s[..n]), s[n..]))
  }

  /** An integer. A fraction or exponent behind it is not accepted. */
  function ParseInt(s: string): (r: Option<Parsed<int>>)
    ensures r.Some? ==> |r.value.rest| < |s|
  {
    var neg := s != [] && s[0] == '-';
    var r := ParseNat(if neg then s[1..] else s);
    if r.None? || (r.value.rest != [] && r.value.rest[0] in ".eE") then None
    else
      var n: int := r.value.value;
      Some(Parsed(if neg then -n else n, r.value.rest))
  }

  /** A value; white space in front of it has been skipped. */
  function ParseValue(s: string): (r: Option<Parsed<Json>>)
    ensures r.Some? ==> |r.value.rest| < |s|
    decreases |s|, 1
  {
    if s == [] then None
    else if s[0] == '"' then
      var r := ParseString(s);
      if r.None? then None else Some(Parsed(Str(r.value.value), r.value.rest))
    else if s[0] == '{' then
      var t := SkipWs(s[1..]);
      if t != [] && t[0] == '}' then Some(Parsed(Obj([]), t[1..]))
      else
        var r := ParseMembers(t);
        if r.None? then None else Some(Parsed(Obj(r.value.value), r.value.rest))
    else if s[0] == '[' then
      var t := SkipWs(s[1..]);
      if t != [] && t[0] == ']' then Some(Parsed(Arr([]), t[1..]))
      else
        var r := ParseElems(t);
        if r.None? then None else Some(Parsed(Arr(r.value.value), r.value.rest))
    else
      var r := ParseInt(s);
      if r.None? then None else Some(Parsed(Num(r.value.value), r.value.rest))
  }

  /** Members up to and including the closing brace. */
  function ParseMembers(s: string): (r: Option<Parsed<seq<Member>>>)
    ensures r.Some? ==> |r.value.rest| < |s|
    decreases |s|, 0
  {
    var name := ParseString(s);
    if name.None? then None else
    var colon := SkipWs(name.value.rest);
    if colon == [] || colon[0] != ':' then None else
    var v := ParseValue(SkipWs(colon[1..]));
    if v.None? then None else
    var t := SkipWs(v.value.rest);
    var m := Member(name.value.value, v.value.value);
    if t == [] then None
    else if t[0] == '}' then Some(Parsed([m], t[1..]))
    else if t[0] != ',' then None
    else
      var more := ParseMembers(SkipWs(t[1..]));
      if more.None? then None else Some(Parsed([m] + more.value.value, more.value.rest))
  }

  /** Elements up to and including the closing bracket. */
  function ParseElems(s: string): (r: Option<Parsed<seq<Json>>>)
    ensures r.Some? ==> |r.value.rest| < |s|
    decreases |s|, 2
  {
    var v := ParseValue(s);
    if v.None? then None else
    var t := SkipWs(v.value.rest);
    if t == [] then None
    else if t[0] == ']' then Some(Parsed([v.value.value], t[1..]))
    else if t[0] != ',' then None
    else
      var more := ParseElems(SkipWs(t[1..]));
      if more.None? then None else Some(Parsed([v.value.value] + more.value.value, more.value.rest))
  }

  /** A JSON text: one value with nothing but white space around it. */
  function ParseText(s: string): Option<Json> {
    var r := ParseValue(SkipWs(s));
    if r.Some? && SkipWs(r.value.rest) == [] then Some(r.value.value) else None
  }
}
