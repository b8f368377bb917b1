/** json-lib.c: a printer whose only memory is an indent level and a flag, and
    what it prints for any well-nested sequence of calls. */
module JsonLib {
  import opened Wrappers
  import opened JsonText
  import opened JsonTrip
  import opened Sequences

  type uint64 = n: int | 0 <= n < 0x1_0000_0000_0000_0000
  type int64 = n: int | -0x8000_0000_0000_0000 <= n < 0x8000_0000_0000_0000

  /** An open object or array, and whether nothing has been put into it yet. */
  datatype Frame = Frame(isArray: bool, empty: bool)

  class JsonCtx {
    var indentLevel: nat
    var firstElement: bool
    /** What has been written to the stream. */
    var out: string
    ghost const base: nat
    ghost var open: seq<Frame>

    /** The level counts the open containers; the flag tells whether the
        innermost one is empty. */
    ghost predicate Valid()
      reads this
    {
      && indentLevel == base + |open|
      && (open != [] ==> firstElement == Top().empty)
      && forall i :: 0 <= i < |open| - 1 ==> !open[i].empty
    }

    ghost function Top(): Frame
      requires open != []
      reads this
    {
      open[|open| - 1]
    }

    ghost predicate InObject()
      reads this
    {
      Valid() && open != [] && !Top().isArray
    }

    ghost predicate InArray()
      reads this
    {
      Valid() && open != [] && Top().isArray
    }

    /** The open containers, with something in the innermost one. */
    ghost function Filled(): seq<Frame>
      requires open != []
      reads this
    {
      open[|open| - 1 := Top().(empty := false)]
    }

    /** json_init. */
    constructor (indentLevel: nat)
      ensures Valid() && open == [] && base == indentLevel && out == "" && firstElement
    {
      this.indentLevel, firstElement, out := indentLevel, true, "";
      base, open := indentLevel, [];
    }

    method Fputs(s: string)
      modifies this`out
      ensures out == old(out) + s
    {
      out := out + s;
    }

    method DoIndent()
      modifies this`out
      ensures out == old(out) + Spaces(indentLevel)
    {
      Fputs(Spaces(indentLevel));
    }

    method DocumentBegin()
      requires Valid() && open == []
      modifies this
      ensures InObject() && open == [Frame(false, true)] && firstElement
      ensures out == old(out) + (Spaces(base) + "{\n")
    {
      DoIndent();
      Fputs("{\n");
      indentLevel := indentLevel + 1;
      firstElement := true;
      open := [Frame(false, true)];
    }

    method DocumentEnd()
      requires InObject() && |open| == 1
      modifies this
      ensures Valid() && open == []
      ensures out == old(out) + (Spaces(base) + "\n}")
    {
      indentLevel := indentLevel - 1;
      DoIndent();
      Fputs("\n}");
      open := [];
    }

    /** The comma and indentation before an attribute, and its name. */
    ghost function AttrStart(name: string): string
      reads this
    {
      (if firstElement then "" else ",\n") + Spaces(indentLevel) + Quoted(name) + ": "
    }

    method AttrObjectBegin(name: string)
      requires InObject()
      modifies this
      ensures InObject() && open == old(Filled()) + [Frame(false, true)]
      ensures out == old(out) + (old(AttrStart(name)) + "{\n")
    {
      ghost var o := out;
      if !firstElement {
        Fputs(",\n");
      }
      DoIndent();
      Fputs("\"" + name + "\": {\n");
      Cats(o, if firstElement then "" else ",\n", Spaces(indentLevel), name, "{\n");
      open := Filled() + [Frame(false, true)];
      indentLevel := indentLevel + 1;
      firstElement := true;
    }

    method AttrObjectEnd()
      requires InObject() && |open| >= 2 && !open[|open| - 2].isArray
      modifies this
      ensures Valid() && open == old(open[..|open| - 1])
      ensures out == old(out) + ("\n" + Spaces(indentLevel) + "}")
    {
      indentLevel := indentLevel - 1;
      firstElement := false;
      Fputs("\n");
      DoIndent();
      Fputs("}");
      open := open[..|open| - 1];
    }

    method AttrText(name: string, text: string)
      requires InObject()
      modifies this
      ensures Valid() && open == old(Filled())
      ensures out == old(out) + (old(AttrStart(name)) + text)
    {
      ghost var o, first := out, firstElement;
      if !firstElement {
        Fputs(",\n");
      } else {
        firstElement := false;
      }
      DoIndent();
      Fputs("\"" + name + "\": " + text);
      Cats(o, if first then "" else ",\n", Spaces(indentLevel), name, text);
      open := Filled();
    }

    method AttrString(name: string, s: string)
      requires InObject()
      modifies this
      ensures Valid() && open == old(Filled())
      ensures out == old(out) + (old(AttrStart(name)) + Quoted(s))
    {
      AttrText(name, Quoted(s));
    }

    method AttrUint(name: string, d: uint64)
      requires InObject()
      modifies this
      ensures Valid() && open == old(Filled())
      ensures out == old(out) + (old(AttrStart(name)) + IntText(d))
    {
      AttrText(name, IntText(d));
    }

    method AttrInt(name: string, d: int64)
      requires InObject()
      modifies this
      ensures Valid() && open == old(Filled())
      ensures out == old(out) + (old(AttrStart(name)) + IntText(d))
    {
      AttrText(name, IntText(d));
    }

    method ArrayBegin(name: string)
      requires InObject()
      modifies this
      ensures InArray() && open == old(Filled()) + [Frame(true, true)]
      ensures out == old(out) + (old(AttrStart(name)) + "[")
    {
      ghost var o := out;
      if !firstElement {
        Fputs(",\n");
      }
      DoIndent();
      Fputs("\"" + name + "\": [");
      Cats(o, if firstElement then "" else ",\n", Spaces(indentLevel), name, "[");
      open := Filled() + [Frame(true, true)];
      indentLevel := indentLevel + 1;
      firstElement := true;
    }

    method ArrayEnd()
      requires InArray() && |open| >= 2
      modifies this
      ensures Valid() && open == old(open[..|open| - 1])
      ensures out == old(out) + "]"
    {
      indentLevel := indentLevel - 1;
      firstElement := false;
      Fputs("]");
      open := open[..|open| - 1];
    }

    method ElementText(text: string)
      requires InArray()
      modifies this
      ensures Valid() && open == old(Filled())
      ensures out == old(out) + ((if old(firstElement) then "" else ", ") + text)
    {
      if !firstElement {
        Fputs(", " + text);
      } else {
        Fputs(text);
        firstElement := false;
      }
      open := Filled();
    }

    method ElementString(s: string)
      requires InArray()
      modifies this
      ensures Valid() && open == old(Filled())
      ensures out == old(out) + ((if old(firstElement) then "" else ", ") + Quoted(s))
    {
      ElementText(Quoted(s));
    }

    method ElementUint(d: uint64)
      requires InArray()
      modifies this
      ensures Valid() && open == old(Filled())
      ensures out == old(out) + ((if old(firstElement) then "" else ", ") + IntText(d))
    {
      ElementText(IntText(d));
    }

    method ElementInt(d: int64)
      requires InArray()
      modifies this
      ensures Valid() && open == old(Filled())
      ensures out == old(out) + ((if old(firstElement) then "" else ", ") + IntText(d))
    {
      ElementText(IntText(d));
    }

    method ElementObjectBegin()
      requires InArray()
      modifies this
      ensures InObject() && open == old(Filled()) + [Frame(false, true)]
      ensures out == old(out) + ((if old(firstElement) then "" else ",") + ("\n" + Spaces(old(indentLevel))) + "{\n")
    {
      if !firstElement {
        Fputs(",");
      }
      Fputs("\n");
      DoIndent();
      Fputs("{\n");
      open := Filled() + [Frame(false, true)];
      indentLevel := indentLevel + 1;
      firstElement := true;
    }

    method ElementObjectEnd()
      requires InObject() && |open| >= 2 && open[|open| - 2].isArray
      modifies this
      ensures Valid() && open == old(open[..|open| - 1])
      ensures out == old(out) + ("\n" + Spaces(indentLevel) + "}")
    {
      indentLevel := indentLevel - 1;
      firstElement := false;
      Fputs("\n");
      DoIndent();
      Fputs("}");
      open := open[..|open| - 1];
    }
  }

  lemma Cats(o: string, sep: string, i: string, name: string, text: string)
    ensures o + sep + i + ("\"" + name + "\": " + text) == o + (sep + i + Quoted(name) + ": " + text)
  {
    assert "\"" + name + "\": " + text == Quoted(name) + ": " + text by {
      assert "\": " == "\"" + ": ";
    }
  }

  // ---- printing a whole tree ----

  lemma AfterFill(open: seq<Frame>, filled: seq<Frame>)
    requires open != [] && filled == open[|open| - 1 := open[|open| - 1].(empty := false)]
    ensures |filled| == |open| && filled[|filled| - 1] == open[|open| - 1].(empty := false)
    ensures filled[|filled| - 1 := filled[|filled| - 1].(empty := false)] == filled
  {}

  /** Print the attributes of an object, one call of the library after the other. */
  method PrintMembers(ctx: JsonCtx, ms: seq<Member>)
    requires ctx.InObject() && PrintableMembers(ms)
    modifies ctx
    ensures ctx.InObject() && ctx.open == if ms == [] then old(ctx.open) else old(ctx.Filled())
    ensures ctx.out == old(ctx.out) + old(MembersText(ms, ctx.indentLevel, ctx.firstElement))
    decreases ms, 0
  {
    hide ValueText, Spaces, Quoted;
    if ms != [] {
      ghost var v, o, start := FirstValue(ms), ctx.out, ctx.AttrStart(ms[0].name);
      ghost var more := MembersText(ms[1..], ctx.indentLevel, false);
      AfterFill(ctx.open, ctx.Filled());
      PrintAttr(ctx, ms[0].name, FirstValue(ms));
      PrintMembers(ctx, ms[1..]);
      ConcatAssoc(o, start + ValueText(v, old(ctx.indentLevel)), more);
    }
  }

  method PrintAttr(ctx: JsonCtx, name: string, v: Json)
    requires ctx.InObject() && Printable(v)
    modifies ctx
    ensures ctx.InObject() && ctx.open == old(ctx.Filled()) && ctx.indentLevel == old(ctx.indentLevel)
    ensures ctx.out == old(ctx.out) + (old(ctx.AttrStart(name)) + old(ValueText(v, ctx.indentLevel)))
    decreases v, 1
  {
    hide Spaces, Quoted, MembersText, ElemsText, IntText, ValueText;
    ghost var o, start, indent := ctx.out, ctx.AttrStart(name), ctx.indentLevel;
    AfterFill(ctx.open, ctx.Filled());
    TextOf(v, indent);
    match v {
      case Str(s) => ctx.AttrString(name, s);
      case Num(n) =>
        if n < 0 {
          ctx.AttrInt(name, n);
        } else {
          ctx.AttrUint(name, n);
        }
      case Obj(ms) =>
        ctx.AttrObjectBegin(name);
        PrintMembers(ctx, ms);
        ctx.AttrObjectEnd();
        ObjPieces(o, start, MembersText(ms, indent + 1, true), Spaces(indent));
      case Arr(es) =>
        ctx.ArrayBegin(name);
        PrintElems(ctx, es);
        ctx.ArrayEnd();
        ArrPieces(o, start, ElemsText(es, indent + 1, true));
    }
  }

  lemma TextOf(v: Json, indent: nat)
    ensures ValueText(v, indent)
            == match v
               case Str(s) => Quoted(s)
               case Num(n) => IntText(n)
               case Obj(ms) => "{\n" + MembersText(ms, indent + 1, true) + "\n" + Spaces(indent) + "}"
               case Arr(es) => "[" + ElemsText(es, indent + 1, true) + "]"
  {}

  lemma ArrPieces(o: string, start: string, body: string)
    ensures o + (start + "[") + body + "]" == o + (start + ("[" + body + "]"))
  {}

  lemma ObjPieces(o: string, start: string, body: string, i: string)
    ensures o + (start + "{\n") + body + ("\n" + i + "}") == o + (start + ("{\n" + body + "\n" + i + "}"))
  {}

  method PrintElems(ctx: JsonCtx, es: seq<Json>)
    requires ctx.InArray() && PrintableElems(es)
    modifies ctx
    ensures ctx.InArray() && ctx.open == if es == [] then old(ctx.open) else old(ctx.Filled())
    ensures ctx.out == old(ctx.out) + old(ElemsText(es, ctx.indentLevel, ctx.firstElement))
    decreases es, 0
  {
    hide ValueText, Spaces, Quoted;
    if es != [] {
      ghost var o, indent, first := ctx.out, ctx.indentLevel, ctx.firstElement;
      ghost var sep, lead := if first then "" else ",", Lead(es[0], indent, first);
      ghost var more := ElemsText(es[1..], indent, false);
      AfterFill(ctx.open, ctx.Filled());
      PrintElem(ctx, es[0]);
      PrintElems(ctx, es[1..]);
      ConcatAssoc(o, sep + lead + ValueText(es[0], indent), more);
    }
  }

  method PrintElem(ctx: JsonCtx, e: Json)
    requires ctx.InArray() && Printable(e) && !e.Arr?
    modifies ctx
    ensures ctx.InArray() && ctx.open == old(ctx.Filled()) && ctx.indentLevel == old(ctx.indentLevel)
    ensures ctx.out == old(ctx.out) + old((if ctx.firstElement then "" else ",")
                                          + Lead(e, ctx.indentLevel, ctx.firstElement) + ValueText(e, ctx.indentLevel))
    decreases e, 1
  {
    hide Spaces, Quoted, MembersText, IntText, ValueText;
    ghost var o, indent, first := ctx.out, ctx.indentLevel, ctx.firstElement;
    AfterFill(ctx.open, ctx.Filled());
    TextOf(e, indent);
    match e {
      case Str(s) => ctx.ElementString(s);
      case Num(n) =>
        if n < 0 {
          ctx.ElementInt(n);
        } else {
          ctx.ElementUint(n);
        }
      case Obj(ms) =>
        ctx.ElementObjectBegin();
        PrintMembers(ctx, ms);
        ctx.ElementObjectEnd();
        ObjPieces(o, (if first then "" else ",") + ("\n" + Spaces(indent)), MembersText(ms, indent + 1, true),
                  Spaces(indent));
    }
  }

  /** A document printed through the library is a text that RFC 8259 maps back to
      the same tree. */
  method PrintDocument(ms: seq<Member>, indent: nat) returns (ctx: JsonCtx)
    requires PrintableMembers(ms)
    ensures ctx.Valid() && ctx.open == [] && ParseText(ctx.out) == Some(Obj(ms))
  {
    ctx := new JsonCtx(indent);
    ctx.DocumentBegin();
    PrintMembers(ctx, ms);
    ctx.DocumentEnd();
    DocPieces(Spaces(indent), MembersText(ms, indent + 1, true));
    DocumentTrip(ms, indent);
  }

  lemma DocPieces(i: string, body: string)
    ensures "" + (i + "{\n") + body + (i + "\n}") == i + "{\n" + body + i + "\n}"
  {}
}
