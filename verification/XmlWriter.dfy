/** The formatted XML writer (src/common/FormattedXMLWriter.cpp). */
module XmlWriter {
  import opened XmlText

  class FormattedXMLWriter {
    var stream: string
    var indent: nat

    constructor ()
      ensures stream == "" && indent == 0
    {
      stream, indent := "", 0;
    }

    method OpenOutput()
      modifies this
      ensures stream == old(stream) + "<atlas>\n" && indent == old(indent) + 2
    {
      stream := stream + "<atlas>\n";
      indent := indent + 2;
    }

    method CloseOutput()
      requires indent >= 2
      modifies this
      ensures stream == old(stream) + "</atlas>\n" && indent == old(indent) - 2
    {
      indent := indent - 2;
      stream := stream + "</atlas>\n";
    }

    method OutputObject(o: seq<Entry>)
      modifies this
      ensures stream == old(stream) + ObjectText(o, old(indent)) && indent == old(indent)
    {
      hide ObjectStart, ObjectEnd, MapText;
      stream := stream + ObjectStart();
      indent := indent + 2;
      OutputMap(o);
      indent := indent - 2;
      stream := stream + ObjectEnd();
      assert stream == old(stream) + ObjectText(o, indent);
    }

    method OutputIndent()
      modifies `stream
      ensures stream == old(stream) + Spaces(indent)
    {
      var i := 0;
      while i < indent
        invariant i <= indent && stream == old(stream) + Spaces(i)
      {
        stream := stream + " ";
        i := i + 1;
        assert Spaces(i) == Spaces(i - 1) + " ";
      }
    }

    method OutputValue(e: Element)
      modifies this
      ensures stream == old(stream) + ValueText(e, old(indent)) && indent == old(indent)
      decreases e, 1
    {
      hide Spaces, IntText, MapText, ListText;
      match e
      case Int(i) =>
        stream := stream + IntText(i);
      case Str(s) =>
        stream := stream + s;
      case Map(entries) =>
        stream := stream + "\n";
        indent := indent + 2;
        OutputMap(entries);
        indent := indent - 2;
        OutputIndent();
        RegroupValue(old(stream), MapText(entries, indent + 2), Spaces(indent));
      case List(items) =>
        stream := stream + "\n";
        indent := indent + 2;
        OutputList(items);
        indent := indent - 2;
        OutputIndent();
        RegroupValue(old(stream), ListText(items, indent + 2), Spaces(indent));
    }

    /** One line of outputMap or outputList. */
    method OutputItem(attribute: string, e: Element)
      modifies this
      ensures stream == old(stream) + ItemText(attribute, e, old(indent)) && indent == old(indent)
      decreases e, 2
    {
      OutputIndent();
      var kind := TypeName(e);
      stream := stream + OpenTag(kind, attribute);
      OutputValue(e);
      hide ValueText, TypeName, OpenTag, CloseTag, Spaces;
      stream := stream + CloseTag(kind);
      stream := stream + "\n";
      Regroup5(old(stream), Spaces(indent), OpenTag(kind, attribute), ValueText(e, indent), CloseTag(kind), "\n");
    }

    method OutputMap(o: seq<Entry>)
      modifies this
      ensures stream == old(stream) + MapText(o, old(indent)) && indent == old(indent)
      decreases o, 3
    {
      hide ItemText;
      var i := 0;
      assert o[0..] == o;
      while i < |o|
        invariant i <= |o| && indent == old(indent)
        invariant stream + MapText(o[i..], indent) == old(stream) + MapText(o, indent)
      {
        assert o[i..][0] == o[i] && o[i..][1..] == o[i + 1..];
        OutputItem(NameAttribute(o[i].name), o[i].value);
        i := i + 1;
      }
      assert o[i..] == [];
    }

    method OutputList(o: seq<Element>)
      modifies this
      ensures stream == old(stream) + ListText(o, old(indent)) && indent == old(indent)
      decreases o, 3
    {
      hide ItemText;
      var i := 0;
      assert o[0..] == o;
      while i < |o|
        invariant i <= |o| && indent == old(indent)
        invariant stream + ListText(o[i..], indent) == old(stream) + ListText(o, indent)
      {
        assert o[i..][0] == o[i] && o[i..][1..] == o[i + 1..];
        OutputItem("", o[i]);
        i := i + 1;
      }
      assert o[i..] == [];
    }
  }
}
