/** The text the formatted XML writer produces (src/common/FormattedXMLWriter.cpp, lines 44-138) and a
    reference reader for it.  The reader skips indentation; it shows that the text determines the value. */
module XmlText {
  import opened Options
  import opened Sequences

  /** Atlas elements without floats; a map is given by its entries in key order. */
  datatype Element = Int(i: int) | Str(s: string) | List(items: seq<Element>) | Map(entries: seq<Entry>)
  datatype Entry = Entry(name: string, value: Element)

  function TypeName(e: Element): string {
    match e
    case Int(_) => "int"
    case Str(_) => "string"
    case List(_) => "list"
    case Map(_) => "map"
  }

  // ---------------------------------------------------------------- the text

  function Digits(n: nat): (r: string)
    ensures r != []
  {
    if n < 10 then [Digit(n)] else Digits(n / 10) + [Digit(n % 10)]
  }

  function Digit(d: nat): char
    requires d < 10
  {
    '0' + d as char
  }

  function IntText(i: int): string {
    if i < 0 then "-" + Digits(-i) else Digits(i)
  }

  function Spaces(n: nat): string {
    seq(n, _ => ' ')
  }

  function ValueText(e: Element, indent: nat): string
    decreases e, 1
  {
    match e
    case Int(i) => IntText(i)
    case Str(s) => s
    case List(items) => "\n" + ListText(items, indent + 2) + Spaces(indent)
    case Map(entries) => "\n" + MapText(entries, indent + 2) + Spaces(indent)
  }

  function OpenTag(kind: string, attribute: string): string {
    "<" + kind + attribute + ">"
  }

  function CloseTag(kind: string): string {
    "</" + kind + ">"
  }

  /** One line, or one nested block: opening tag, value, closing tag. */
  function ItemText(attribute: string, e: Element, indent: nat): string
    decreases e, 2
  {
    Spaces(indent) + (OpenTag(TypeName(e), attribute) + (ValueText(e, indent) + (CloseTag(TypeName(e)) + "\n")))
  }

  function NameAttribute(name: string): string {
    " name=\"" + name + "\""
  }

  function ListText(items: seq<Element>, indent: nat): string
    decreases items, 3
  {
    if items == [] then "" else ItemText("", items[0], indent) + ListText(items[1..], indent)
  }

  function MapText(entries: seq<Entry>, indent: nat): string
    decreases entries, 3
  {
    if entries == [] then ""
    else ItemText(NameAttribute(entries[0].name), entries[0].value, indent) + MapText(entries[1..], indent)
  }

  function ObjectText(entries: seq<Entry>, indent: nat): string {
    ObjectStart() + MapText(entries, indent + 2) + ObjectEnd()
  }

  function ObjectStart(): string {
    "  <map>\n"
  }

  function ObjectEnd(): string {
    "  </map>\n\n"
  }

  predicate Contains(s: string, pattern: string) {
    pattern <= s || (s != [] && Contains(s[1..], pattern))
  }

  const STRING_END := "</string>"
  const NAME_END := "\">"

  /** No string value contains the tag that ends it, and no name the quote and bracket that end it. */
  predicate Plain(e: Element)
    decreases e
  {
    match e
    case Int(_) => true
    case Str(s) => !Contains(s, STRING_END)
    case List(items) => forall i :: 0 <= i < |items| ==> Plain(items[i])
    case Map(entries) => forall i :: 0 <= i < |entries| ==>
      !Contains(entries[i].name, NAME_END) && Plain(entries[i].value)
  }

  // ---------------------------------------------------------------- the reader

  function SkipBlank(s: string): (r: string)
    ensures |r| <= |s|
  {
    if s != [] && (s[0] == ' ' || s[0] == '\n') then SkipBlank(s[1..]) else s
  }

  /** The text before the first `c`, and the text from it on. */
  function Before(s: string, c: char): (string, string) {
    if s == [] || s[0] == c then ([], s)
    else
      var (a, b) := Before(s[1..], c);
      ([s[0]] + a, b)
  }

  /** The text before the first occurrence of `pattern`, and the text from it on. */
  function Until(s: string, pattern: string): (r: (string, string))
    ensures s == r.0 + r.1
  {
    if s == [] || pattern <= s then ([], s)
    else
      var (a, b) := Until(s[1..], pattern);
      ([s[0]] + a, b)
  }

  /** Reads a tag behind its opening bracket: the type, the name attribute if there is to be one, what follows. */
  function ReadTag(s: string, named: bool): (r: Option<(string, string, string)>)
    ensures r.Some? ==> |r.value.2| < |s|
  {
    if named then
      var (head, s1) := Before(s, '"');
      BeforeLength(s, '"');
      if s1 == [] then None
      else
        var (name, s2) := Until(s1[1..], NAME_END);
        if |s2| < 2 then None else Some((Before(head, ' ').0, name, s2[2..]))
    else
      var (kind, s1) := Before(s, '>');
      BeforeLength(s, '>');
      if s1 == [] then None else Some((kind, "", s1[1..]))
  }

  function DigitValue(c: char): nat {
    if '0' <= c <= '9' then c as int - '0' as int else 0
  }

  function ReadDigits(s: string): nat {
    if s == [] then 0 else 10 * ReadDigits(s[..|s| - 1]) + DigitValue(s[|s| - 1])
  }

  function ReadInt(s: string): int {
    if s != [] && s[0] == '-' then -(ReadDigits(s[1..]) as int) else ReadDigits(s) as int
  }

  /** Reads the value of an element of the given type; what follows begins with its closing tag. */
  function ReadValue(kind: string, s: string): (r: Option<(Element, string)>)
    ensures r.Some? ==> |r.value.1| <= |s|
    decreases |s|, 1
  {
    if kind == "int" then
      var (text, rest) := Before(s, '<');
      BeforeLength(s, '<');
      Some((Int(ReadInt(text)), rest))
    else if kind == "string" then
      var (text, rest) := Until(s, STRING_END);
      Some((Str(text), rest))
    else if kind == "list" then
      match ReadItems(s, false)
      case None => None
      case Some((items, rest)) => Some((List(Values(items)), rest))
    else if kind == "map" then
      match ReadItems(s, true)
      case None => None
      case Some((items, rest)) => Some((Map(items), rest))
    else None
  }

  function Values(items: seq<Entry>): seq<Element> {
    seq(|items|, i requires 0 <= i < |items| => items[i].value)
  }

  /** Reads elements, with or without name attributes, up to the closing tag of the enclosing element. */
  function ReadItems(s: string, named: bool): (r: Option<(seq<Entry>, string)>)
    ensures r.Some? ==> |r.value.1| <= |s|
    decreases |s|, 0
  {
    var s1 := SkipBlank(s);
    if "</" <= s1 then Some(([], s1))
    else if s1 == [] || s1[0] != '<' then None
    else
      match ReadTag(s1[1..], named)
      case None => None
      case Some((kind, name, s2)) =>
        match ReadValue(kind, s2)
        case None => None
        case Some((value, s3)) =>
          var close := CloseTag(kind);
          if close <= s3 then
            match ReadItems(s3[|close|..], named)
            case None => None
            case Some((items, s4)) => Some(([Entry(name, value)] + items, s4))
          else None
  }

  lemma {:induction false} BeforeLength(s: string, c: char)
    ensures |Before(s, c).0| + |Before(s, c).1| == |s|
    decreases |s|
  {
    if s != [] && s[0] != c {
      BeforeLength(s[1..], c);
    }
  }

  // ---------------------------------------------------------------- the reader undoes the text

  lemma {:induction false} BeforeConcat(a: string, c: char, t: string)
    requires c !in a && t != [] && t[0] == c
    ensures Before(a + t, c) == (a, t)
  {
    if a == [] {
      assert a + t == t;
    } else {
      assert a[0] in a && a == [a[0]] + a[1..];
      assert (a + t)[0] == a[0] && (a + t)[1..] == a[1..] + t;
      BeforeConcat(a[1..], c, t);
    }
  }

  lemma {:induction false} BeforeAbsent(a: string, c: char)
    requires c !in a
    ensures Before(a, c) == (a, [])
  {
    if a != [] {
      assert a[0] in a && a == [a[0]] + a[1..];
      BeforeAbsent(a[1..], c);
    }
  }

  /** Text without the pattern is read up to the pattern, which does not overlap itself. */
  lemma {:induction false} UntilConcat(a: string, pattern: string, t: string)
    requires !Contains(a, pattern) && pattern <= t && pattern != [] && pattern[0] !in pattern[1..]
    ensures Until(a + t, pattern) == (a, t)
  {
    if a == [] {
      assert a + t == t;
    } else {
      assert (a + t)[0] == a[0] && (a + t)[1..] == a[1..] + t;
      UntilConcat(a[1..], pattern, t);
      NotYet(a, pattern, t);
      assert a == [a[0]] + a[1..];
    }
  }

  /** The pattern does not begin in the text before it. */
  lemma NotYet(a: string, pattern: string, t: string)
    requires a != [] && !(pattern <= a) && pattern <= t && pattern != [] && pattern[0] !in pattern[1..]
    ensures !(pattern <= a + t)
  {
    assert |a| < |pattern| ==> pattern[|a|] == pattern[1..][|a| - 1] && (a + t)[|a|] == t[0] == pattern[0];
  }

  /** What is read never contains the pattern. */
  lemma {:induction false} UntilLacks(s: string, pattern: string)
    requires pattern != []
    ensures !Contains(Until(s, pattern).0, pattern)
  {
    if s != [] && !(pattern <= s) {
      UntilLacks(s[1..], pattern);
      var r := Until(s, pattern).0;
      assert r[1..] == Until(s[1..], pattern).0;
      assert r <= s;
    }
  }

  lemma {:induction false} SkipSpaces(n: nat, t: string)
    ensures SkipBlank(Spaces(n) + t) == SkipBlank(t)
    decreases n
  {
    if n == 0 {
      assert Spaces(n) + t == t;
    } else {
      assert (Spaces(n) + t)[0] == ' ' && (Spaces(n) + t)[1..] == Spaces(n - 1) + t;
      SkipSpaces(n - 1, t);
    }
  }

  lemma {:induction false} ReadDigitsOfDigits(n: nat)
    ensures ReadDigits(Digits(n)) == n
    ensures forall i :: 0 <= i < |Digits(n)| ==> '0' <= Digits(n)[i] <= '9'
  {
    if n >= 10 {
      ReadDigitsOfDigits(n / 10);
      assert Digits(n)[..|Digits(n)| - 1] == Digits(n / 10);
    } else {
      assert Digits(n)[..0] == [];
      assert ReadDigits([]) == 0;
    }
  }

  lemma ReadIntOfIntText(i: int)
    ensures ReadInt(IntText(i)) == i && '<' !in IntText(i)
  {
    ReadDigitsOfDigits(if i < 0 then -i else i);
    if i < 0 {
      assert IntText(i)[1..] == Digits(-i);
    }
  }

  lemma ReadItemsSkips(a: string, b: string, named: bool)
    requires SkipBlank(a) == SkipBlank(b)
    ensures ReadItems(a, named) == ReadItems(b, named)
  {
  }

  /** The tag of an item gives back its type and, in a map, its name. */
  lemma ReadTagOfText(e: Element, name: string, named: bool, v: string)
    requires !Contains(name, NAME_END) && (!named ==> name == "")
    ensures var tag := TypeName(e) + (if named then NameAttribute(name) else "");
            && tag != [] && tag[0] != '/'
            && ReadTag(tag + (['>'] + v), named) == Some((TypeName(e), name, v))
  {
    if named {
      assert '"' !in TypeName(e) && ' ' !in TypeName(e);
      ReadNamedTag(TypeName(e), name, v);
    } else {
      assert TypeName(e) + "" == TypeName(e) && '>' !in TypeName(e);
      BeforeConcat(TypeName(e), '>', ['>'] + v);
      assert (['>'] + v)[1..] == v;
    }
  }

  lemma ReadNamedTag(kind: string, name: string, v: string)
    requires '"' !in kind && ' ' !in kind && !Contains(name, NAME_END)
    ensures ReadTag((kind + NameAttribute(name)) + (['>'] + v), true) == Some((kind, name, v))
  {
    var head, t := kind + " name=", NAME_END + v;
    assert t[2..] == v && NAME_END <= t;
    NamedTagParts(kind, name, v);
    BeforeConcat(kind, ' ', " name=");
    BeforeConcat(head, '"', ['"'] + (name + t));
    UntilConcat(name, NAME_END, t);
    hide Before, Until, Contains, NameAttribute;
    assert (['"'] + (name + t))[1..] == name + t;
  }

  lemma NamedTagParts(kind: string, name: string, v: string)
    ensures (kind + NameAttribute(name)) + (['>'] + v) == (kind + " name=") + (['"'] + (name + (NAME_END + v)))
  {
    var q, open: string := ['"'], " name=";
    assert NameAttribute(name) == open + (q + (name + q));
    assert NAME_END == q + ['>'];
    RegroupTag(kind, open, q, name, ['>'], v);
  }

  lemma RegroupTag(kind: string, open: string, q: string, name: string, end: string, v: string)
    ensures (kind + (open + (q + (name + q)))) + (end + v) == (kind + open) + (q + (name + ((q + end) + v)))
  {
    assert (kind + (open + (q + (name + q)))) == (kind + open) + (q + (name + q));
    assert (q + (name + q)) + (end + v) == q + (name + (q + (end + v)));
    assert (q + end) + v == q + (end + v);
  }

  /** The text of an item up to where its value starts. */
  lemma ItemHead(attribute: string, e: Element, indent: nat, rest: string)
    ensures var close := CloseTag(TypeName(e));
            SkipBlank(ItemText(attribute, e, indent) + rest) ==
            ['<'] + ((TypeName(e) + attribute) + (['>'] + (ValueText(e, indent) + (close + ("\n" + rest)))))
  {
    hide ValueText, TypeName;
    var close := CloseTag(TypeName(e));
    var body := ['<'] + ((TypeName(e) + attribute) + (['>'] + (ValueText(e, indent) + (close + ("\n" + rest)))));
    assert ItemText(attribute, e, indent) + rest == Spaces(indent) + body;
    SkipSpaces(indent, body);
    assert SkipBlank(body) == body;
  }

  lemma SkipNewline(rest: string, named: bool)
    ensures ReadItems("\n" + rest, named) == ReadItems(rest, named)
  {
    assert ("\n" + rest)[1..] == rest;
    ReadItemsSkips("\n" + rest, rest, named);
  }

  /** Reading one item, from its parts. */
  lemma ReadOneItem(s: string, named: bool, tag: string, kind: string, name: string, v: string, value: Element,
                    after: string)
    requires SkipBlank(s) == ['<'] + tag && tag != [] && tag[0] != '/'
    requires ReadTag(tag, named) == Some((kind, name, v))
    requires ReadValue(kind, v) == Some((value, CloseTag(kind) + after))
    ensures ReadItems(s, named) ==
            match ReadItems(after, named)
            case None => None
            case Some((items, r)) => Some(([Entry(name, value)] + items, r))
  {
    var s1 := SkipBlank(s);
    assert s1[0] == '<' && s1[1] == tag[0];
    assert !("</" <= s1);
    assert s1[1..] == tag;
    var close := CloseTag(kind);
    assert close <= close + after && (close + after)[|close|..] == after;
    hide ReadValue, ReadTag, SkipBlank, Before, CloseTag;
  }

  /** An item is read back, and reading goes on behind it. */
  lemma ReadItemOfText(name: string, e: Element, indent: nat, rest: string, named: bool)
    requires !Contains(name, NAME_END) && (!named ==> name == "")
    requires var t := CloseTag(TypeName(e)) + ("\n" + rest);
             ReadValue(TypeName(e), ValueText(e, indent) + t) == Some((e, t))
    ensures var attribute := if named then NameAttribute(name) else "";
            ReadItems(ItemText(attribute, e, indent) + rest, named) ==
            match ReadItems(rest, named)
            case None => None
            case Some((items, r)) => Some(([Entry(name, e)] + items, r))
  {
    var attribute := if named then NameAttribute(name) else "";
    var v := ValueText(e, indent) + (CloseTag(TypeName(e)) + ("\n" + rest));
    ItemHead(attribute, e, indent, rest);
    ReadTagOfText(e, name, named, v);
    SkipNewline(rest, named);
    hide ValueText, ItemText, ReadValue, ReadItems, ReadTag, SkipBlank, Before, TypeName, NameAttribute, CloseTag,
      Contains;
    ReadOneItem(ItemText(attribute, e, indent) + rest, named, (TypeName(e) + attribute) + (['>'] + v), TypeName(e),
                name, v, e,
                "\n" + rest);
  }

  function Unnamed(items: seq<Element>): seq<Entry> {
    seq(|items|, i requires 0 <= i < |items| => Entry("", items[i]))
  }

  /** A value is read back from its text, at any nesting, and reading stops at its closing tag. */
  lemma {:induction false} ReadValueOfText(e: Element, indent: nat, t: string)
    requires Plain(e) && CloseTag(TypeName(e)) <= t
    ensures ReadValue(TypeName(e), ValueText(e, indent) + t) == Some((e, t))
    decreases e, 1
  {
    match e
    case Int(i) =>
      ReadIntOfIntText(i);
      BeforeConcat(IntText(i), '<', t);
    case Str(s) =>
      UntilConcat(s, STRING_END, t);
    case List(items) =>
      ReadListOfText(items, indent + 2, Spaces(indent) + t);
      ReadListValue(items, indent, t);
    case Map(entries) =>
      ReadMapOfText(entries, indent + 2, Spaces(indent) + t);
      ReadMapValue(entries, indent, t);
  }

  lemma ReadListValue(items: seq<Element>, indent: nat, t: string)
    requires CloseTag("list") <= t
    requires var inner := Spaces(indent) + t;
             ReadItems(ListText(items, indent + 2) + inner, false) == Prepended(Unnamed(items), ReadItems(inner, false))
    ensures ReadValue("list", ValueText(List(items), indent) + t) == Some((List(items), t))
  {
    ReadNested(ListText(items, indent + 2), indent, t, false);
    EndOfItems(Spaces(indent) + t, indent, t, false);
    hide ReadItems, ListText, Spaces, CloseTag;
    assert Values(Unnamed(items)) == items && Unnamed(items) + [] == Unnamed(items);
  }

  lemma ReadMapValue(entries: seq<Entry>, indent: nat, t: string)
    requires CloseTag("map") <= t
    requires var inner := Spaces(indent) + t;
             ReadItems(MapText(entries, indent + 2) + inner, true) == Prepended(entries, ReadItems(inner, true))
    ensures ReadValue("map", ValueText(Map(entries), indent) + t) == Some((Map(entries), t))
  {
    ReadNested(MapText(entries, indent + 2), indent, t, true);
    EndOfItems(Spaces(indent) + t, indent, t, true);
    hide ReadItems, MapText, Spaces, CloseTag;
    assert entries + [] == entries;
  }

  lemma Regroup5(s: string, a: string, b: string, c: string, d: string, e: string)
    ensures s + a + b + c + d + e == s + (a + (b + (c + (d + e))))
  {
    assert s + a + b + c + d + e == s + a + b + c + (d + e) == s + a + b + (c + (d + e)) == s + a + (b + (c + (d + e)));
  }

  lemma RegroupValue(s: string, inner: string, spaces: string)
    ensures ((s + "\n") + inner) + spaces == s + ("\n" + inner + spaces)
  {
    ConcatAssociates(s, "\n", inner);
    ConcatAssociates(s, "\n" + inner, spaces);
  }

  lemma ReadNested(text: string, indent: nat, t: string, named: bool)
    ensures ReadItems("\n" + text + Spaces(indent) + t, named) == ReadItems(text + (Spaces(indent) + t), named)
  {
    var inner := text + (Spaces(indent) + t);
    assert "\n" + text + Spaces(indent) + t == "\n" + inner;
    assert ("\n" + inner)[1..] == inner;
    ReadItemsSkips("\n" + inner, inner, named);
  }

  lemma EndOfItems(s: string, indent: nat, t: string, named: bool)
    requires "</" <= t && s == Spaces(indent) + t
    ensures ReadItems(s, named) == Some(([], t))
  {
    SkipSpaces(indent, t);
    assert t[0] == '<' && SkipBlank(t) == t;
  }

  /** What reading yields when `items` come first. */
  function Prepended(items: seq<Entry>, r: Option<(seq<Entry>, string)>): Option<(seq<Entry>, string)> {
    match r
    case None => None
    case Some((more, rest)) => Some((items + more, rest))
  }

  lemma {:induction false} ReadListOfText(items: seq<Element>, indent: nat, rest: string)
    requires forall i :: 0 <= i < |items| ==> Plain(items[i])
    ensures ReadItems(ListText(items, indent) + rest, false) == Prepended(Unnamed(items), ReadItems(rest, false))
    decreases items, 0
  {
    if items == [] {
      assert ListText(items, indent) + rest == rest;
      PrependNothing(Unnamed(items), ReadItems(rest, false));
    } else {
      var e, later := items[0], ListText(items[1..], indent);
      ListTextCons(items, indent, rest);
      UnnamedCons(items);
      NoEndInNothing();
      hide *;
      ReadListOfText(items[1..], indent, rest);
      ReadValueOfText(e, indent, CloseTag(TypeName(e)) + ("\n" + (later + rest)));
      ReadItemOfText("", e, indent, later + rest, false);
      PrependOne(Entry("", e), Unnamed(items[1..]), Unnamed(items), ReadItems(rest, false));
    }
  }

  lemma ListTextCons(items: seq<Element>, indent: nat, rest: string)
    requires items != []
    ensures ListText(items, indent) + rest == ItemText("", items[0], indent) + (ListText(items[1..], indent) + rest)
  {
    var item, later := ItemText("", items[0], indent), ListText(items[1..], indent);
    assert ListText(items, indent) == item + later;
    hide ListText, ItemText;
    ConcatAssociates(item, later, rest);
  }

  lemma UnnamedCons(items: seq<Element>)
    requires items != []
    ensures Unnamed(items) == [Entry("", items[0])] + Unnamed(items[1..])
  {
  }

  lemma {:induction false} ReadMapOfText(entries: seq<Entry>, indent: nat, rest: string)
    requires forall i :: 0 <= i < |entries| ==> !Contains(entries[i].name, NAME_END) && Plain(entries[i].value)
    ensures ReadItems(MapText(entries, indent) + rest, true) == Prepended(entries, ReadItems(rest, true))
    decreases entries, 0
  {
    if entries == [] {
      assert MapText(entries, indent) + rest == rest;
      PrependNothing(entries, ReadItems(rest, true));
    } else {
      var e, later := entries[0], MapText(entries[1..], indent);
      EntriesTextCons(entries, indent, rest);
      hide *;
      ReadMapOfText(entries[1..], indent, rest);
      ReadValueOfText(e.value, indent, CloseTag(TypeName(e.value)) + ("\n" + (later + rest)));
      ReadItemOfText(e.name, e.value, indent, later + rest, true);
      PrependOne(e, entries[1..], entries, ReadItems(rest, true));
    }
  }

  lemma EntriesTextCons(entries: seq<Entry>, indent: nat, rest: string)
    requires entries != []
    ensures MapText(entries, indent) + rest ==
            ItemText(NameAttribute(entries[0].name), entries[0].value, indent) + (MapText(entries[1..], indent) + rest)
  {
    var item, later := ItemText(NameAttribute(entries[0].name), entries[0].value, indent),
      MapText(entries[1..], indent);
    assert MapText(entries, indent) == item + later;
    hide MapText, ItemText;
    ConcatAssociates(item, later, rest);
  }

  lemma NoEndInNothing()
    ensures !Contains("", NAME_END)
  {
  }

  lemma PrependNothing(none: seq<Entry>, r: Option<(seq<Entry>, string)>)
    requires none == []
    ensures Prepended(none, r) == r
  {
    if r.Some? {
      assert none + r.value.0 == r.value.0;
    }
  }

  lemma PrependOne(e: Entry, rest: seq<Entry>, all: seq<Entry>, r: Option<(seq<Entry>, string)>)
    requires all == [e] + rest
    ensures match Prepended(rest, r)
            case None => Prepended(all, r) == None
            case Some((items, t)) => Prepended(all, r) == Some(([e] + items, t))
  {
    if r.Some? {
      assert all + r.value.0 == [e] + (rest + r.value.0);
    }
  }

  /** The text of a value, at any nesting, determines the value. */
  lemma ValueTextUnique(a: Element, b: Element, indent: nat)
    requires Plain(a) && Plain(b) && TypeName(a) == TypeName(b)
    requires ValueText(a, indent) == ValueText(b, indent)
    ensures a == b
  {
    ReadValueOfText(a, indent, CloseTag(TypeName(a)));
    ReadValueOfText(b, indent, CloseTag(TypeName(a)));
  }

  /** The text of an object determines the object. */
  lemma ObjectTextUnique(a: seq<Entry>, b: seq<Entry>, indent: nat)
    requires Plain(Map(a)) && Plain(Map(b)) && ObjectText(a, indent) == ObjectText(b, indent)
    ensures a == b
  {
    ReadObject(a, indent);
    ReadObject(b, indent);
  }

  lemma ReadObject(entries: seq<Entry>, indent: nat)
    requires Plain(Map(entries))
    ensures |ObjectText(entries, indent)| >= 8
    ensures ReadItems(ObjectText(entries, indent)[8..], true) == Some((entries, "</map>\n\n"))
  {
    var head, t := "  <map>\n", "</map>\n\n";
    assert Spaces(2) + t == "  </map>\n\n";
    assert |head| == 8 && "</" <= t;
    ObjectTextParts(entries, indent, head, t);
    ReadMapOfText(entries, indent + 2, Spaces(2) + t);
    EndOfItems(Spaces(2) + t, 2, t, true);
    hide ReadItems, ObjectText, MapText, Spaces;
    assert entries + [] == entries;
  }

  lemma ObjectTextParts(entries: seq<Entry>, indent: nat, head: string, t: string)
    requires |head| == 8 && ObjectText(entries, indent) == head + MapText(entries, indent + 2) + (Spaces(2) + t)
    ensures ObjectText(entries, indent)[8..] == MapText(entries, indent + 2) + (Spaces(2) + t)
  {
    hide ObjectText, MapText, Spaces;
  }

  /** The reader only ever yields plain values. */
  lemma {:induction false} ReadIsPlain(kind: string, s: string)
    ensures ReadValue(kind, s).Some? ==> Plain(ReadValue(kind, s).value.0)
    decreases |s|, 1
  {
    if kind == "string" {
      UntilLacks(s, STRING_END);
    } else if kind == "list" {
      ReadItemsPlain(s, false);
      if ReadItems(s, false).Some? {
        ValuesPlain(ReadItems(s, false).value.0);
      }
    } else if kind == "map" {
      ReadItemsPlain(s, true);
    }
  }

  lemma ValuesPlain(items: seq<Entry>)
    requires Plain(Map(items))
    ensures Plain(List(Values(items)))
  {
  }

  lemma {:induction false} ReadItemsPlain(s: string, named: bool)
    ensures ReadItems(s, named).Some? ==> Plain(Map(ReadItems(s, named).value.0))
    decreases |s|, 0
  {
    var s1 := SkipBlank(s);
    if !("</" <= s1) && ReadItems(s, named).Some? {
      var tag := ReadTag(s1[1..], named).value;
      TagNamePlain(s1[1..], named);
      ReadIsPlain(tag.0, tag.2);
      var (value, s3) := ReadValue(tag.0, tag.2).value;
      var after := s3[|CloseTag(tag.0)|..];
      ReadItemsPlain(after, named);
      hide ReadTag, ReadValue, Contains, SkipBlank, CloseTag;
      assert ReadItems(s, named).value.0 == [Entry(tag.1, value)] + ReadItems(after, named).value.0;
      PlainCons(Entry(tag.1, value), ReadItems(after, named).value.0);
    }
  }

  lemma PlainCons(e: Entry, rest: seq<Entry>)
    requires !Contains(e.name, NAME_END) && Plain(e.value) && Plain(Map(rest))
    ensures Plain(Map([e] + rest))
  {
    hide Contains;
    var all := [e] + rest;
    forall i | 0 <= i < |all|
      ensures !Contains(all[i].name, NAME_END) && Plain(all[i].value)
    {
      if i > 0 {
        assert all[i] == rest[i - 1];
      }
    }
  }

  lemma TagNamePlain(s: string, named: bool)
    ensures ReadTag(s, named).Some? ==> !Contains(ReadTag(s, named).value.1, NAME_END)
  {
    if named {
      var s1 := Before(s, '"').1;
      if s1 != [] {
        UntilLacks(s1[1..], NAME_END);
      }
    }
  }

  /** The values the reader gives back from their text are exactly the plain ones. */
  lemma ReadBackIffPlain(e: Element, indent: nat)
    ensures var close := CloseTag(TypeName(e));
            ReadValue(TypeName(e), ValueText(e, indent) + close) == Some((e, close)) <==> Plain(e)
  {
    var close := CloseTag(TypeName(e));
    ReadIsPlain(TypeName(e), ValueText(e, indent) + close);
    if Plain(e) {
      ReadValueOfText(e, indent, close);
    }
  }

  /** Names are written as they are: a name that contains what ends it has the text of a shorter name, whatever
      the rest of it and the value are. */
  lemma UnescapedNameIsAmbiguous(a: string, b: string, v: string)
    ensures [Entry(a + NAME_END + b, Str(v))] != [Entry(a, Str(b + NAME_END + v))]
    ensures MapText([Entry(a + NAME_END + b, Str(v))], 0) == MapText([Entry(a, Str(b + NAME_END + v))], 0)
  {
    var n, w := a + NAME_END + b, b + NAME_END + v;
    assert |n| != |a|;
    MapTextCons(Entry(n, Str(v)), []);
    MapTextCons(Entry(a, Str(w)), []);
    assert [Entry(n, Str(v))] + [] == [Entry(n, Str(v))] && [Entry(a, Str(w))] + [] == [Entry(a, Str(w))];
    StringItemText(n, v);
    StringItemText(a, w);
    NamedTagText(n);
    NamedTagText(a);
    var head, close := "<string name=\"", CloseTag("string") + "\n";
    hide ItemText, MapText, OpenTag, CloseTag, NameAttribute;
    RegroupName(head, a, NAME_END, b, v, close);
  }

  lemma NamedTagText(name: string)
    ensures OpenTag("string", NameAttribute(name)) == "<string name=\"" + name + NAME_END
  {
    var head := "<string name=\"";
    assert "<" + "string" + (" name=\"" + name + "\"") + ">" == head + name + ("\"" + ">");
  }

  lemma RegroupName(head: string, a: string, q: string, b: string, v: string, close: string)
    ensures (head + (a + q + b) + q) + (v + close) == (head + a + q) + ((b + q + v) + close)
  {
    var l := head + a + q;
    assert head + (a + q + b) + q == l + (b + q);
    assert (l + (b + q)) + (v + close) == l + ((b + q) + (v + close));
    assert (b + q) + (v + close) == (b + q + v) + close;
  }

  /** Strings are written as they are: with the closing tag in a string two different maps can have the same
      text, whatever the names and the rest of the strings are. */
  lemma UnescapedTextIsAmbiguous(m: string, n: string, x: string, y: string)
    ensures var both := x + (CloseTag("string") + "\n") + OpenTag("string", NameAttribute(n)) + y;
            && [Entry(m, Str(both))] != [Entry(m, Str(x)), Entry(n, Str(y))]
            && MapText([Entry(m, Str(both))], 0) == MapText([Entry(m, Str(x)), Entry(n, Str(y))], 0)
  {
    var close, om, on := CloseTag("string") + "\n", OpenTag("string", NameAttribute(m)),
      OpenTag("string", NameAttribute(n));
    var both := x + close + on + y;
    MapTextCons(Entry(m, Str(both)), []);
    MapTextCons(Entry(n, Str(y)), []);
    MapTextCons(Entry(m, Str(x)), [Entry(n, Str(y))]);
    assert [Entry(m, Str(both))] + [] == [Entry(m, Str(both))] && [Entry(n, Str(y))] + [] == [Entry(n, Str(y))];
    assert [Entry(m, Str(x))] + [Entry(n, Str(y))] == [Entry(m, Str(x)), Entry(n, Str(y))];
    StringItemText(m, both);
    StringItemText(m, x);
    StringItemText(n, y);
    hide ItemText, MapText, OpenTag, CloseTag, NameAttribute;
    Regroup(om, x, close, on, y);
    MapTextEmpty();
  }

  lemma Regroup(om: string, x: string, close: string, on: string, y: string)
    ensures om + ((x + close + on + y) + close) + "" == (om + (x + close)) + ((on + (y + close)) + "")
  {
    var l := x + close + on + y;
    assert l == (x + close) + (on + y);
    assert l + close == (x + close) + (on + (y + close));
    assert om + ((x + close) + (on + (y + close))) == (om + (x + close)) + (on + (y + close));
  }

  lemma MapTextEmpty()
    ensures MapText([], 0) == ""
  {
  }

  lemma MapTextCons(e: Entry, rest: seq<Entry>)
    ensures MapText([e] + rest, 0) == ItemText(NameAttribute(e.name), e.value, 0) + MapText(rest, 0)
  {
    assert ([e] + rest)[1..] == rest;
  }

  lemma StringItemText(name: string, s: string)
    ensures ItemText(NameAttribute(name), Str(s), 0) ==
            OpenTag("string", NameAttribute(name)) + (s + (CloseTag("string") + "\n"))
  {
    hide OpenTag, CloseTag, NameAttribute;
  }
}
