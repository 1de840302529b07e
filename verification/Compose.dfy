/** String composition (src/common/compose.hpp): the list-and-multimap form against one left-to-right
    substitution.  Specification numbers are unbounded here. */
module Compose {
  import Sequences

  // ---------------------------------------------------------------- substitution

  /** What a format string denotes: characters, and places for arguments. */
  datatype Token = Chr(c: char) | Arg(n: nat)

  predicate IsNumber(c: char) {
    '0' <= c <= '9'
  }

  function CharToInt(c: char): nat
    requires IsNumber(c)
  {
    (c as int) - ('0' as int)
  }

  /** Length of the longest prefix of digits. */
  function DigitRun(s: string): (n: nat)
    ensures n <= |s| && forall i :: 0 <= i < n ==> IsNumber(s[i])
    ensures n < |s| ==> !IsNumber(s[n])
  {
    if s != [] && IsNumber(s[0]) then 1 + DigitRun(s[1..]) else 0
  }

  function Decimal(s: string): nat
    requires forall i :: 0 <= i < |s| ==> IsNumber(s[i])
  {
    if s == [] then 0 else 10 * Decimal(s[..|s| - 1]) + CharToInt(s[|s| - 1])
  }

  /** A number as it is written. */
  function Numeral(n: nat): string {
    (if n < 10 then "" else Numeral(n / 10)) + ["0123456789"[n % 10]]
  }

  lemma {:induction false} NumeralRead(n: nat)
    ensures Numeral(n) != "" && forall i :: 0 <= i < |Numeral(n)| ==> IsNumber(Numeral(n)[i])
    ensures Decimal(Numeral(n)) == n
  {
    var d := "0123456789"[n % 10];
    assert IsNumber(d) && CharToInt(d) == n % 10;
    if n >= 10 {
      NumeralRead(n / 10);
      assert Numeral(n)[..|Numeral(n)| - 1] == Numeral(n / 10);
    }
  }

  lemma {:induction false} DigitRunOf(digits: string, rest: string)
    requires forall i :: 0 <= i < |digits| ==> IsNumber(digits[i])
    requires rest == "" || !IsNumber(rest[0])
    ensures DigitRun(digits + rest) == |digits|
  {
    if digits == "" {
      assert digits + rest == rest;
    } else {
      assert (digits + rest)[1..] == digits[1..] + rest;
      DigitRunOf(digits[1..], rest);
    }
  }

  function Tokens(fmt: string): seq<Token>
    decreases |fmt|
  {
    if fmt == [] then []
    else if fmt[0] == '%' && |fmt| > 1 then
      if fmt[1] == '%' then [Chr('%')] + Tokens(fmt[2..])
      else
        var k := DigitRun(fmt[1..]);
        if k > 0 then [Arg(Decimal(fmt[1..][..k]))] + Tokens(fmt[1..][k..])
        else [Chr('%')] + Tokens(fmt[1..])
    else [Chr(fmt[0])] + Tokens(fmt[1..])
  }

  /** The argument with number `n`, counted from 1; nothing when there is none. */
  function ArgText(args: seq<string>, n: nat): string {
    if 1 <= n <= |args| then args[n - 1] else ""
  }

  function Render(ts: seq<Token>, args: seq<string>): string {
    if ts == [] then ""
    else (match ts[0] case Chr(c) => [c] case Arg(n) => ArgText(args, n)) + Render(ts[1..], args)
  }

  /** One pass over the format, replacing each token; the arguments' own text is not looked at. */
  function Substitute(fmt: string, args: seq<string>): string {
    Render(Tokens(fmt), args)
  }

  /** A percent sign and a number stand for the argument of that number. */
  lemma NumberedArgument(n: nat, rest: string, args: seq<string>)
    requires rest == "" || !IsNumber(rest[0])
    ensures Substitute("%" + Numeral(n) + rest, args) ==
            (if 1 <= n <= |args| then args[n - 1] else "") + Substitute(rest, args)
  {
    var digits, fmt := Numeral(n), "%" + Numeral(n) + rest;
    NumeralRead(n);
    DigitRunOf(digits, rest);
    assert fmt[1..] == digits + rest && fmt[1] == digits[0];
    assert (digits + rest)[..|digits|] == digits && (digits + rest)[|digits|..] == rest;
    hide Numeral, Decimal;
    assert Tokens(fmt) == [Arg(n)] + Tokens(rest);
  }

  /** A percent sign before anything else stands for itself. */
  lemma LonePercent(rest: string, args: seq<string>)
    requires rest == "" || (rest[0] != '%' && !IsNumber(rest[0]))
    ensures Substitute("%" + rest, args) == "%" + Substitute(rest, args)
  {
    var fmt := "%" + rest;
    assert fmt[1..] == rest;
    assert rest == "" ==> Tokens(rest) == [];
    assert Tokens(fmt) == [Chr('%')] + Tokens(rest);
  }

  function Chars(s: string): seq<Token> {
    seq(|s|, i requires 0 <= i < |s| => Chr(s[i]))
  }

  lemma {:induction false} RenderConcat(a: seq<Token>, b: seq<Token>, args: seq<string>)
    ensures Render(a + b, args) == Render(a, args) + Render(b, args)
  {
    if a == [] {
      assert a + b == b;
    } else {
      assert (a + b)[0] == a[0] && (a + b)[1..] == a[1..] + b;
      RenderConcat(a[1..], b, args);
    }
  }

  lemma {:induction false} RenderChars(s: string, args: seq<string>)
    ensures Render(Chars(s), args) == s
  {
    if s != [] {
      assert Chars(s)[1..] == Chars(s[1..]);
      RenderChars(s[1..], args);
      assert s == [s[0]] + s[1..];
    }
  }

  /** Text with every '%' doubled. */
  function Escape(s: string): string {
    if s == "" then "" else (if s[0] == '%' then "%%" else [s[0]]) + Escape(s[1..])
  }

  /** Doubling every '%' is how any text gets through a format unchanged. */
  lemma {:induction false} EscapedTextSurvives(s: string, args: seq<string>)
    ensures Substitute(Escape(s), args) == s
  {
    EscapeTokens(s);
    RenderChars(s, args);
  }

  lemma {:induction false} EscapeTokens(s: string)
    ensures Tokens(Escape(s)) == Chars(s)
  {
    if s != "" {
      EscapeTokens(s[1..]);
      var e := Escape(s[1..]);
      if s[0] == '%' {
        assert ("%%" + e)[2..] == e;
      } else {
        assert ([s[0]] + e)[1..] == e;
      }
      assert Chars(s) == [Chr(s[0])] + Chars(s[1..]);
    }
  }

  // ---------------------------------------------------------------- the output list

  /** A node of the output list: a piece of the format, known by its iterator, or an inserted argument. */
  datatype Node = Piece(id: nat, text: string) | Inserted(text: string)

  /** A piece of the format and the specification that follows it. */
  datatype Part = Part(text: string, n: nat)

  function Flatten(output: seq<Node>): string {
    if output == [] then "" else output[0].text + Flatten(output[1..])
  }

  /** list::insert in front of the element after the iterator `id`. */
  function InsertAfter(output: seq<Node>, id: nat, text: string): seq<Node> {
    if output == [] then []
    else if output[0].Piece? && output[0].id == id then [output[0], Inserted(text)] + output[1..]
    else [output[0]] + InsertAfter(output[1..], id, text)
  }

  /** `tail`, behind the text inserted after piece `id` if there is one. */
  function Behind(id: nat, inserted: map<nat, string>, tail: seq<Node>): seq<Node> {
    if id in inserted then [Inserted(inserted[id])] + tail else tail
  }

  /** The list whose pieces, numbered from `first`, are followed by the texts inserted behind them, up to `rest`. */
  function Layout(parts: seq<Part>, rest: seq<Node>, first: nat, inserted: map<nat, string>): seq<Node> {
    if parts == [] then rest
    else [Piece(first, parts[0].text)] + Behind(first, inserted, Layout(parts[1..], rest, first + 1, inserted))
  }

  lemma InsertHit(id: nat, piece: string, tail: seq<Node>, text: string)
    ensures InsertAfter([Piece(id, piece)] + tail, id, text) == [Piece(id, piece)] + ([Inserted(text)] + tail)
  {
    assert ([Piece(id, piece)] + tail)[1..] == tail;
    assert [Piece(id, piece), Inserted(text)] + tail == [Piece(id, piece)] + ([Inserted(text)] + tail);
  }

  lemma InsertMiss(node: Node, tail: seq<Node>, id: nat, text: string)
    requires node.Piece? ==> node.id != id
    ensures InsertAfter([node] + tail, id, text) == [node] + InsertAfter(tail, id, text)
  {
    assert ([node] + tail)[1..] == tail;
  }

  /** Inserting behind a piece that has nothing behind it yet. */
  lemma {:induction false} InsertIntoLayout(parts: seq<Part>, rest: seq<Node>, first: nat, inserted: map<nat, string>,
                                            id: nat, text: string)
    requires first <= id < first + |parts| && id !in inserted
    ensures InsertAfter(Layout(parts, rest, first, inserted), id, text) ==
            Layout(parts, rest, first, inserted[id := text])
    decreases |parts|
  {
    var tail := Layout(parts[1..], rest, first + 1, inserted);
    if id == first {
      InsertHit(id, parts[0].text, tail, text);
      LayoutIgnores(parts[1..], rest, first + 1, inserted, id, text);
    } else {
      InsertIntoLayout(parts[1..], rest, first + 1, inserted, id, text);
      InsertMiss(Piece(first, parts[0].text), Behind(first, inserted, tail), id, text);
      if first in inserted {
        InsertMiss(Inserted(inserted[first]), tail, id, text);
      }
    }
    hide InsertAfter;
  }

  lemma {:induction false} LayoutIgnores(parts: seq<Part>, rest: seq<Node>, first: nat, inserted: map<nat, string>,
                                         id: nat, text: string)
    requires id < first
    ensures Layout(parts, rest, first, inserted[id := text]) == Layout(parts, rest, first, inserted)
    decreases |parts|
  {
    if parts != [] {
      LayoutIgnores(parts[1..], rest, first + 1, inserted, id, text);
    }
  }

  function PartTokens(parts: seq<Part>): seq<Token> {
    if parts == [] then [] else Chars(parts[0].text) + [Arg(parts[0].n)] + PartTokens(parts[1..])
  }

  /** The text behind a piece. */
  function TextBehind(id: nat, inserted: map<nat, string>): string {
    if id in inserted then inserted[id] else ""
  }

  /** With the right texts behind the pieces, the list reads like the substituted tokens. */
  lemma {:induction false} FlattenLayout(parts: seq<Part>, rest: seq<Node>, first: nat, inserted: map<nat, string>,
                                         args: seq<string>)
    requires forall i :: 0 <= i < |parts| ==> TextBehind(first + i, inserted) == ArgText(args, parts[i].n)
    ensures Flatten(Layout(parts, rest, first, inserted)) == Render(PartTokens(parts), args) + Flatten(rest)
    decreases |parts|
  {
    if parts != [] {
      hide Flatten, Render, PartTokens, Behind, TextBehind, ArgText;
      var p, more := parts[0], parts[1..];
      var tail := Layout(more, rest, first + 1, inserted);
      forall i | 0 <= i < |more|
        ensures TextBehind(first + 1 + i, inserted) == ArgText(args, more[i].n)
      {
        assert more[i] == parts[i + 1] && TextBehind(first + (i + 1), inserted) == ArgText(args, parts[i + 1].n);
      }
      FlattenLayout(more, rest, first + 1, inserted, args);
      assert TextBehind(first + 0, inserted) == ArgText(args, p.n);
      FlattenFirst(first, p.text, inserted, tail);
      RenderPart(p, more, args);
      hide Layout;
      assert parts == [p] + more;
      Sequences.ConcatAssociates(p.text + ArgText(args, p.n), Render(PartTokens(more), args), Flatten(rest));
    }
  }

  lemma RenderPart(p: Part, more: seq<Part>, args: seq<string>)
    ensures Render(PartTokens([p] + more), args) == p.text + ArgText(args, p.n) + Render(PartTokens(more), args)
  {
    assert ([p] + more)[0] == p && ([p] + more)[1..] == more;
    RenderConcat(Chars(p.text) + [Arg(p.n)], PartTokens(more), args);
    RenderConcat(Chars(p.text), [Arg(p.n)], args);
    RenderChars(p.text, args);
    RenderOne(p.n, args);
  }

  lemma FlattenFirst(id: nat, text: string, inserted: map<nat, string>, tail: seq<Node>)
    ensures Flatten([Piece(id, text)] + Behind(id, inserted, tail)) == text + TextBehind(id, inserted) + Flatten(tail)
  {
    var l := Behind(id, inserted, tail);
    assert ([Piece(id, text)] + l)[1..] == l;
    if id in inserted {
      assert l[1..] == tail;
    }
  }

  lemma RenderOne(n: nat, args: seq<string>)
    ensures Render([Arg(n)], args) == ArgText(args, n)
  {
  }

  lemma {:induction false} LayoutAppend(parts: seq<Part>, rest: seq<Node>, first: nat, p: Part)
    ensures Layout(parts + [p], rest, first, map[]) ==
            Layout(parts, [], first, map[]) + ([Piece(first + |parts|, p.text)] + rest)
    decreases |parts|
  {
    if parts == [] {
      assert (parts + [p])[1..] == [];
    } else {
      assert (parts + [p])[0] == parts[0] && (parts + [p])[1..] == parts[1..] + [p];
      LayoutAppend(parts[1..], rest, first + 1, p);
    }
  }

  lemma {:induction false} LayoutRest(parts: seq<Part>, rest: seq<Node>, first: nat)
    ensures Layout(parts, rest, first, map[]) == Layout(parts, [], first, map[]) + rest
    decreases |parts|
  {
    if parts != [] {
      LayoutRest(parts[1..], rest, first + 1);
    }
  }

  lemma {:induction false} PartTokensAppend(parts: seq<Part>, p: Part)
    ensures PartTokens(parts + [p]) == PartTokens(parts) + (Chars(p.text) + [Arg(p.n)])
  {
    if parts == [] {
      assert (parts + [p])[1..] == [];
    } else {
      assert (parts + [p])[0] == parts[0] && (parts + [p])[1..] == parts[1..] + [p];
      PartTokensAppend(parts[1..], p);
    }
  }

  // ---------------------------------------------------------------- the parse of the format

  lemma DigitRunIs(s: string, k: nat)
    requires k <= |s| && (forall j :: 0 <= j < k ==> IsNumber(s[j])) && (k < |s| ==> !IsNumber(s[k]))
    ensures DigitRun(s) == k
  {
  }

  // ---------------------------------------------------------------- the composition

  /** The string arguments among those given: a streamed argument without output is no argument. */
  datatype Argument = Text(s: string) | Streamed(s: string)

  function Effective(given: seq<Argument>): seq<string> {
    if given == [] then []
    else Counted(given[0]) + Effective(given[1..])
  }

  function Counted(a: Argument): seq<string> {
    if a.Streamed? && a.s == "" then [] else [a.s]
  }

  /** The pieces a specification number stands behind, in the order of the multimap. */
  function IdsOf(specs: map<nat, seq<nat>>, n: nat): seq<nat> {
    if n in specs then specs[n] else []
  }

  /** The multimap files every piece once, under the number of its specification. */
  ghost predicate FilesParts(specs: map<nat, seq<nat>>, parts: seq<Part>) {
    && (forall n: nat {:trigger IdsOf(specs, n)} :: Sequences.Distinct(IdsOf(specs, n)))
    && (forall n: nat, id: nat {:trigger id in IdsOf(specs, n)} :: id in IdsOf(specs, n) <==>
        id < |parts| && parts[id].n == n)
  }

  lemma FilePart(specs: map<nat, seq<nat>>, parts: seq<Part>, p: Part)
    requires FilesParts(specs, parts)
    ensures FilesParts(specs[p.n := IdsOf(specs, p.n) + [|parts|]], parts + [p])
  {
    var specs' := specs[p.n := IdsOf(specs, p.n) + [|parts|]];
    forall n: nat
      ensures Sequences.Distinct(IdsOf(specs', n))
      ensures forall id: nat :: id in IdsOf(specs', n) <==> id < |parts + [p]| && (parts + [p])[id].n == n
    {
      assert Sequences.Distinct(IdsOf(specs, n));
      assert forall id: nat :: id in IdsOf(specs, n) <==> id < |parts| && parts[id].n == n;
      if n == p.n {
        Sequences.DistinctConcat(IdsOf(specs, n), [|parts|]);
      }
    }
  }

  /** The texts inserted behind the pieces for the arguments supplied so far. */
  function InsertedTexts(parts: seq<Part>, args: seq<string>): map<nat, string> {
    map id: nat | 0 <= id < |parts| && 1 <= parts[id].n <= |args| :: args[parts[id].n - 1]
  }

  /** The texts inserted after `obj` was put behind the pieces `ids`. */
  function WithTexts(inserted: map<nat, string>, ids: seq<nat>, obj: string): map<nat, string> {
    if ids == [] then inserted else WithTexts(inserted, ids[..|ids| - 1], obj)[ids[|ids| - 1] := obj]
  }

  lemma {:induction false} WithTextsKeys(inserted: map<nat, string>, ids: seq<nat>, obj: string, id: nat)
    ensures id in WithTexts(inserted, ids, obj) <==> id in inserted || id in ids
    ensures id in ids ==> WithTexts(inserted, ids, obj)[id] == obj
    ensures id !in ids && id in inserted ==> WithTexts(inserted, ids, obj)[id] == inserted[id]
    decreases |ids|
  {
    if ids != [] {
      WithTextsKeys(inserted, ids[..|ids| - 1], obj, id);
      assert ids == ids[..|ids| - 1] + [ids[|ids| - 1]];
    }
  }

  lemma InsertedTextsNext(specs: map<nat, seq<nat>>, parts: seq<Part>, args: seq<string>, obj: string)
    requires FilesParts(specs, parts)
    ensures WithTexts(InsertedTexts(parts, args), IdsOf(specs, |args| + 1), obj) == InsertedTexts(parts, args + [obj])
  {
    var ids := IdsOf(specs, |args| + 1);
    var a, b := WithTexts(InsertedTexts(parts, args), ids, obj), InsertedTexts(parts, args + [obj]);
    forall id: nat
      ensures id in a <==> id in b
      ensures id in a && id in b ==> a[id] == b[id]
    {
      WithTextsKeys(InsertedTexts(parts, args), ids, obj, id);
      assert id in ids <==> id < |parts| && parts[id].n == |args| + 1;
    }
  }

  /** Nothing stands yet behind the pieces of the next argument's number. */
  lemma IdsFresh(specs: map<nat, seq<nat>>, parts: seq<Part>, args: seq<string>)
    requires FilesParts(specs, parts)
    ensures Sequences.Distinct(IdsOf(specs, |args| + 1))
    ensures forall id: nat :: id in IdsOf(specs, |args| + 1) ==> id < |parts| && id !in InsertedTexts(parts, args)
  {
    var n: nat := |args| + 1;
    assert Sequences.Distinct(IdsOf(specs, n));
    forall id: nat | id in IdsOf(specs, n)
      ensures id < |parts| && id !in InsertedTexts(parts, args)
    {
      assert id < |parts| && parts[id].n == n;
    }
  }

  /** fmt.replace(i, 2, "%"). */
  function Replace2(fmt: string, i: nat): (r: string)
    requires i + 2 <= |fmt|
    ensures |r| == |fmt| - 1
  {
    fmt[..i] + "%" + fmt[i + 2..]
  }

  /** The tokens of the format are those of the parts found so far, then the piece begun at `b`, then
      those of what `fmt` still holds from `i` on. */
  ghost predicate Parsed(format: string, parts: seq<Part>, fmt: string, b: nat, i: nat) {
    && b <= i <= |fmt|
    && Tokens(format) == PartTokens(parts) + (Chars(fmt[b..i]) + Tokens(fmt[i..]))
  }

  class Composition {
    var argNo: nat
    var output: seq<Node>
    /** The multimap from specification numbers to the pieces they follow. */
    var specs: map<nat, seq<nat>>
    ghost var parts: seq<Part>
    ghost var rest: seq<Node>
    ghost var args: seq<string>

    ghost predicate Valid()
      reads this
    {
      && argNo == |args| + 1
      && FilesParts(specs, parts)
      && output == Layout(parts, rest, 0, InsertedTexts(parts, args))
    }

    /** The output list before any argument and before the last piece. */
    ghost predicate Building()
      reads this
    {
      FilesParts(specs, parts) && output == Layout(parts, [], 0, map[])
    }

    /** Splits the format into the output list and records where the specifications stand. */
    constructor (format: string)
      ensures Valid() && args == []
      ensures Tokens(format) == PartTokens(parts) + Chars(Flatten(rest))
    {
      argNo, output, specs := 1, [], map[];
      parts, rest, args := [], [], [];
      new;
      ParseFormat(format);
    }

    /** The constructor's loop, and the text behind the last specification. */
    method ParseFormat(format: string)
      requires Building() && parts == [] && args == [] && rest == [] && argNo == 1
      modifies `output, `specs, `parts, `rest
      ensures Valid()
      ensures Tokens(format) == PartTokens(parts) + Chars(Flatten(rest))
    {
      hide *;
      var fmt := format;
      var b, i := 0, 0;
      NothingParsed(fmt);
      while i < |fmt|
        invariant b <= i <= |fmt| && rest == []
        invariant Parsed(format, parts, fmt, b, i)
        invariant Building()
        decreases |fmt| - i
      {
        if fmt[i] == '%' && i + 1 < |fmt| {
          if fmt[i + 1] == '%' {
            ghost var before := fmt;
            fmt := Replace2(fmt, i);
            DoublePercent(format, parts, before, fmt, b, i);
            i := i + 1;
          } else if IsNumber(fmt[i + 1]) {
            var n, spec := ReadSpec(fmt, i);
            PartTaken(format, parts, fmt, b, i, n, spec);
            AddPart(fmt[b..i], spec);
            i := i + n;
            b := i;
          } else {
            NoSpec(format, parts, fmt, b, i);
            i := i + 1;
          }
        } else {
          NoSpec(format, parts, fmt, b, i);
          i := i + 1;
        }
      }
      EndOfFormat(format, parts, fmt, b);
      NothingInserted(parts);
      AddRest(fmt[b..i]);
    }

    /** Appends what follows the last specification. */
    method AddRest(text: string)
      requires Building() && args == [] && rest == [] && argNo == 1
      modifies `output, `rest
      ensures Valid() && Flatten(rest) == text
    {
      NothingInserted(parts);
      if text != "" {
        var last := Piece(|output|, text);
        LayoutRest(parts, [last], 0);
        output := output + [last];
        rest := [last];
        FlattenSingle(last);
      }
    }

    /** Reads the digits after the '%' at `i`: the length of the specification and its number. */
    static method ReadSpec(fmt: string, i: nat) returns (n: nat, spec: nat)
      requires i + 1 < |fmt| && fmt[i] == '%' && IsNumber(fmt[i + 1])
      ensures n >= 2 && i + n <= |fmt|
      ensures Tokens(fmt[i..]) == [Arg(spec)] + Tokens(fmt[i + n..])
    {
      hide Decimal, Tokens, DigitRun;
      n := 1;
      var acc: nat := 0;
      NoDigits(fmt[i + 1..i + n]);
      var more := true;
      while more
        invariant 1 <= n && i + n <= |fmt| && (more <==> i + n < |fmt| && IsNumber(fmt[i + n]))
        invariant n > 1 || more
        invariant forall j :: i + 1 <= j < i + n ==> IsNumber(fmt[j])
        invariant acc == 10 * Decimal(fmt[i + 1..i + n])
        decreases |fmt| - n, more
      {
        DecimalNext(fmt, i + 1, i + n);
        acc := acc + CharToInt(fmt[i + n]);
        acc := acc * 10;
        n := n + 1;
        more := i + n < |fmt| && IsNumber(fmt[i + n]);
      }
      spec := acc / 10;
      SpecTokens(fmt, i, n);
    }

    /** Appends the piece in front of a specification and files its position under the number. */
    method AddPart(text: string, spec: nat)
      requires Building()
      modifies `output, `specs, `parts
      ensures Building()
      ensures parts == old(parts) + [Part(text, spec)]
    {
      LayoutAppend(parts, [], 0, Part(text, spec));
      LayoutLength(parts, 0);
      FilePart(specs, parts, Part(text, spec));
      hide FilesParts, Layout;
      var id := |output|;
      specs := specs[spec := IdsOf(specs, spec) + [id]];
      output := output + [Piece(id, text)];
      assert [Piece(id, text)] + [] == [Piece(id, text)];
      parts := parts + [Part(text, spec)];
    }

    /** Supplies the next argument: its text is inserted behind every piece whose specification has its number. */
    method AddArg(obj: string)
      requires Valid()
      modifies `argNo, `output, `args
      ensures Valid() && args == old(args) + Counted(Text(obj))
    {
      hide Layout, InsertAfter, WithTexts, Sequences.Distinct;
      IdsFresh(specs, parts, args);
      InsertedTextsNext(specs, parts, args, obj);
      hide FilesParts, IdsOf;
      InsertBehind(IdsOf(specs, argNo), obj, InsertedTexts(parts, args));
      hide InsertedTexts;
      args := args + [obj];
      argNo := argNo + 1;
    }

    /** The loop over the multimap's entries for one number. */
    method InsertBehind(ids: seq<nat>, obj: string, ghost inserted: map<nat, string>)
      requires output == Layout(parts, rest, 0, inserted)
      requires Sequences.Distinct(ids) && forall id: nat :: id in ids ==> id < |parts| && id !in inserted
      modifies `output
      ensures output == Layout(parts, rest, 0, WithTexts(inserted, ids, obj))
    {
      hide Layout, InsertAfter;
      var j := 0;
      while j < |ids|
        invariant j <= |ids|
        invariant output == Layout(parts, rest, 0, WithTexts(inserted, ids[..j], obj))
      {
        WithTextsKeys(inserted, ids[..j], obj, ids[j]);
        assert ids[j] in ids && ids[j] !in ids[..j];
        InsertIntoLayout(parts, rest, 0, WithTexts(inserted, ids[..j], obj), ids[j], obj);
        output := InsertAfter(output, ids[j], obj);
        assert ids[..j + 1][..j] == ids[..j];
        j := j + 1;
      }
      assert ids[..j] == ids;
    }

    /** The template for other types: what was streamed counts only if it produced output. */
    method AddStreamed(rep: string)
      requires Valid()
      modifies `argNo, `output, `args
      ensures Valid() && args == old(args) + Counted(Streamed(rep))
    {
      if rep != "" {
        AddArg(rep);
      } else {
        assert args == args + [];
      }
    }

    /** Joins the list. */
    method Str() returns (str: string)
      requires Valid()
      ensures str == Render(PartTokens(parts), args) + Flatten(rest)
    {
      str := "";
      var i := 0;
      assert output[0..] == output;
      while i < |output|
        invariant i <= |output|
        invariant str + Flatten(output[i..]) == Flatten(output)
      {
        assert output[i..][1..] == output[i + 1..];
        str := str + output[i].text;
        i := i + 1;
      }
      FlattenLayout(parts, rest, 0, InsertedTexts(parts, args), args);
    }
  }

  lemma DoublePercent(format: string, parts: seq<Part>, before: string, after: string, b: nat, i: nat)
    requires Parsed(format, parts, before, b, i)
    requires i + 1 < |before| && before[i] == '%' && before[i + 1] == '%'
    requires after == Replace2(before, i)
    ensures Parsed(format, parts, after, b, i + 1)
  {
    var s := before[i..];
    DoubleToken(s);
    hide Tokens, PartTokens;
    assert s[2..] == before[i + 2..] == after[i + 1..];
    assert after[b..i + 1] == before[b..i] + "%";
    assert Chars(after[b..i + 1]) == Chars(before[b..i]) + [Chr('%')];
    Sequences.ConcatAssociates(Chars(before[b..i]), [Chr('%')], Tokens(s[2..]));
  }

  lemma DoubleToken(s: string)
    requires |s| > 1 && s[0] == '%' && s[1] == '%'
    ensures Tokens(s) == [Chr('%')] + Tokens(s[2..])
  {
  }

  lemma DecimalNext(s: string, lo: nat, hi: nat)
    requires lo <= hi < |s| && forall j :: lo <= j <= hi ==> IsNumber(s[j])
    ensures Decimal(s[lo..hi + 1]) == 10 * Decimal(s[lo..hi]) + CharToInt(s[hi])
  {
    var d := s[lo..hi + 1];
    assert d[..|d| - 1] == s[lo..hi];
  }

  lemma NoDigits(s: string)
    requires s == ""
    ensures Decimal(s) == 0
  {
  }

  /** A '%' and its `n - 1` digits are one token. */
  lemma SpecTokens(fmt: string, i: nat, n: nat)
    requires n >= 2 && i + n <= |fmt| && fmt[i] == '%'
    requires forall j :: i + 1 <= j < i + n ==> IsNumber(fmt[j])
    requires i + n < |fmt| ==> !IsNumber(fmt[i + n])
    ensures Tokens(fmt[i..]) == [Arg(Decimal(fmt[i + 1..i + n]))] + Tokens(fmt[i + n..])
  {
    var s, k: nat := fmt[i..], n - 1;
    var t := s[1..];
    assert t == fmt[i + 1..];
    DigitRunIs(t, k);
    assert t[..k] == fmt[i + 1..i + n] && t[k..] == fmt[i + n..];
    hide DigitRun, Decimal;
  }

  lemma NothingParsed(fmt: string)
    ensures Parsed(fmt, [], fmt, 0, 0)
  {
    assert fmt[0..] == fmt && Chars(fmt[0..0]) == [];
    hide Tokens, Chars;
    assert [] + ([] + Tokens(fmt)) == Tokens(fmt);
  }

  /** A character that starts no specification stays. */
  lemma NoSpec(format: string, parts: seq<Part>, fmt: string, b: nat, i: nat)
    requires Parsed(format, parts, fmt, b, i) && i < |fmt|
    requires fmt[i] == '%' && i + 1 < |fmt| ==> fmt[i + 1] != '%' && !IsNumber(fmt[i + 1])
    ensures Parsed(format, parts, fmt, b, i + 1)
  {
    var s := fmt[i..];
    assert s[0] == fmt[i] && s[1..] == fmt[i + 1..];
    assert Tokens(s) == [Chr(fmt[i])] + Tokens(fmt[i + 1..]);
    assert Chars(fmt[b..i + 1]) == Chars(fmt[b..i]) + [Chr(fmt[i])];
  }

  /** A specification ends the piece before it. */
  lemma PartTaken(format: string, parts: seq<Part>, fmt: string, b: nat, i: nat, n: nat, spec: nat)
    requires Parsed(format, parts, fmt, b, i)
    requires i + n <= |fmt| && Tokens(fmt[i..]) == [Arg(spec)] + Tokens(fmt[i + n..])
    ensures Parsed(format, parts + [Part(fmt[b..i], spec)], fmt, i + n, i + n)
  {
    PartTokensAppend(parts, Part(fmt[b..i], spec));
    var p, c, t := PartTokens(parts), Chars(fmt[b..i]), Tokens(fmt[i + n..]);
    assert Chars(fmt[i + n..i + n]) == [];
    hide Tokens, Chars, PartTokens;
    RegroupTokens(p, c, [Arg(spec)], t);
  }

  lemma RegroupTokens(p: seq<Token>, c: seq<Token>, a: seq<Token>, t: seq<Token>)
    ensures p + (c + (a + t)) == (p + (c + a)) + ([] + t)
  {
    Sequences.ConcatAssociates(c, a, t);
    Sequences.ConcatAssociates(p, c + a, t);
  }

  lemma EndOfFormat(format: string, parts: seq<Part>, fmt: string, b: nat)
    requires Parsed(format, parts, fmt, b, |fmt|)
    ensures Tokens(format) == PartTokens(parts) + Chars(fmt[b..|fmt|])
  {
    assert Tokens(fmt[|fmt|..]) == [];
    assert Chars(fmt[b..|fmt|]) + [] == Chars(fmt[b..|fmt|]);
  }

  lemma FlattenSingle(node: Node)
    ensures Flatten([node]) == node.text
  {
    assert [node][1..] == [];
    assert node.text + "" == node.text;
  }

  lemma NothingInserted(parts: seq<Part>)
    ensures InsertedTexts(parts, []) == map[]
  {
  }

  lemma {:induction false} LayoutLength(parts: seq<Part>, first: nat)
    ensures |Layout(parts, [], first, map[])| == |parts|
    decreases |parts|
  {
    if parts != [] {
      LayoutLength(parts[1..], first + 1);
    }
  }

  /** What the argument at `i` adds. */
  lemma EffectiveNext(given: seq<Argument>, i: nat, sofar: seq<string>)
    requires i < |given| && sofar + Effective(given[i..]) == Effective(given)
    ensures (sofar + Counted(given[i])) + Effective(given[i + 1..]) ==
            Effective(given)
  {
    assert given[i..][0] == given[i] && given[i..][1..] == given[i + 1..];
    Sequences.ConcatAssociates(sofar, Counted(given[i]), Effective(given[i + 1..]));
  }

  lemma EffectiveEnds(given: seq<Argument>)
    ensures [] + Effective(given[0..]) == Effective(given)
    ensures Effective(given[|given|..]) == []
  {
    assert given[0..] == given;
  }

  /** The joined list reads like the one-pass substitution. */
  lemma ReadsSubstituted(fmt: string, parts: seq<Part>, text: string, args: seq<string>)
    requires Tokens(fmt) == PartTokens(parts) + Chars(text)
    ensures Render(PartTokens(parts), args) + text == Substitute(fmt, args)
  {
    RenderConcat(PartTokens(parts), Chars(text), args);
    RenderChars(text, args);
  }

  /** compose: the result is the format with each specification replaced, in one pass, by the argument it
      names, whatever the arguments contain and however often or in whatever order they are named. */
  method ComposeString(fmt: string, given: seq<Argument>) returns (result: string)
    ensures result == Substitute(fmt, Effective(given))
  {
    hide *;
    var c := new Composition(fmt);
    ghost var parts, rest := c.parts, c.rest;
    var i := 0;
    EffectiveEnds(given);
    while i < |given|
      invariant i <= |given| && c.Valid() && fresh(c) && c.parts == parts && c.rest == rest
      invariant c.args + Effective(given[i..]) == Effective(given)
    {
      EffectiveNext(given, i, c.args);
      match given[i] {
        case Text(s) => c.AddArg(s);
        case Streamed(s) => c.AddStreamed(s);
      }
      i := i + 1;
    }
    assert c.args == Effective(given);
    result := c.Str();
    ReadsSubstituted(fmt, parts, Flatten(rest), c.args);
  }
}
