/** Class properties: their flags, what the typed ones store (src/common/Property.cpp, src/common/Property.h)
    and how a property manager makes them (src/rules/simulation/CorePropertyManager.cpp, lines 298-312). */
module Properties {
  /** Atlas values.  Integers stand for the 64-bit ones of Atlas. */
  datatype Value =
    | Nothing
    | IntValue(i: int)
    | FloatValue(x: real)
    | StringValue(s: string)
    | ListValue(items: seq<Value>)
    | MapValue(entries: map<string, Value>)

  type Attributes = map<string, Value>

  datatype Flag = Ephemeral | VisibilityPrivate | VisibilityProtected | ClassProperty | InstanceOnly

  /** The property classes by what their `set` accepts. */
  datatype Kind = Soft | IntKind | LongKind | DoubleKind | StringKind | ListKind | MapKind | BoolKind

  datatype Visibility = Private | Protected | Public

  /** Conversion of a 64-bit integer to a 32-bit one. */
  function Narrow(i: int): int {
    (i + 0x8000_0000) % 0x1_0000_0000 - 0x8000_0000
  }

  datatype Property = Property(flags: set<Flag>, kind: Kind, data: Value) {
    /** Whether any of the flags is set. */
    predicate HasFlags(fs: set<Flag>) {
      flags * fs != {}
    }

    /** `set`: values of another type are ignored. */
    function Set(v: Value): Property {
      match kind
      case Soft => this.(data := v)
      case IntKind => if v.IntValue? then this.(data := IntValue(Narrow(v.i))) else this
      case LongKind => if v.IntValue? then this.(data := v) else this
      case DoubleKind =>
        if v.FloatValue? then this.(data := v)
        else if v.IntValue? then this.(data := FloatValue(v.i as real))
        else this
      case StringKind => if v.StringValue? then this.(data := v) else this
      case ListKind => if v.ListValue? then this.(data := v) else this
      case MapKind => if v.MapValue? then this.(data := v) else this
      case BoolKind => if v.IntValue? then this.(data := IntValue(if v.i == 0 then 0 else 1)) else this
    }

    /** Sets a value that differs from the one held. */
    function Assign(v: Value): (p: Property)
      ensures p.flags == flags && p.kind == kind
    {
      if data != v then Set(v) else this
    }

    /** Whether a description for this audience shows the property. */
    predicate VisibleTo(v: Visibility) {
      match v
      case Private => true
      case Protected => !HasFlags({VisibilityPrivate})
      case Public => !HasFlags({VisibilityPrivate, VisibilityProtected})
    }
  }

  /** The values a property gives back as they were set. */
  predicate Accepts(kind: Kind, v: Value) {
    match kind
    case Soft => true
    case IntKind => v.IntValue? && -0x8000_0000 <= v.i < 0x8000_0000
    case LongKind => v.IntValue?
    case DoubleKind => v.FloatValue?
    case StringKind => v.StringValue?
    case ListKind => v.ListValue?
    case MapKind => v.MapValue?
    case BoolKind => v == IntValue(0) || v == IntValue(1)
  }

  /** Assigning a value takes hold exactly when the kind accepts it or it was held already. */
  lemma AssignTakesHold(p: Property, v: Value)
    ensures p.Assign(v).data == v <==> Accepts(p.kind, v) || p.data == v
  {
    if p.data != v && p.kind == IntKind && v.IntValue? {
      assert -0x8000_0000 <= Narrow(v.i) < 0x8000_0000;
      assert Accepts(IntKind, v) ==> Narrow(v.i) == v.i;
    }
  }

  /** The values whose type a property's `set` does not ignore. */
  predicate Takes(kind: Kind, v: Value) {
    match kind
    case Soft => true
    case IntKind | LongKind | BoolKind => v.IntValue?
    case DoubleKind => v.FloatValue? || v.IntValue?
    case StringKind => v.StringValue?
    case ListKind => v.ListValue?
    case MapKind => v.MapValue?
  }

  /** Setting a value takes hold exactly when the kind accepts it, or ignores it but held it already. */
  lemma SetTakesHold(p: Property, v: Value)
    ensures p.Set(v).data == v <==> Accepts(p.kind, v) || (!Takes(p.kind, v) && p.data == v)
  {
    if p.kind == IntKind && v.IntValue? {
      assert -0x8000_0000 <= Narrow(v.i) < 0x8000_0000;
      assert Accepts(IntKind, v) ==> Narrow(v.i) == v.i;
    }
  }

  /** What is stored for a value the kind takes but does not hold as it is: a number of the same remainder in 32
      bits, the same number, or whether it was zero. */
  lemma SetConverts(p: Property, i: int)
    ensures p.kind == IntKind ==>
              && p.Set(IntValue(i)).data.IntValue?
              && var stored := p.Set(IntValue(i)).data.i;
                 -0x8000_0000 <= stored < 0x8000_0000 && (stored - i) % 0x1_0000_0000 == 0
    ensures p.kind == DoubleKind ==>
              var d := p.Set(IntValue(i)).data;
              d.FloatValue? && d.x.Floor == i && d.x == d.x.Floor as real
    ensures p.kind == BoolKind ==>
              var d := p.Set(IntValue(i)).data;
              d in {IntValue(0), IntValue(1)} && (d == IntValue(0) <==> i == 0)
  {
  }

  /** A valid name has one to thirty-two characters, each a letter, a digit or one of three signs. */
  lemma ValidNames(name: string)
    ensures IsValidName(name) <==> 1 <= |name| < 33 && forall c :: c in name ==> IsValidName([c])
    ensures forall c :: IsValidName([c]) <==>
              c in "abcdefghijklmnopqrstuvwxyz" || c in "ABCDEFGHIJKLMNOPQRSTUVWXYZ" || c in "0123456789" || c in "_$-"
  {
    forall c: char
      ensures IsValidName([c]) <==> IsNameCharacter(c)
    {
      assert c in [c];
    }
    NameCharacters();
    hide IsNameCharacter;
  }

  lemma NameCharacters()
    ensures forall c :: IsNameCharacter(c) <==>
              c in "abcdefghijklmnopqrstuvwxyz" || c in "ABCDEFGHIJKLMNOPQRSTUVWXYZ" || c in "0123456789" || c in "_$-"
  {
    InAlphabet("abcdefghijklmnopqrstuvwxyz", 'a');
    InAlphabet("ABCDEFGHIJKLMNOPQRSTUVWXYZ", 'A');
    InAlphabet("0123456789", '0');
  }

  /** Consecutive characters. */
  lemma InAlphabet(alphabet: string, first: char)
    requires forall i :: 0 <= i < |alphabet| ==> alphabet[i] as int == first as int + i
    ensures forall c: char :: c in alphabet <==> first as int <= c as int < first as int + |alphabet|
  {
    forall c: char | first as int <= c as int < first as int + |alphabet|
      ensures c in alphabet
    {
      assert alphabet[c as int - first as int] == c;
    }
  }

  predicate IsNameCharacter(c: char) {
    'a' <= c <= 'z' || 'A' <= c <= 'Z' || '0' <= c <= '9' || c == '_' || c == '$' || c == '-'
  }

  predicate IsValidName(name: string) {
    0 < |name| <= 32 && forall c :: c in name ==> IsNameCharacter(c)
  }

  function FlagsForPropertyName(name: string): set<Flag> {
    if |name| > 1 && name[0] == '_' && name[1] == '_' then {VisibilityPrivate}
    else if name != "" && name[0] == '_' then {VisibilityProtected}
    else {}
  }

  /** The prototypes of the property factories. */
  type Factories = map<string, Property>

  /** A new property: a soft one where no factory is known, with the flags its name asks for. */
  function AddProperty(factories: Factories, name: string): Property {
    var p := if name in factories then factories[name] else Property({}, Soft, Nothing);
    p.(flags := p.flags + FlagsForPropertyName(name))
  }

  /** Names a class can hold a property for. */
  predicate Admitted(factories: Factories, name: string) {
    IsValidName(name) && !AddProperty(factories, name).HasFlags({InstanceOnly})
  }

  /** Factories ask for no visibility of their own, so the name alone decides. */
  predicate NamesDecideVisibility(factories: Factories) {
    forall n :: n in factories ==> !factories[n].HasFlags({VisibilityPrivate, VisibilityProtected})
  }

  /** Then names without underscore are public, one underscore hides from the public, two from the owner too. */
  lemma VisibilityOfName(factories: Factories, name: string)
    requires NamesDecideVisibility(factories)
    ensures AddProperty(factories, name).VisibleTo(Public) <==> name == "" || name[0] != '_'
    ensures AddProperty(factories, name).VisibleTo(Protected) <==> !(|name| > 1 && name[0] == '_' && name[1] == '_')
  {
    var p := AddProperty(factories, name);
    var own := if name in factories then factories[name].flags else {};
    var hidden := {VisibilityPrivate, VisibilityProtected};
    assert own * hidden == {};
    forall f: Flag | f in hidden
      ensures f !in own
    {
      assert f in own ==> f in own * hidden;
    }
    assert p.flags == own + FlagsForPropertyName(name);
    assert VisibilityPrivate in p.flags <==> FlagsForPropertyName(name) == {VisibilityPrivate};
    assert VisibilityProtected in p.flags <==> FlagsForPropertyName(name) == {VisibilityProtected};
    HasFlag(p, VisibilityPrivate);
    HasEither(p, VisibilityPrivate, VisibilityProtected);
  }

  lemma HasFlag(p: Property, f: Flag)
    ensures p.HasFlags({f}) <==> f in p.flags
  {
    assert f in p.flags <==> f in p.flags * {f};
    if p.HasFlags({f}) {
      var g :| g in p.flags * {f};
    }
  }

  lemma HasEither(p: Property, f: Flag, g: Flag)
    ensures p.HasFlags({f, g}) <==> f in p.flags || g in p.flags
  {
    assert f in p.flags ==> f in p.flags * {f, g};
    assert g in p.flags ==> g in p.flags * {f, g};
    if p.HasFlags({f, g}) {
      var h :| h in p.flags * {f, g};
    }
  }
}
